/**
 * Bit strings, most significant bit first, and the Exp-Golomb codes of
 * section 9.2 of ITU-T H.265 over them. `Take...` functions read a syntax
 * element off the front of a bit string; `...Bits` functions write one. They
 * are the specification that the BitReader class is proved against.
 */
module Bits {
  import opened Wrappers

  type Byte = x: int | 0 <= x < 256

  /** The largest run of leading zeros that ReadUe accepts. */
  const MAX_UE_ZEROS: nat := 31

  /** The largest ue(v) such a prefix can carry, 2^32 - 2. */
  const MAX_UE: nat := 0xFFFF_FFFE

  function Pow2(n: nat): (p: nat)
    ensures p >= 1
  {
    if n == 0 then 1 else 2 * Pow2(n - 1)
  }

  lemma Pow2Step(n: nat)
    requires n > 0
    ensures Pow2(n) == 2 * Pow2(n - 1)
  {
  }

  lemma {:induction false} Pow2Add(a: nat, b: nat)
    ensures Pow2(a + b) == Pow2(a) * Pow2(b)
  {
    if a > 0 {
      Pow2Add(a - 1, b);
      assert Pow2(a) * Pow2(b) == 2 * (Pow2(a - 1) * Pow2(b));
    }
  }

  lemma {:induction false} Pow2Monotone(a: nat, b: nat)
    requires a <= b
    ensures Pow2(a) <= Pow2(b)
  {
    if a < b {
      Pow2Monotone(a, b - 1);
    }
  }

  function BitVal(b: bool): nat {
    if b then 1 else 0
  }

  /** The number a bit string denotes. */
  function ToNat(bs: seq<bool>): (v: nat)
    ensures v < Pow2(|bs|)
  {
    if bs == [] then 0 else 2 * ToNat(bs[..|bs| - 1]) + BitVal(bs[|bs| - 1])
  }

  /** The low `n` bits of `v`. */
  function FromNat(v: nat, n: nat): (bs: seq<bool>)
    ensures |bs| == n
  {
    if n == 0 then [] else FromNat(v / 2, n - 1) + [v % 2 == 1]
  }

  lemma {:induction false} FromNatToNat(v: nat, n: nat)
    requires v < Pow2(n)
    ensures ToNat(FromNat(v, n)) == v
  {
    if n > 0 {
      assert Pow2(n) == 2 * Pow2(n - 1);
      FromNatToNat(v / 2, n - 1);
      var init := FromNat(v / 2, n - 1);
      var bs := init + [v % 2 == 1];
      assert bs[..|bs| - 1] == init;
      assert ToNat(bs) == 2 * ToNat(init) + v % 2;
    }
  }

  /** A bit string split at its first bit. */
  lemma {:induction false} ToNatHead(bs: seq<bool>)
    requires bs != []
    ensures ToNat(bs) == BitVal(bs[0]) * Pow2(|bs| - 1) + ToNat(bs[1..])
  {
    hide Pow2;
    ToNatSnoc(bs);
    if |bs| > 1 {
      var init, tail := bs[..|bs| - 1], bs[1..];
      ToNatHead(init);
      ToNatSnoc(tail);
      Pow2Step(|bs| - 1);
      assert init[1..] == tail[..|tail| - 1];
      Doubled(BitVal(bs[0]), Pow2(|bs| - 2), ToNat(init[1..]));
    } else {
      Pow2Zero();
    }
  }

  lemma Doubled(b: nat, p: nat, t: nat)
    ensures 2 * (b * p + t) == b * (2 * p) + 2 * t
  {
  }

  lemma ToNatSnoc(bs: seq<bool>)
    requires bs != []
    ensures ToNat(bs) == 2 * ToNat(bs[..|bs| - 1]) + BitVal(bs[|bs| - 1])
  {
  }

  lemma Pow2Zero()
    ensures Pow2(0) == 1
  {
  }

  /** Every bit of a byte buffer, in reading order. */
  function BitsOf(data: seq<Byte>): (bs: seq<bool>)
    ensures |bs| == 8 * |data|
  {
    if data == [] then [] else FromNat(data[0], 8) + BitsOf(data[1..])
  }

  lemma {:induction false} BitsOfAt(data: seq<Byte>, p: nat)
    requires p < 8 * |data|
    ensures BitsOf(data)[p] == FromNat(data[p / 8], 8)[p % 8]
  {
    var head, tail := FromNat(data[0], 8), BitsOf(data[1..]);
    if p >= 8 {
      BitsOfAt(data[1..], p - 8);
      assert (head + tail)[p] == tail[p - 8];
      assert (p - 8) / 8 == p / 8 - 1 && (p - 8) % 8 == p % 8;
    } else {
      assert (head + tail)[p] == head[p];
    }
  }

  lemma {:induction false} FromNatAt(v: nat, n: nat, k: nat)
    requires k < n
    ensures FromNat(v, n)[k] == (v / Pow2(n - 1 - k) % 2 == 1)
  {
    if k == n - 1 {
      assert Pow2(0) == 1;
    } else {
      FromNatAt(v / 2, n - 1, k);
      HalveThenShift(v, n - 2 - k);
    }
  }

  lemma HalveThenShift(v: nat, k: nat)
    ensures v / 2 / Pow2(k) == v / Pow2(k + 1)
  {
    var p := Pow2(k);
    var q, r := v / 2 / p, v / 2 % p;
    assert v == q * (2 * p) + (2 * r + v % 2);
    DivUnique(v, 2 * p, q, 2 * r + v % 2);
  }

  lemma DivUnique(v: nat, d: nat, q: nat, r: nat)
    requires v == q * d + r && r < d
    ensures v / d == q && v % d == r
  {
    var e := v / d - q;
    assert d * e == r - v % d;
    if e >= 1 {
      MulMonotone(d, 1, e);
    } else if e <= -1 {
      MulMonotone(d, e, -1);
    }
  }

  lemma MulMonotone(d: nat, a: int, b: int)
    requires a <= b
    ensures d * a <= d * b
  {
  }

  lemma SmallMod(r: int, m: nat)
    requires 0 <= r < m
    ensures r % m == r
  {
  }

  /** Numbers a multiple of m apart leave the same remainder. */
  lemma Congruent(x: int, y: int, k: int, m: nat)
    requires m > 0 && x == y + m * k
    ensures x % m == y % m
  {
    var d := x / m - y / m - k;
    assert m * d == y % m - x % m;
    if d >= 1 {
      MulMonotone(m, 1, d);
    } else if d <= -1 {
      MulMonotone(m, d, -1);
    }
  }

  /** u(n). */
  function TakeU(n: nat, bs: seq<bool>): Option<(nat, seq<bool>)> {
    if |bs| < n then None else Some((ToNat(bs[..n]), bs[n..]))
  }

  /** u(1) as a flag. */
  function TakeFlag(bs: seq<bool>): Option<(bool, seq<bool>)> {
    if bs == [] then None else Some((bs[0], bs[1..]))
  }

  /** ue(v), with `zeros` zero bits of the prefix already read. */
  function TakeUeAfter(zeros: nat, bs: seq<bool>): Option<(nat, seq<bool>)>
    decreases |bs|
  {
    if bs == [] then None
    else if bs[0] then
      var (suffix, rest) :- TakeU(zeros, bs[1..]);
      Some((Pow2(zeros) - 1 + suffix, rest))
    else if zeros + 1 > MAX_UE_ZEROS then None
    else TakeUeAfter(zeros + 1, bs[1..])
  }

  /** ue(v). */
  function TakeUe(bs: seq<bool>): Option<(nat, seq<bool>)> {
    TakeUeAfter(0, bs)
  }

  function SeOfUe(code: nat): int {
    if code % 2 == 1 then (code + 1) / 2 else -((code + 1) / 2)
  }

  function UeOfSe(v: int): nat {
    if v <= 0 then -2 * v else 2 * v - 1
  }

  /** se(v). */
  function TakeSe(bs: seq<bool>): Option<(int, seq<bool>)> {
    var (code, rest) :- TakeUe(bs);
    Some((SeOfUe(code), rest))
  }

  function BitLength(v: nat): (n: nat)
    ensures v > 0 ==> n > 0 && Pow2(n - 1) <= v < Pow2(n)
  {
    if v == 0 then 0 else 1 + BitLength(v / 2)
  }

  function Zeros(n: nat): (bs: seq<bool>)
    ensures |bs| == n
    ensures forall i :: 0 <= i < n ==> !bs[i]
  {
    seq(n, _ => false)
  }

  function UeBits(v: nat): seq<bool> {
    var n := BitLength(v + 1);
    Zeros(n - 1) + FromNat(v + 1, n)
  }

  function SeBits(v: int): seq<bool> {
    UeBits(UeOfSe(v))
  }

  lemma {:induction false} TakeUBits(v: nat, n: nat, rest: seq<bool>)
    requires v < Pow2(n)
    ensures TakeU(n, FromNat(v, n) + rest) == Some((v, rest))
  {
    FromNatToNat(v, n);
    var bs := FromNat(v, n) + rest;
    assert bs[..n] == FromNat(v, n);
    assert bs[n..] == rest;
  }

  lemma {:induction false} TakeUeAfterZeros(zeros: nat, more: nat, bs: seq<bool>)
    requires bs != [] && bs[0]
    requires zeros + more <= MAX_UE_ZEROS
    ensures TakeUeAfter(zeros, Zeros(more) + bs) == TakeUeAfter(zeros + more, bs)
    decreases more
  {
    var all := Zeros(more) + bs;
    if more == 0 {
      assert all == bs;
    } else {
      assert all[1..] == Zeros(more - 1) + bs;
      TakeUeAfterZeros(zeros + 1, more - 1, bs);
    }
  }

  /** The coded value is a one bit and then its low bits. */
  lemma {:induction false} CodeBits(code: nat, n: nat)
    requires n > 0 && Pow2(n - 1) <= code < Pow2(n)
    ensures FromNat(code, n)[0]
    ensures ToNat(FromNat(code, n)[1..]) == code - Pow2(n - 1)
  {
    var coded := FromNat(code, n);
    FromNatToNat(code, n);
    ToNatHead(coded);
  }

  lemma UeLength(v: nat)
    requires v <= MAX_UE
    ensures 1 <= BitLength(v + 1) <= MAX_UE_ZEROS + 1
  {
    if BitLength(v + 1) > 32 {
      Pow2Monotone(32, BitLength(v + 1) - 1);
      Pow2Of32();
    }
  }

  lemma TakeUeAtOne(zeros: nat, suffix: seq<bool>, rest: seq<bool>)
    requires |suffix| == zeros
    ensures TakeUeAfter(zeros, [true] + (suffix + rest)) == Some((Pow2(zeros) - 1 + ToNat(suffix), rest))
  {
    hide ToNat;
    var bs := [true] + (suffix + rest);
    assert bs[1..] == suffix + rest;
    assert (suffix + rest)[..zeros] == suffix && (suffix + rest)[zeros..] == rest;
  }

  /** ue(v) reads back every value its 31-zero cap admits. */
  lemma {:induction false} UeRoundTrip(v: nat, rest: seq<bool>)
    requires v <= MAX_UE
    ensures TakeUe(UeBits(v) + rest) == Some((v, rest))
  {
    hide FromNat, ToNat, BitLength, TakeUe, Zeros, Pow2;
    var n := BitLength(v + 1);
    UeLength(v);
    CodeBits(v + 1, n);
    TakeCoded(n - 1, FromNat(v + 1, n), rest);
  }

  lemma TakeCoded(zeros: nat, coded: seq<bool>, rest: seq<bool>)
    requires zeros <= MAX_UE_ZEROS && |coded| == zeros + 1 && coded[0]
    ensures TakeUe(Zeros(zeros) + coded + rest) == Some((Pow2(zeros) - 1 + ToNat(coded[1..]), rest))
  {
    hide ToNat, Pow2, Zeros, TakeUeAfter;
    CodeParts(Zeros(zeros), coded, rest);
    TakeUeAfterZeros(0, zeros, [true] + (coded[1..] + rest));
    TakeUeAtOne(zeros, coded[1..], rest);
  }

  lemma CodeParts(zeros: seq<bool>, coded: seq<bool>, rest: seq<bool>)
    requires coded != [] && coded[0]
    ensures (zeros + coded) + rest == zeros + ([true] + (coded[1..] + rest))
  {
    assert coded == [true] + coded[1..];
  }

  lemma Pow2Of32()
    ensures Pow2(31) == 0x8000_0000 && Pow2(32) == 0x1_0000_0000
  {
    assert Pow2(8) == 256;
    Pow2Add(8, 8);
    Pow2Add(16, 16);
  }

  lemma SeUeInverse(v: int)
    ensures SeOfUe(UeOfSe(v)) == v
  {
    if v > 0 {
      assert UeOfSe(v) == 2 * (v - 1) + 1;
    } else {
      assert UeOfSe(v) == 2 * -v && (2 * -v + 1) / 2 == -v;
    }
  }

  /** se(v) reads back every int32 but the most negative. */
  lemma SeRoundTrip(v: int, rest: seq<bool>)
    requires -0x8000_0000 < v < 0x8000_0000
    ensures TakeSe(SeBits(v) + rest) == Some((v, rest))
  {
    UeRoundTrip(UeOfSe(v), rest);
    SeUeInverse(v);
  }

  /** The cap keeps every ue(v) inside uint32. */
  lemma {:induction false} UeBound(zeros: nat, bs: seq<bool>)
    requires zeros <= MAX_UE_ZEROS
    ensures TakeUeAfter(zeros, bs).Some? ==> TakeUeAfter(zeros, bs).value.0 <= MAX_UE
    decreases |bs|
  {
    if bs != [] {
      if bs[0] {
        if zeros <= |bs| - 1 {
          Pow2Monotone(zeros, 31);
          Pow2Of32();
        }
      } else if zeros + 1 <= MAX_UE_ZEROS {
        UeBound(zeros + 1, bs[1..]);
      }
    }
  }
}
