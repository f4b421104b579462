/**
 * What the bits of a buffer are, and the code words of section 9.2 of
 * ITU-T H.265, spelled out; and that the readers accept these words and no
 * others.
 */
module ExpGolomb {
  import opened Wrappers
  import opened Bits

  /** Bit p of a buffer is bit 7 - p % 8 of byte p / 8. */
  lemma BufferBit(data: seq<Byte>, p: nat)
    requires p < 8 * |data|
    ensures BitsOf(data)[p] <==> data[p / 8] / Pow2(7 - p % 8) % 2 == 1
  {
    BitsOfAt(data, p);
    FromNatAt(data[p / 8], 8, p % 8);
  }

  lemma {:induction false} BitsDetermine(bs: seq<bool>)
    ensures FromNat(ToNat(bs), |bs|) == bs
  {
    if bs != [] {
      var init, last := bs[..|bs| - 1], bs[|bs| - 1];
      BitsDetermine(init);
      assert bs == init + [last];
      assert ToNat(bs) / 2 == ToNat(init) && ToNat(bs) % 2 == BitVal(last);
    }
  }

  /** Whether these bits are the big-endian v: bit k of n weighs 2^(n - 1 - k). */
  ghost predicate Spells(word: seq<bool>, v: nat) {
    v < Pow2(|word|) && forall k :: 0 <= k < |word| ==> (word[k] <==> v / Pow2(|word| - 1 - k) % 2 == 1)
  }

  lemma SpellsIff(word: seq<bool>, v: nat)
    ensures Spells(word, v) <==> ToNat(word) == v
  {
    hide ToNat, FromNat, Pow2;
    BitsDetermine(word);
    forall k | 0 <= k < |word|
      ensures FromNat(v, |word|)[k] <==> v / Pow2(|word| - 1 - k) % 2 == 1
    {
      FromNatAt(v, |word|, k);
    }
    if v < Pow2(|word|) {
      FromNatToNat(v, |word|);
      assert Spells(word, v) <==> FromNat(v, |word|) == word;
    }
  }

  /** u(n) is the big-endian number of the next n bits. */
  lemma FixedWidth(bs: seq<bool>, n: nat, v: nat, rest: seq<bool>)
    ensures TakeU(n, bs) == Some((v, rest)) <==> |bs| >= n && Spells(bs[..n], v) && rest == bs[n..]
  {
    hide ToNat, Spells;
    if |bs| >= n {
      SpellsIff(bs[..n], v);
    }
  }

  /** The word of v: n zeros, then v + 1 in n + 1 bits, of which the first is set. */
  lemma UeWord(v: nat, n: nat)
    requires Pow2(n) <= v + 1 < Pow2(n + 1)
    ensures |UeBits(v)| == 2 * n + 1 && UeBits(v)[n]
    ensures forall k :: 0 <= k < n ==> !UeBits(v)[k]
    ensures forall k :: n <= k <= 2 * n ==> (UeBits(v)[k] <==> (v + 1) / Pow2(2 * n - k) % 2 == 1)
  {
    hide Pow2, FromNat, BitLength, Zeros;
    LengthIs(v + 1, n + 1);
    CodeBits(v + 1, n + 1);
    assert UeBits(v) == Zeros(n) + FromNat(v + 1, n + 1);
    forall k | n <= k <= 2 * n
      ensures UeBits(v)[k] <==> (v + 1) / Pow2(2 * n - k) % 2 == 1
    {
      FromNatAt(v + 1, n + 1, k - n);
    }
  }

  lemma LengthIs(v: nat, n: nat)
    requires n > 0 && Pow2(n - 1) <= v < Pow2(n)
    ensures BitLength(v) == n
  {
    var length := BitLength(v);
    if length < n {
      Pow2Monotone(length, n - 1);
    } else if length > n {
      Pow2Monotone(n, length - 1);
    }
  }

  /** Positive numbers have the odd code numbers, the others the even ones. */
  lemma SeWord(v: int)
    ensures v > 0 ==> SeBits(v) == UeBits(2 * v - 1)
    ensures v <= 0 ==> SeBits(v) == UeBits(-2 * v)
  {
    hide UeBits;
  }

  // ----- No other words

  /** A word: zeros, a one, and as many bits as there were zeros. */
  lemma {:induction false} WordRead(zeros: nat, bs: seq<bool>) returns (more: nat, suffix: seq<bool>)
    requires zeros <= MAX_UE_ZEROS && TakeUeAfter(zeros, bs).Some?
    ensures var (v, rest) := TakeUeAfter(zeros, bs).value;
      && zeros + more <= MAX_UE_ZEROS && |suffix| == zeros + more
      && bs == Zeros(more) + ([true] + (suffix + rest)) && v == Pow2(zeros + more) - 1 + ToNat(suffix)
    decreases |bs|
  {
    hide ToNat, Pow2;
    if bs[0] {
      more, suffix := 0, bs[1..][..zeros];
      WordAtOne(zeros, bs);
    } else {
      more, suffix := WordRead(zeros + 1, bs[1..]);
      more := more + 1;
      OneZeroMore(more, bs, [true] + (suffix + TakeUeAfter(zeros, bs).value.1));
    }
  }

  lemma WordAtOne(zeros: nat, bs: seq<bool>)
    requires bs != [] && bs[0] && TakeUeAfter(zeros, bs).Some?
    ensures |bs[1..]| >= zeros
    ensures TakeUeAfter(zeros, bs).value == (Pow2(zeros) - 1 + ToNat(bs[1..][..zeros]), bs[1..][zeros..])
    ensures bs == Zeros(0) + ([true] + (bs[1..][..zeros] + bs[1..][zeros..]))
  {
    hide ToNat, Pow2;
    assert bs == [true] + bs[1..];
  }

  lemma OneZeroMore(more: nat, bs: seq<bool>, tail: seq<bool>)
    requires more > 0 && bs != [] && !bs[0] && bs[1..] == Zeros(more - 1) + tail
    ensures bs == Zeros(more) + tail
  {
    assert bs == [false] + bs[1..];
    assert Zeros(more) == [false] + Zeros(more - 1);
  }

  lemma WordIs(zeros: nat, suffix: seq<bool>)
    requires |suffix| == zeros
    ensures UeBits(Pow2(zeros) - 1 + ToNat(suffix)) == Zeros(zeros) + ([true] + suffix)
  {
    hide ToNat, FromNat, Pow2, BitLength;
    var coded := [true] + suffix;
    ToNatHead(coded);
    assert coded[1..] == suffix;
    assert ToNat(coded) == Pow2(zeros) + ToNat(suffix);
    Pow2Step(zeros + 1);
    LengthIs(ToNat(coded), zeros + 1);
    BitsDetermine(coded);
  }

  /** ue(v) is read exactly where a word of 0..2^32 - 2 stands. */
  lemma UeExact(bs: seq<bool>, v: nat, rest: seq<bool>)
    ensures TakeUe(bs) == Some((v, rest)) <==> v <= 0xFFFF_FFFE && bs == UeBits(v) + rest
  {
    if TakeUe(bs) == Some((v, rest)) {
      UeBound(0, bs);
      WordFound(bs, v, rest);
    } else if v <= 0xFFFF_FFFE && bs == UeBits(v) + rest {
      UeRoundTrip(v, rest);
    }
  }

  lemma WordFound(bs: seq<bool>, v: nat, rest: seq<bool>)
    requires TakeUe(bs) == Some((v, rest))
    ensures bs == UeBits(v) + rest
  {
    hide ToNat, Pow2, UeBits, Zeros, TakeUeAfter;
    var more, suffix := WordRead(0, bs);
    WordIs(more, suffix);
    assert Zeros(more) + ([true] + (suffix + rest)) == Zeros(more) + ([true] + suffix) + rest;
  }

  /** se(v) is read exactly where a word of an int32 above the most negative stands. */
  lemma SeExact(bs: seq<bool>, v: int, rest: seq<bool>)
    ensures TakeSe(bs) == Some((v, rest)) <==> -0x8000_0000 < v < 0x8000_0000 && bs == SeBits(v) + rest
  {
    hide UeBits, TakeUe;
    if TakeSe(bs).Some? {
      var (code, after) := TakeUe(bs).value;
      UeExact(bs, code, after);
      CodeOfSe(code);
    }
    if -0x8000_0000 < v < 0x8000_0000 && bs == SeBits(v) + rest {
      SeRoundTrip(v, rest);
    }
  }

  lemma CodeOfSe(code: nat)
    requires code <= 0xFFFF_FFFE
    ensures UeOfSe(SeOfUe(code)) == code && -0x8000_0000 < SeOfUe(code) < 0x8000_0000
  {
    var half := (code + 1) / 2;
    assert code == 2 * half - 1 || code == 2 * half;
  }
}
