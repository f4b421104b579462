/**
 * Emulation prevention, section 7.4.2 of ITU-T H.265, and the map from an RBSP
 * position back to the raw NAL unit (parse/h265/nal.cc).
 */
module Emulation {
  import opened Wrappers
  import opened Bits

  /** An emulation-prevention byte: 0x03 after two zeros, before a byte up to 0x03 or the end. */
  predicate IsEmulation(zeros: nat, s: seq<Byte>)
    requires s != []
  {
    zeros >= 2 && s[0] == 3 && (|s| == 1 || s[1] <= 3)
  }

  function NextZeros(zeros: nat, b: Byte): nat {
    if b == 0 then zeros + 1 else 0
  }

  /** `s` without its emulation-prevention bytes, `zeros` zero bytes before it. */
  function Strip(zeros: nat, s: seq<Byte>): (r: seq<Byte>)
    ensures |r| <= |s|
    decreases s
  {
    if s == [] then []
    else if IsEmulation(zeros, s) then Strip(0, s[1..])
    else [s[0]] + Strip(NextZeros(zeros, s[0]), s[1..])
  }

  /** The encoder's insertion: 0x03 before any byte up to 0x03 that follows two zeros. */
  function Insert(zeros: nat, x: seq<Byte>): seq<Byte>
    decreases x
  {
    if x == [] then []
    else if zeros >= 2 && x[0] <= 3 then [3, x[0]] + Insert(NextZeros(0, x[0]), x[1..])
    else [x[0]] + Insert(NextZeros(zeros, x[0]), x[1..])
  }

  /** Stripping undoes insertion, on every byte string. */
  lemma {:induction false} StripInsert(zeros: nat, x: seq<Byte>)
    ensures Strip(zeros, Insert(zeros, x)) == x
    decreases x
  {
    if x != [] {
      var tail := x[1..];
      if zeros >= 2 && x[0] <= 3 {
        var z := NextZeros(0, x[0]);
        StripInsert(z, tail);
        var s := [3, x[0]] + Insert(z, tail);
        assert s[1..] == [x[0]] + Insert(z, tail);
        assert s[1..][1..] == Insert(z, tail);
      } else {
        var z := NextZeros(zeros, x[0]);
        StripInsert(z, tail);
        var s := [x[0]] + Insert(z, tail);
        assert s[1..] == Insert(z, tail);
      }
      assert [x[0]] + tail == x;
    }
  }

  // ----- Start codes

  /** The offset of the first 0x000001. */
  function FindStart(s: seq<Byte>): (r: Option<nat>)
    ensures r.Some? ==> r.value + 3 <= |s|
  {
    if |s| < 3 then None
    else if s[0] == 0 && s[1] == 0 && s[2] == 1 then Some(0)
    else
      var k :- FindStart(s[1..]);
      Some(k + 1)
  }

  /** After `zeros` zero bytes, no two zeros are followed by a byte below 3. */
  predicate ZerosGuarded(zeros: nat, s: seq<Byte>)
    decreases s
  {
    s != [] ==> (zeros >= 2 ==> s[0] >= 3) && ZerosGuarded(NextZeros(zeros, s[0]), s[1..])
  }

  lemma {:induction false} InsertGuards(zeros: nat, x: seq<Byte>)
    ensures ZerosGuarded(zeros, Insert(zeros, x))
    decreases x
  {
    if x != [] {
      var tail := x[1..];
      if zeros >= 2 && x[0] <= 3 {
        var z := NextZeros(0, x[0]);
        InsertGuards(z, tail);
        var s := [3, x[0]] + Insert(z, tail);
        assert s[1..] == [x[0]] + Insert(z, tail);
        assert s[1..][1..] == Insert(z, tail);
      } else {
        InsertGuards(NextZeros(zeros, x[0]), tail);
        assert ([x[0]] + Insert(NextZeros(zeros, x[0]), tail))[1..] == Insert(NextZeros(zeros, x[0]), tail);
      }
    }
  }

  lemma {:induction false} GuardedHasNoStart(zeros: nat, s: seq<Byte>)
    requires ZerosGuarded(zeros, s)
    ensures FindStart(s) == None
    decreases s
  {
    if |s| >= 3 {
      GuardedHasNoStart(NextZeros(zeros, s[0]), s[1..]);
      if s[0] == 0 && s[1] == 0 {
        assert ZerosGuarded(NextZeros(NextZeros(zeros, s[0]), s[1]), s[1..][1..]);
        assert s[1..][1..][0] == s[2];
      }
    }
  }

  lemma {:induction false} InsertLast(zeros: nat, x: seq<Byte>)
    requires x != []
    ensures Insert(zeros, x) != [] && Insert(zeros, x)[|Insert(zeros, x)| - 1] == x[|x| - 1]
    decreases x
  {
    if |x| > 1 {
      if zeros >= 2 && x[0] <= 3 {
        InsertLast(NextZeros(0, x[0]), x[1..]);
      } else {
        InsertLast(NextZeros(zeros, x[0]), x[1..]);
      }
    }
  }

  // ----- From RBSP to raw

  /** Raw bytes consumed when `n` RBSP bytes have been kept. */
  function Consumed(zeros: nat, s: seq<Byte>, n: nat): (c: nat)
    ensures c <= |s|
    decreases s
  {
    if n == 0 || s == [] then 0
    else if IsEmulation(zeros, s) then 1 + Consumed(0, s[1..], n)
    else 1 + Consumed(NextZeros(zeros, s[0]), s[1..], n - 1)
  }

  /** The zero run at that point. */
  function ZerosAt(zeros: nat, s: seq<Byte>, n: nat): nat
    decreases s
  {
    if n == 0 || s == [] then zeros
    else if IsEmulation(zeros, s) then ZerosAt(0, s[1..], n)
    else ZerosAt(NextZeros(zeros, s[0]), s[1..], n - 1)
  }

  /** Emulation bytes dropped on the way. */
  function Dropped(zeros: nat, s: seq<Byte>, n: nat): nat
    decreases s
  {
    if n == 0 || s == [] then 0
    else if IsEmulation(zeros, s) then 1 + Dropped(0, s[1..], n)
    else Dropped(NextZeros(zeros, s[0]), s[1..], n - 1)
  }

  /** What is left of the raw bytes strips to what is left of the RBSP. */
  lemma {:induction false} RestStrips(zeros: nat, s: seq<Byte>, n: nat)
    requires n <= |Strip(zeros, s)|
    ensures var c := Consumed(zeros, s, n);
      && c == n + Dropped(zeros, s, n)
      && Strip(ZerosAt(zeros, s, n), s[c..]) == Strip(zeros, s)[n..]
      && (n > 0 && Strip(zeros, s)[n - 1] != 0 ==> ZerosAt(zeros, s, n) == 0)
    decreases s
  {
    if n == 0 {
      assert s[0..] == s;
    } else if IsEmulation(zeros, s) {
      RestStrips(0, s[1..], n);
      assert s[1..][Consumed(0, s[1..], n)..] == s[1 + Consumed(0, s[1..], n)..];
    } else {
      var z := NextZeros(zeros, s[0]);
      RestStrips(z, s[1..], n - 1);
      assert s[1..][Consumed(z, s[1..], n - 1)..] == s[1 + Consumed(z, s[1..], n - 1)..];
      assert Strip(zeros, s)[n..] == Strip(z, s[1..])[n - 1..];
      if n == 1 {
        assert ZerosAt(z, s[1..], 0) == z;
      }
    }
  }

  /**
   * The exact address: when the RBSP byte before position n is nonzero, the
   * consumed raw bytes end right where RBSP byte n is stored.
   */
  lemma AddressExact(s: seq<Byte>, n: nat)
    requires 0 < n <= |Strip(0, s)| && Strip(0, s)[n - 1] != 0
    ensures var c := Consumed(0, s, n);
      && c == n + Dropped(0, s, n)
      && Strip(0, s[c..]) == Strip(0, s)[n..]
      && (c < |s| <==> n < |Strip(0, s)|)
      && (c < |s| ==> s[c] == Strip(0, s)[n])
  {
    RestStrips(0, s, n);
    var c := Consumed(0, s, n);
    if c < |s| {
      assert Strip(0, s[c..])[0] == s[c];
    }
  }

  /** Where the raw bytes hold RBSP byte `n`. */
  function HolderOf(s: seq<Byte>, n: nat): (at: int)
    requires n < |Strip(0, s)|
  {
    Consumed(0, s, n + 1) - 1
  }

  lemma ConsumedFirst(zeros: nat, s: seq<Byte>)
    requires Strip(zeros, s) != []
    ensures s != [] && Consumed(zeros, s, 0) == 0 && ZerosAt(zeros, s, 0) == zeros
    ensures Consumed(zeros, s, 1) == if IsEmulation(zeros, s) then 2 else 1
    ensures Consumed(zeros, s, 1) <= |s| && s[Consumed(zeros, s, 1) - 1] == Strip(zeros, s)[0]
  {
    var tail := s[1..];
    if IsEmulation(zeros, s) {
      assert !IsEmulation(0, tail);
      assert Consumed(0, tail, 1) == 1 + Consumed(NextZeros(0, tail[0]), tail[1..], 0);
    } else {
      assert Consumed(zeros, s, 1) == 1 + Consumed(NextZeros(zeros, s[0]), tail, 0);
    }
  }

  /** The zero run that the rest of the bytes is read with. */
  function Onward(zeros: nat, s: seq<Byte>): nat
    requires s != []
  {
    if IsEmulation(zeros, s) then 0 else NextZeros(zeros, s[0])
  }

  lemma ConsumedLater(zeros: nat, s: seq<Byte>, n: nat)
    requires 0 < n < |Strip(zeros, s)|
    ensures s != []
    ensures var z, tail, m := Onward(zeros, s), s[1..], if IsEmulation(zeros, s) then n else n - 1;
      && m < |Strip(z, tail)| && Strip(zeros, s)[n] == Strip(z, tail)[m]
      && Consumed(zeros, s, n) == 1 + Consumed(z, tail, m)
      && Consumed(zeros, s, n + 1) == 1 + Consumed(z, tail, m + 1)
      && ZerosAt(zeros, s, n) == ZerosAt(z, tail, m)
  {
  }

  lemma {:induction false} ConsumedOneMore(zeros: nat, s: seq<Byte>, n: nat)
    requires n < |Strip(zeros, s)|
    ensures var c, z := Consumed(zeros, s, n), ZerosAt(zeros, s, n);
      && c < |s|
      && Consumed(zeros, s, n + 1) == c + (if IsEmulation(z, s[c..]) then 2 else 1)
      && Consumed(zeros, s, n + 1) <= |s|
      && s[Consumed(zeros, s, n + 1) - 1] == Strip(zeros, s)[n]
    decreases s
  {
    hide Strip, Consumed, ZerosAt, Onward, NextZeros;
    if n == 0 {
      ConsumedFirst(zeros, s);
      assert s[0..] == s;
    } else {
      ConsumedLater(zeros, s, n);
      var z, tail, m := Onward(zeros, s), s[1..], if IsEmulation(zeros, s) then n else n - 1;
      ConsumedOneMore(z, tail, m);
      assert tail[Consumed(z, tail, m)..] == s[1 + Consumed(z, tail, m)..];
    }
  }

  /**
   * When the consumed count is the address of RBSP byte `n`: exactly unless
   * an emulation byte sits right at the count, which the loop has not reached.
   */
  lemma AddressExactIff(s: seq<Byte>, n: nat)
    requires n < |Strip(0, s)|
    ensures 0 <= HolderOf(s, n) < |s| && s[HolderOf(s, n)] == Strip(0, s)[n]
    ensures Consumed(0, s, n) < |s|
    ensures Consumed(0, s, n) == HolderOf(s, n) <==> !IsEmulation(ZerosAt(0, s, n), s[Consumed(0, s, n)..])
  {
    ConsumedOneMore(0, s, n);
  }

  /** The address of the byte after `00 00 03` is taken for that of the 0x03. */
  lemma AddressExample(s: seq<Byte>)
    requires s == [0, 0, 3, 1]
    ensures Strip(0, s) == [0, 0, 1] && HolderOf(s, 2) == 3 && Consumed(0, s, 2) == 2
  {
    assert s[1..] == [0, 3, 1] && s[1..][1..] == [3, 1] && s[1..][1..][1..] == [1];
    assert [1][1..] == [];
    assert Strip(0, [1]) == [1] && Strip(2, [3, 1]) == [1] && Strip(1, [0, 3, 1]) == [0, 1];
    assert Consumed(2, [3, 1], 0) == 0 && Consumed(1, [0, 3, 1], 1) == 1;
    assert Consumed(0, [1], 1) == 1 && Consumed(2, [3, 1], 1) == 2 && Consumed(1, [0, 3, 1], 2) == 3;
  }
}
