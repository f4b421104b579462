/** The bounds-checked big-endian reader of parse/bit_reader.h. */
module BitReaders {
  import opened Wrappers
  import opened Bits

  class BitReader {
    const data: seq<Byte>
    var pos: nat

    ghost predicate Valid()
      reads this
    {
      pos <= 8 * |data|
    }

    /** The bits not read yet. */
    ghost function Rest(): seq<bool>
      reads this
      requires Valid()
    {
      BitsOf(data)[pos..]
    }

    constructor (data: seq<Byte>)
      ensures Valid() && this.data == data && pos == 0
      ensures Rest() == BitsOf(data)
    {
      this.data := data;
      pos := 0;
    }

    /** u(n): fails when n is over 32 (nothing read) or the buffer runs out. */
    method ReadBits(n: nat) returns (r: Option<nat>)
      requires Valid()
      modifies this
      ensures Valid()
      ensures n > 32 ==> r == None && pos == old(pos)
      ensures n <= 32 && TakeU(n, old(Rest())).None? ==> r == None && pos == 8 * |data|
      ensures n <= 32 && TakeU(n, old(Rest())).Some? ==>
        r.Some? && pos == old(pos) + n && TakeU(n, old(Rest())) == Some((r.value, Rest()))
      ensures r.Some? ==> r.value <= 0xFFFF_FFFF
    {
      hide BitsOf, ToNat, Pow2;
      if n > 32 {
        return None;
      }
      NoBits();
      var value: nat := 0;
      ghost var all := BitsOf(data);
      for i := 0 to n
        invariant Valid() && pos == old(pos) + i
        invariant value == ToNat(all[old(pos)..old(pos) + i])
      {
        if pos >= 8 * |data| {
          return None;
        }
        OneMoreBit(all, old(pos), i);
        var bit := BitAt(data, pos);
        value := 2 * value + bit;
        pos := pos + 1;
      }
      PartsOfRest(all, old(pos), n);
      Pow2Of32();
      Pow2Monotone(n, 32);
      return Some(value);
    }

    method ReadFlag() returns (r: Option<bool>)
      requires Valid()
      modifies this
      ensures Valid()
      ensures old(Rest()) == [] ==> r == None && pos == old(pos)
      ensures old(Rest()) != [] ==>
        r.Some? && pos == old(pos) + 1 && TakeFlag(old(Rest())) == Some((r.value, Rest()))
    {
      ghost var before := Rest();
      var bit :- ReadBits(1);
      assert before[..1][..0] == [];
      assert ToNat(before[..1]) == BitVal(before[0]);
      return Some(bit != 0);
    }

    /** ue(v), whose leading-zero run is capped at 31. */
    method ReadUe() returns (r: Option<nat>)
      requires Valid()
      modifies this
      ensures Valid() && pos >= old(pos)
      ensures r.None? <==> TakeUe(old(Rest())).None?
      ensures r.Some? ==> pos > old(pos) && TakeUe(old(Rest())) == Some((r.value, Rest()))
      ensures r.Some? ==> r.value <= MAX_UE
    {
      ghost var start := Rest();
      UeBound(0, start);
      var zeros: nat := 0;
      while true
        invariant Valid() && pos >= old(pos)
        invariant zeros <= MAX_UE_ZEROS
        invariant TakeUeAfter(zeros, Rest()) == TakeUe(start)
        decreases MAX_UE_ZEROS - zeros
      {
        var bit :- ReadFlag();
        if bit {
          break;
        }
        zeros := zeros + 1;
        if zeros > MAX_UE_ZEROS {
          return None;
        }
      }
      ghost var afterOne := Rest();
      assert TakeUe(start).None? <==> TakeU(zeros, afterOne).None?;
      var suffix := 0;
      if zeros > 0 {
        suffix :- ReadBits(zeros);
      } else {
        assert afterOne[..0] == [] && afterOne[0..] == afterOne;
      }
      return Some(Pow2(zeros) - 1 + suffix);
    }

    /** se(v): 0, 1, -1, 2, -2, ... */
    method ReadSe() returns (r: Option<int>)
      requires Valid()
      modifies this
      ensures Valid() && pos >= old(pos)
      ensures r.None? <==> TakeSe(old(Rest())).None?
      ensures r.Some? ==> pos > old(pos) && TakeSe(old(Rest())) == Some((r.value, Rest()))
      ensures r.Some? ==> -0x8000_0000 < r.value < 0x8000_0000
    {
      var code :- ReadUe();
      var magnitude: int := (code + 1) / 2;
      return Some(if code % 2 == 1 then magnitude else -magnitude);
    }

    method SkipBits(n: nat) returns (ok: bool)
      requires Valid()
      modifies this
      ensures Valid()
      ensures ok <==> old(pos) + n <= 8 * |data|
      ensures pos == if ok then old(pos) + n else 8 * |data|
    {
      for i := 0 to n
        invariant Valid() && pos == old(pos) + i
      {
        var bit := ReadBits(1);
        if bit == None {
          return false;
        }
      }
      return true;
    }

    /**
     * True when a set bit lies after the read position. The last set bit of
     * the buffer is the RBSP stop bit, so that is when payload remains.
     */
    method MoreRbspData() returns (more: bool)
      requires Valid()
      ensures more <==> exists q :: pos < q < 8 * |data| && BitsOf(data)[q]
    {
      hide BitsOf, FromNat;
      var last: nat := |data|;
      while last > 0 && data[last - 1] == 0
        invariant last <= |data|
        invariant forall k :: last <= k < |data| ==> data[k] == 0
      {
        last := last - 1;
      }
      ZeroBytesHaveNoBits(data, last);
      if last == 0 {
        return false;
      }
      var lsb := LowestSetBit(data[last - 1]);
      var stopBitPos := (last - 1) * 8 + (7 - lsb);
      StopBitIsLast(data, last, data[last - 1], lsb);
      return pos < stopBitPos;
    }
  }

  lemma NoBits()
    ensures ToNat([]) == 0
  {
  }

  lemma PartsOfRest(all: seq<bool>, from: nat, n: nat)
    requires from + n <= |all|
    ensures all[from..][..n] == all[from..from + n] && all[from..][n..] == all[from + n..]
  {
  }

  /** The shift and mask by which the reader picks out one bit. */
  lemma OneMoreBit(all: seq<bool>, from: nat, i: nat)
    requires from + i < |all|
    ensures ToNat(all[from..from + i + 1]) == 2 * ToNat(all[from..from + i]) + (if all[from + i] then 1 else 0)
  {
    var read := all[from..from + i + 1];
    assert read[..|read| - 1] == all[from..from + i];
  }

  method BitAt(data: seq<Byte>, p: nat) returns (bit: nat)
    requires p < 8 * |data|
    ensures bit == BitVal(BitsOf(data)[p])
  {
    BitsOfAt(data, p);
    FromNatAt(data[p / 8], 8, p % 8);
    bit := data[p / 8] / Pow2(7 - p % 8) % 2;
  }

  lemma ZeroBytesHaveNoBits(data: seq<Byte>, last: nat)
    requires last <= |data| && forall k :: last <= k < |data| ==> data[k] == 0
    ensures forall q :: 8 * last <= q < 8 * |data| ==> !BitsOf(data)[q]
  {
    hide BitsOf, FromNat;
    forall q | 8 * last <= q < 8 * |data|
      ensures !BitsOf(data)[q]
    {
      BitsOfAt(data, q);
      ZeroHasNoBits(8, q % 8);
    }
  }

  /** The lowest set bit of the last nonzero byte is the last bit set. */
  lemma StopBitIsLast(data: seq<Byte>, last: nat, byte: Byte, lsb: nat)
    requires 0 < last <= |data| && lsb < 8 && byte == data[last - 1] && FromNat(byte, 8)[7 - lsb]
    requires forall k :: 7 - lsb < k < 8 ==> !FromNat(byte, 8)[k]
    ensures var stop := (last - 1) * 8 + (7 - lsb);
      BitsOf(data)[stop] && forall q :: stop < q < 8 * last ==> !BitsOf(data)[q]
  {
    hide BitsOf, FromNat;
    var stop := (last - 1) * 8 + (7 - lsb);
    BitsOfAt(data, stop);
    forall q | stop < q < 8 * last
      ensures !BitsOf(data)[q]
    {
      BitsOfAt(data, q);
      assert q / 8 == last - 1;
    }
  }

  /** Shifts from the bottom to the lowest set bit of a nonzero byte. */
  method LowestSetBit(byte: Byte) returns (lsb: nat)
    requires byte != 0
    ensures lsb < 8 && FromNat(byte, 8)[7 - lsb]
    ensures forall k :: 7 - lsb < k < 8 ==> !FromNat(byte, 8)[k]
  {
    lsb := 0;
    while byte / Pow2(lsb) % 2 == 0
      invariant lsb <= 7
      invariant forall k :: 7 - lsb < k < 8 ==> !FromNat(byte, 8)[k]
      decreases 8 - lsb
    {
      FromNatAt(byte, 8, 7 - lsb);
      if lsb == 7 {
        ZeroIfNoBits(byte, 8);
      }
      lsb := lsb + 1;
    }
    FromNatAt(byte, 8, 7 - lsb);
  }

  lemma {:induction false} ZeroIfNoBits(v: nat, n: nat)
    requires v < Pow2(n)
    requires forall k :: 0 <= k < n ==> !FromNat(v, n)[k]
    ensures v == 0
  {
    if n > 0 {
      assert !FromNat(v, n)[n - 1];
      var init := FromNat(v / 2, n - 1);
      assert forall k :: 0 <= k < n - 1 ==> FromNat(v, n)[k] == init[k];
      ZeroIfNoBits(v / 2, n - 1);
    }
  }

  lemma {:induction false} ZeroHasNoBits(n: nat, k: nat)
    requires k < n
    ensures !FromNat(0, n)[k]
  {
    if k < n - 1 {
      ZeroHasNoBits(n - 1, k);
    }
  }
}
