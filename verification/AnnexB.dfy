/**
 * Annex B byte streams (parse/h265/nal.cc): splitting into NAL units at start
 * codes, and joining units back into a stream.
 */
module AnnexB {
  import opened Wrappers
  import opened Sequences
  import opened Bits
  import opened Emulation

  /** A parsed unit: header fields, payload without and with emulation bytes. */
  datatype Nal = Nal(nalType: nat, layerId: nat, temporalIdPlus1: nat, rbsp: seq<Byte>, raw: seq<Byte>)

  /** At least a header, forbidden_zero_bit 0 and nuh_temporal_id_plus1 not 0. */
  predicate HasHeader(raw: seq<Byte>) {
    |raw| >= 2 && raw[0] < 0x80 && raw[1] % 8 != 0
  }

  function NalOf(raw: seq<Byte>): (n: Nal)
    requires HasHeader(raw)
    ensures n.raw == raw
  {
    Nal(raw[0] / 2 % 64, raw[0] % 2 * 32 + raw[1] / 8 % 32, raw[1] % 8, Strip(0, raw[2..]), raw)
  }

  function HeaderByte0(nalType: nat, layerId: nat): Byte
    requires nalType < 64 && layerId < 64
  {
    nalType * 2 + layerId / 32
  }

  function HeaderByte1(layerId: nat, temporalIdPlus1: nat): Byte
    requires layerId < 64 && 0 < temporalIdPlus1 < 8
  {
    layerId % 32 * 8 + temporalIdPlus1
  }

  /** Trailing zero bytes belong to the next start code. */
  function TrimZeros(s: seq<Byte>): (r: seq<Byte>)
    ensures r <= s && (r == [] || r[|r| - 1] != 0)
  {
    if s == [] || s[|s| - 1] != 0 then s else TrimZeros(s[..|s| - 1])
  }

  function Kept(raw: seq<Byte>): seq<Nal> {
    if HasHeader(raw) then [NalOf(raw)] else []
  }

  /** The units after a start code. */
  function Units(s: seq<Byte>): seq<Nal>
    decreases |s|
  {
    if s == [] then []
    else
      var next := FindStart(s);
      if next.Some? then Kept(TrimZeros(s[..next.value])) + Units(s[next.value + 3..])
      else Kept(TrimZeros(s))
  }

  /** ParseAnnexB as a function of the bytes. */
  function Parsed(data: seq<Byte>): seq<Nal> {
    var first := FindStart(data);
    if first.Some? then Units(data[first.value + 3..]) else []
  }

  // ----- The parser

  lemma {:induction false} FindStartFrom(data: seq<Byte>, from: nat, j: nat)
    requires from <= j <= |data|
    requires forall i :: from <= i < j && i + 3 <= |data| ==> !(data[i] == 0 && data[i + 1] == 0 && data[i + 2] == 1)
    ensures FindStart(data[from..]).None? <==> FindStart(data[j..]).None?
    ensures FindStart(data[from..]).Some? ==>
      from + FindStart(data[from..]).value == j + FindStart(data[j..]).value
    decreases j - from
  {
    if from < j {
      FindStartFrom(data, from + 1, j);
      assert data[from..][1..] == data[from + 1..];
    }
  }

  method FindStartCode(data: seq<Byte>, from: nat) returns (pos: Option<nat>)
    requires from <= |data|
    ensures pos.None? <==> FindStart(data[from..]).None?
    ensures pos.Some? ==> pos.value == from + FindStart(data[from..]).value && pos.value + 3 <= |data|
  {
    var j := from;
    while j + 3 <= |data|
      invariant from <= j <= |data|
      invariant forall i :: from <= i < j && i + 3 <= |data| ==>
        !(data[i] == 0 && data[i + 1] == 0 && data[i + 2] == 1)
    {
      if data[j] == 0 && data[j + 1] == 0 && data[j + 2] == 1 {
        FindStartFrom(data, from, j);
        return Some(j);
      }
      j := j + 1;
    }
    FindStartFrom(data, from, j);
    return None;
  }

  lemma StripStep(zeros: nat, p: seq<Byte>, i: nat, out: seq<Byte>)
    requires i < |p|
    ensures out + Strip(zeros, p[i..])
      == if IsEmulation(zeros, p[i..]) then out + Strip(0, p[i + 1..])
         else out + [p[i]] + Strip(NextZeros(zeros, p[i]), p[i + 1..])
  {
    assert p[i..][1..] == p[i + 1..];
    ConcatAssoc(out, [p[i]], Strip(NextZeros(zeros, p[i]), p[i + 1..]));
  }

  method StripEmulationPrevention(p: seq<Byte>) returns (out: seq<Byte>)
    ensures out == Strip(0, p)
  {
    hide Strip;
    out := [];
    var zeros: nat := 0;
    assert p[0..] == p;
    for i := 0 to |p|
      invariant out + Strip(zeros, p[i..]) == Strip(0, p)
    {
      StripStep(zeros, p, i, out);
      var b := p[i];
      if zeros >= 2 && b == 3 && (i + 1 >= |p| || p[i + 1] <= 3) {
        zeros := 0;
      } else {
        out := out + [b];
        zeros := if b == 0 then zeros + 1 else 0;
      }
    }
    StripEmpty(zeros, p[|p|..]);
  }

  lemma StripEmpty(zeros: nat, s: seq<Byte>)
    requires s == []
    ensures Strip(zeros, s) == []
  {
  }

  /** The trailing-zero loop over data[start..end]. */
  method TrimEnd(data: seq<Byte>, start: nat, end: nat) returns (trimmed: nat)
    requires start <= end <= |data|
    ensures start <= trimmed <= end && data[start..trimmed] == TrimZeros(data[start..end])
  {
    trimmed := end;
    while trimmed > start && data[trimmed - 1] == 0
      invariant start <= trimmed <= end
      invariant TrimZeros(data[start..trimmed]) == TrimZeros(data[start..end])
    {
      var s := data[start..trimmed];
      assert s[..|s| - 1] == data[start..trimmed - 1];
      trimmed := trimmed - 1;
    }
  }

  /** One unit, if its two header bytes are valid. */
  method MakeNal(raw: seq<Byte>) returns (nal: Option<Nal>)
    ensures nal == if HasHeader(raw) then Some(NalOf(raw)) else None
  {
    if |raw| < 2 {
      return None;
    }
    var byte0, byte1 := raw[0], raw[1];
    var temporalIdPlus1 := byte1 % 8;
    if byte0 >= 0x80 || temporalIdPlus1 == 0 {
      return None;
    }
    var rbsp := StripEmulationPrevention(raw[2..]);
    return Some(Nal(byte0 / 2 % 64, byte0 % 2 * 32 + byte1 / 8 % 32, temporalIdPlus1, rbsp, raw));
  }

  lemma UnitAt(data: seq<Byte>, from: nat, end: nat)
    requires from < |data| && from <= end <= |data|
    requires FindStart(data[from..]) == Some(end - from)
    ensures end + 3 <= |data|
    ensures Units(data[from..]) == Kept(TrimZeros(data[from..end])) + Units(data[end + 3..])
  {
    hide TrimZeros, Kept, FindStart;
    var rest := data[from..];
    assert rest[..end - from] == data[from..end];
    assert rest[end - from + 3..] == data[end + 3..];
  }

  lemma LastUnit(data: seq<Byte>, from: nat)
    requires from < |data| && FindStart(data[from..]) == None
    ensures Units(data[from..]) == Kept(TrimZeros(data[from..|data|]))
  {
    hide TrimZeros, Kept, FindStart;
    assert data[from..] == data[from..|data|];
  }

  method ParseAnnexB(data: seq<Byte>) returns (nals: seq<Nal>)
    ensures nals == Parsed(data)
  {
    hide Units, TrimZeros, FindStart, HasHeader, NalOf;
    nals := [];
    assert data[0..] == data;
    var startCode := FindStartCode(data, 0);
    if startCode == None {
      return;
    }
    var nalStart := startCode.value + 3;
    while nalStart < |data|
      invariant nalStart <= |data|
      invariant nals + Units(data[nalStart..]) == Parsed(data)
      decreases |data| - nalStart
    {
      var next := FindStartCode(data, nalStart);
      var nalEnd := if next.Some? then next.value else |data|;
      var trimmed := TrimEnd(data, nalStart, nalEnd);
      var nal := MakeNal(data[nalStart..trimmed]);
      ghost var kept := Kept(data[nalStart..trimmed]);
      if next == None {
        LastUnit(data, nalStart);
      } else {
        UnitAt(data, nalStart, nalEnd);
        ConcatAssoc(nals, kept, Units(data[nalEnd + 3..]));
      }
      if nal.Some? {
        nals := nals + [nal.value];
      } else {
        assert nals + kept == nals;
      }
      if next == None {
        return;
      }
      nalStart := next.value + 3;
    }
    NoUnits(data[nalStart..]);
  }

  lemma NoUnits(s: seq<Byte>)
    requires s == []
    ensures Units(s) == []
  {
  }
}
