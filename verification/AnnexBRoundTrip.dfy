/**
 * Annex B streams written and read back: what ParseAnnexB returns for any
 * sequence of units behind start codes, and that re-emitting what it returned
 * loses nothing (Annex B and section 7.4.2 of ITU-T H.265).
 */
module AnnexBRoundTrip {
  import opened Wrappers
  import opened Bits
  import opened Emulation
  import opened AnnexB

  function ZeroBytes(n: nat): (z: seq<Byte>)
    ensures |z| == n && forall i :: 0 <= i < n ==> z[i] == 0
  {
    seq(n, _ => 0)
  }

  /** A start code after `pad` zero bytes: pad 0 is the 3-byte form, pad 1 the 4-byte form. */
  function StartCode(pad: nat): seq<Byte> {
    ZeroBytes(pad) + [0, 0, 1]
  }

  /** Each unit behind its start code, then `trail` trailing zero bytes. */
  function Join(raws: seq<seq<Byte>>, pads: seq<nat>, trail: nat): seq<Byte>
    requires |pads| == |raws|
  {
    if raws == [] then ZeroBytes(trail)
    else StartCode(pads[0]) + (raws[0] + Join(raws[1..], pads[1..], trail))
  }

  /** What a unit must be to survive framing. */
  predicate Framed(raw: seq<Byte>) {
    HasHeader(raw) && raw[|raw| - 1] != 0 && FindStart(raw) == None
  }

  function NalsOf(raws: seq<seq<Byte>>): (nals: seq<Nal>)
    requires forall i :: 0 <= i < |raws| ==> HasHeader(raws[i])
    ensures |nals| == |raws|
    ensures forall i :: 0 <= i < |nals| ==> nals[i] == NalOf(raws[i])
  {
    seq(|raws|, i requires 0 <= i < |raws| => NalOf(raws[i]))
  }

  // ----- Start codes

  predicate StartsAt(s: seq<Byte>, i: nat) {
    i + 3 <= |s| && s[i] == 0 && s[i + 1] == 0 && s[i + 2] == 1
  }

  /** FindStart is the first start code. */
  lemma {:induction false} FindStartIsFirst(s: seq<Byte>)
    ensures FindStart(s).None? ==> forall i :: 0 <= i < |s| ==> !StartsAt(s, i)
    ensures FindStart(s).Some? ==> StartsAt(s, FindStart(s).value)
    ensures FindStart(s).Some? ==> forall i :: 0 <= i < FindStart(s).value ==> !StartsAt(s, i)
  {
    if |s| >= 3 && !StartsAt(s, 0) {
      var tail := s[1..];
      FindStartIsFirst(tail);
      assert FindStart(s) == if FindStart(tail).Some? then Some(FindStart(tail).value + 1) else None;
      forall i: nat | 0 < i < |s|
        ensures StartsAt(s, i) == StartsAt(tail, i - 1)
      {
      }
    }
  }

  lemma FirstStart(s: seq<Byte>, at: nat)
    requires StartsAt(s, at) && forall i :: 0 <= i < at ==> !StartsAt(s, i)
    ensures FindStart(s) == Some(at)
  {
    hide FindStart;
    FindStartIsFirst(s);
    assert FindStart(s).None? ==> !StartsAt(s, at);
  }

  lemma NoStart(s: seq<Byte>)
    requires forall i :: 0 <= i < |s| ==> !StartsAt(s, i)
    ensures FindStart(s) == None
  {
    hide FindStart;
    FindStartIsFirst(s);
  }

  /** After start-free bytes the start code found is the one that follows. */
  lemma StartAfter(a: seq<Byte>, pad: nat, rest: seq<Byte>)
    requires FindStart(a) == None
    ensures FindStart(a + (StartCode(pad) + rest)) == Some(|a| + pad)
  {
    hide FindStart;
    var s := a + (StartCode(pad) + rest);
    FindStartIsFirst(a);
    assert forall i :: 0 <= i < |a| ==> s[i] == a[i];
    assert forall i :: 0 <= i < pad + 3 ==> s[|a| + i] == StartCode(pad)[i];
    forall i | 0 <= i < |a| + pad
      ensures !StartsAt(s, i)
    {
      if i + 2 < |a| {
        assert StartsAt(s, i) == StartsAt(a, i);
      } else {
        assert s[i + 2] == StartCode(pad)[i + 2 - |a|];
      }
    }
    assert StartsAt(s, |a| + pad);
    FirstStart(s, |a| + pad);
  }

  lemma NoStartInZeros(a: seq<Byte>, n: nat)
    requires FindStart(a) == None
    ensures FindStart(a + ZeroBytes(n)) == None
  {
    hide FindStart;
    var s := a + ZeroBytes(n);
    FindStartIsFirst(a);
    forall i | 0 <= i < |s|
      ensures !StartsAt(s, i)
    {
      if i + 2 < |a| {
        assert StartsAt(s, i) == StartsAt(a, i);
      }
    }
    NoStart(s);
  }

  lemma {:induction false} TrimPadding(raw: seq<Byte>, n: nat)
    requires raw != [] && raw[|raw| - 1] != 0
    ensures TrimZeros(raw + ZeroBytes(n)) == raw
  {
    var s := raw + ZeroBytes(n);
    if n == 0 {
      assert s == raw;
    } else {
      assert s[..|s| - 1] == raw + ZeroBytes(n - 1);
      TrimPadding(raw, n - 1);
    }
  }

  // ----- Reading back a stream

  lemma LastUnitParsed(raw: seq<Byte>, trail: nat)
    requires Framed(raw)
    ensures Units(raw + ZeroBytes(trail)) == [NalOf(raw)]
  {
    hide FindStart, TrimZeros;
    NoStartInZeros(raw, trail);
    TrimPadding(raw, trail);
  }

  lemma SplitAtStart(raw: seq<Byte>, pad: nat, rest: seq<Byte>)
    ensures var s := raw + (StartCode(pad) + rest);
      s[..|raw| + pad] == raw + ZeroBytes(pad) && s[|raw| + pad + 3..] == rest
  {
  }

  lemma UnitsSplit(s: seq<Byte>, at: nat)
    requires s != [] && FindStart(s) == Some(at)
    ensures Units(s) == Kept(TrimZeros(s[..at])) + Units(s[at + 3..])
  {
    hide FindStart, TrimZeros, Kept;
  }

  lemma UnitParsed(raw: seq<Byte>, pad: nat, rest: seq<Byte>)
    requires Framed(raw)
    ensures Units(raw + (StartCode(pad) + rest)) == [NalOf(raw)] + Units(rest)
  {
    hide FindStart, TrimZeros, StartCode, Units, NalOf, ZeroBytes;
    StartAfter(raw, pad, rest);
    UnitsSplit(raw + (StartCode(pad) + rest), |raw| + pad);
    SplitAtStart(raw, pad, rest);
    TrimPadding(raw, pad);
  }

  lemma {:induction false} UnitsOfJoin(raws: seq<seq<Byte>>, pads: seq<nat>, trail: nat)
    requires raws != [] && |pads| == |raws|
    requires forall i :: 0 <= i < |raws| ==> Framed(raws[i])
    ensures forall i :: 0 <= i < |raws| ==> HasHeader(raws[i])
    ensures Units(raws[0] + Join(raws[1..], pads[1..], trail)) == NalsOf(raws)
  {
    hide Units, Framed;
    FramedHeaders(raws);
    var tail, tailPads := raws[1..], pads[1..];
    if tail == [] {
      LastUnitParsed(raws[0], trail);
      assert NalsOf(raws) == [NalOf(raws[0])];
    } else {
      var rest := tail[0] + Join(tail[1..], tailPads[1..], trail);
      UnitsOfJoin(tail, tailPads, trail);
      UnitParsed(raws[0], tailPads[0], rest);
      assert NalsOf(raws) == [NalOf(raws[0])] + NalsOf(tail);
    }
  }

  lemma FramedHeaders(raws: seq<seq<Byte>>)
    requires forall i :: 0 <= i < |raws| ==> Framed(raws[i])
    ensures forall i :: 0 <= i < |raws| ==> HasHeader(raws[i])
  {
  }

  lemma ParsedAfterLead(lead: seq<Byte>, pad: nat, rest: seq<Byte>)
    requires FindStart(lead) == None
    ensures Parsed(lead + (StartCode(pad) + rest)) == Units(rest)
  {
    hide Units, FindStart, StartCode, ZeroBytes;
    StartAfter(lead, pad, rest);
    StartCodeLength(pad);
    Behind(lead, StartCode(pad), rest);
  }

  lemma StartCodeLength(pad: nat)
    ensures |StartCode(pad)| == pad + 3
  {
  }

  lemma Behind(lead: seq<Byte>, code: seq<Byte>, rest: seq<Byte>)
    ensures (lead + (code + rest))[|lead| + |code|..] == rest
  {
  }

  /**
   * Annex B read-back: whatever zero padding the start codes have, whatever
   * start-free bytes come first and however many zeros trail, the units come
   * out exactly, in order.
   */
  lemma ParsedJoin(lead: seq<Byte>, raws: seq<seq<Byte>>, pads: seq<nat>, trail: nat)
    requires |pads| == |raws| && FindStart(lead) == None
    requires forall i :: 0 <= i < |raws| ==> Framed(raws[i])
    ensures forall i :: 0 <= i < |raws| ==> HasHeader(raws[i])
    ensures Parsed(lead + Join(raws, pads, trail)) == NalsOf(raws)
  {
    hide Units, FindStart, Framed, StartCode;
    FramedHeaders(raws);
    if raws == [] {
      NoStartInZeros(lead, trail);
    } else {
      hide Parsed;
      ParsedAfterLead(lead, pads[0], raws[0] + Join(raws[1..], pads[1..], trail));
      UnitsOfJoin(raws, pads, trail);
    }
  }

  // ----- What the parser returns can be framed again

  /** Every unit returned is the reading of its own raw bytes, which can be framed. */
  predicate Faithful(nals: seq<Nal>) {
    forall i :: 0 <= i < |nals| ==> Framed(nals[i].raw) && nals[i] == NalOf(nals[i].raw)
  }

  lemma PrefixHasNoStart(s: seq<Byte>, p: seq<Byte>)
    requires p <= s
    requires FindStart(s).None? || |p| <= FindStart(s).value
    ensures FindStart(p) == None
  {
    hide FindStart;
    FindStartIsFirst(s);
    forall i | 0 <= i < |p|
      ensures !StartsAt(p, i)
    {
      assert StartsAt(p, i) ==> StartsAt(s, i);
    }
    NoStart(p);
  }

  lemma KeptFaithful(s: seq<Byte>, upTo: nat)
    requires upTo <= |s| && (FindStart(s).None? || upTo <= FindStart(s).value)
    ensures Faithful(Kept(TrimZeros(s[..upTo])))
  {
    hide FindStart, Faithful, Kept;
    PrefixHasNoStart(s, TrimZeros(s[..upTo]));
    TrimmedFaithful(TrimZeros(s[..upTo]));
  }

  lemma TrimmedFaithful(raw: seq<Byte>)
    requires FindStart(raw).None? && (raw != [] ==> raw[|raw| - 1] != 0)
    ensures Faithful(Kept(raw))
  {
    hide FindStart, NalOf;
  }

  lemma {:induction false} UnitsFaithful(s: seq<Byte>)
    ensures Faithful(Units(s))
    decreases |s|
  {
    hide FindStart, TrimZeros, Kept;
    if s != [] {
      var next := FindStart(s);
      if next.Some? {
        UnitsFaithful(s[next.value + 3..]);
        KeptFaithful(s, next.value);
      } else {
        KeptFaithful(s, |s|);
        assert s[..|s|] == s;
      }
    }
  }

  lemma ParsedFaithful(data: seq<Byte>)
    ensures Faithful(Parsed(data))
  {
    hide FindStart, Units, Faithful;
    var first := FindStart(data);
    if first.Some? {
      UnitsFaithful(data[first.value + 3..]);
    } else {
      NothingFaithful();
    }
  }

  lemma NothingFaithful()
    ensures Faithful([])
  {
  }

  function Raws(nals: seq<Nal>): (raws: seq<seq<Byte>>)
    ensures |raws| == |nals| && forall i :: 0 <= i < |raws| ==> raws[i] == nals[i].raw
  {
    seq(|nals|, i requires 0 <= i < |nals| => nals[i].raw)
  }

  /** Faithful units put back behind start codes are read back unchanged. */
  lemma Reparsed(nals: seq<Nal>, pads: seq<nat>, trail: nat)
    requires Faithful(nals) && |pads| == |nals|
    ensures Parsed(Join(Raws(nals), pads, trail)) == nals
  {
    hide Parsed, FindStart, Framed, NalOf;
    var raws := Raws(nals);
    EmptyHasNoStart();
    ParsedJoin([], raws, pads, trail);
    assert [] + Join(raws, pads, trail) == Join(raws, pads, trail);
    assert NalsOf(raws) == nals;
  }

  lemma EmptyHasNoStart()
    ensures FindStart([]) == None
  {
  }

  /** Parsing any bytes, re-emitting the units and parsing again changes nothing. */
  lemma ReemitIsIdentity(data: seq<Byte>, pads: seq<nat>, trail: nat)
    requires |pads| == |Parsed(data)|
    ensures Parsed(Join(Raws(Parsed(data)), pads, trail)) == Parsed(data)
  {
    ParsedFaithful(data);
    Reparsed(Parsed(data), pads, trail);
  }

  // ----- Writing units

  /** A unit as an encoder holds it. */
  datatype Unit = Unit(nalType: nat, layerId: nat, temporalIdPlus1: nat, rbsp: seq<Byte>) {
    /** Header fields in range, and an RBSP that is empty or ends in a nonzero byte. */
    predicate Valid() {
      nalType < 64 && layerId < 64 && 0 < temporalIdPlus1 < 8 && (rbsp == [] || rbsp[|rbsp| - 1] != 0)
    }

    function Encode(): seq<Byte>
      requires Valid()
    {
      [HeaderByte0(nalType, layerId), HeaderByte1(layerId, temporalIdPlus1)] + Insert(0, rbsp)
    }
  }

  lemma HeaderBytes(nalType: nat, layerId: nat, tid: nat)
    requires nalType < 64 && layerId < 64 && 0 < tid < 8
    ensures var b0, b1 := HeaderByte0(nalType, layerId), HeaderByte1(layerId, tid);
      && b0 < 0x80 && b1 % 8 == tid && b1 != 0
      && b0 / 2 % 64 == nalType
      && b0 % 2 * 32 + b1 / 8 % 32 == layerId
  {
  }

  lemma HeaderFields(u: Unit)
    requires u.Valid()
    ensures var raw := u.Encode();
      HasHeader(raw) && NalOf(raw) == Nal(u.nalType, u.layerId, u.temporalIdPlus1, u.rbsp, raw)
  {
    hide Strip, Insert, HeaderByte0, HeaderByte1;
    StripInsert(0, u.rbsp);
    HeaderBytes(u.nalType, u.layerId, u.temporalIdPlus1);
    assert u.Encode()[2..] == Insert(0, u.rbsp);
  }

  lemma EncodeFramed(u: Unit)
    requires u.Valid()
    ensures Framed(u.Encode())
  {
    hide FindStart, Insert, NalOf;
    HeaderFields(u);
    var raw := u.Encode();
    InsertGuards(0, u.rbsp);
    HeaderGuards(raw[0], raw[1], Insert(0, u.rbsp));
    GuardedHasNoStart(0, raw);
    if u.rbsp == [] {
      InsertNothing();
    } else {
      InsertLast(0, u.rbsp);
    }
  }

  lemma InsertNothing()
    ensures Insert(0, []) == []
  {
  }

  /** The second header byte is never zero, so no zero run crosses into the payload. */
  lemma HeaderGuards(b0: Byte, b1: Byte, payload: seq<Byte>)
    requires b1 != 0 && ZerosGuarded(0, payload)
    ensures ZerosGuarded(0, [b0, b1] + payload)
  {
    var s := [b0, b1] + payload;
    assert s[1..][1..] == payload;
    assert ZerosGuarded(NextZeros(0, b0), s[1..]);
  }

  function Encoded(units: seq<Unit>): (raws: seq<seq<Byte>>)
    requires forall i :: 0 <= i < |units| ==> units[i].Valid()
    ensures |raws| == |units| && forall i :: 0 <= i < |raws| ==> raws[i] == units[i].Encode()
  {
    seq(|units|, i requires 0 <= i < |units| => units[i].Encode())
  }

  /**
   * The round trip: for all valid units, inserting emulation prevention and
   * joining with start codes of any padding, parsing gives back every header
   * field, every RBSP and every raw unit.
   */
  lemma AnnexBRoundTrip(units: seq<Unit>, pads: seq<nat>, trail: nat)
    requires |pads| == |units| && forall i :: 0 <= i < |units| ==> units[i].Valid()
    ensures var nals := Parsed(Join(Encoded(units), pads, trail));
      && |nals| == |units|
      && forall i :: 0 <= i < |nals| ==>
           nals[i] == Nal(units[i].nalType, units[i].layerId, units[i].temporalIdPlus1, units[i].rbsp,
                          units[i].Encode())
  {
    hide Parsed, FindStart, Framed, NalOf, HasHeader;
    var raws := Encoded(units);
    forall i | 0 <= i < |units|
      ensures Framed(raws[i])
      ensures HasHeader(raws[i])
      ensures NalOf(raws[i])
        == Nal(units[i].nalType, units[i].layerId, units[i].temporalIdPlus1, units[i].rbsp, raws[i])
    {
      EncodeFramed(units[i]);
      HeaderFields(units[i]);
    }
    EmptyHasNoStart();
    ParsedJoin([], raws, pads, trail);
    assert [] + Join(raws, pads, trail) == Join(raws, pads, trail);
  }
}
