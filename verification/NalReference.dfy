/**
 * Annex B streams byte by byte: which bytes emulation prevention drops, which
 * framed units are kept and what their headers say, and where access units end.
 */
module NalReference {
  import opened Wrappers
  import opened Bits
  import opened Emulation
  import opened AnnexB
  import opened AnnexBRoundTrip
  import opened AccessUnits

  // ----- Emulation prevention

  /** Byte i goes: 0x03 right after two zero bytes, and last or before a byte up to 0x03. */
  predicate Goes(s: seq<Byte>, i: nat)
    requires i < |s|
  {
    i >= 2 && s[i - 2] == 0 && s[i - 1] == 0 && s[i] == 3 && (i + 1 == |s| || s[i + 1] <= 3)
  }

  /** The bytes from i on that stay. */
  function Staying(s: seq<Byte>, i: nat): seq<Byte>
    requires i <= |s|
    decreases |s| - i
  {
    if i == |s| then [] else (if Goes(s, i) then [] else [s[i]]) + Staying(s, i + 1)
  }

  lemma {:induction false} StripIsStaying(s: seq<Byte>, i: nat, zeros: nat)
    requires i <= |s|
    requires zeros >= 1 <==> i >= 1 && s[i - 1] == 0
    requires zeros >= 2 <==> i >= 2 && s[i - 2] == 0 && s[i - 1] == 0
    ensures Strip(zeros, s[i..]) == Staying(s, i)
    decreases |s| - i
  {
    if i < |s| {
      var tail := s[i..];
      assert tail[1..] == s[i + 1..];
      StripIsStaying(s, i + 1, if IsEmulation(zeros, tail) then 0 else NextZeros(zeros, tail[0]));
    }
  }

  /** Stripping removes exactly those bytes, whatever stands before and after them. */
  lemma StripIsPositional(s: seq<Byte>)
    ensures Strip(0, s) == Staying(s, 0)
  {
    StripIsStaying(s, 0, 0);
    assert s[0..] == s;
  }

  // ----- Units

  /** Two header bytes, the first below 0x80, the second not a multiple of 8. */
  predicate Readable(raw: seq<Byte>) {
    |raw| >= 2 && raw[0] < 128 && raw[1] % 8 != 0
  }

  /** What may stand between two start codes once trailing zero bytes are off. */
  predicate Framable(raw: seq<Byte>) {
    && (raw != [] ==> raw[|raw| - 1] != 0)
    && forall i :: 0 <= i < |raw| - 2 ==> !(raw[i] == 0 && raw[i + 1] == 0 && raw[i + 2] == 1)
  }

  lemma FramableHasNoStart(raw: seq<Byte>)
    ensures Framable(raw) <==> FindStart(raw) == None && (raw != [] ==> raw[|raw| - 1] != 0)
  {
    hide FindStart;
    FindStartIsFirst(raw);
    if FindStart(raw) == None {
      forall i | 0 <= i < |raw| - 2
        ensures !(raw[i] == 0 && raw[i + 1] == 0 && raw[i + 2] == 1)
      {
        assert !StartsAt(raw, i);
      }
    }
  }

  /** The units with a header, as they are. */
  function ReadableOf(raws: seq<seq<Byte>>): seq<seq<Byte>> {
    if raws == [] then [] else (if Readable(raws[0]) then [raws[0]] else []) + ReadableOf(raws[1..])
  }

  lemma {:induction false} ZerosTrimmed(n: nat)
    ensures TrimZeros(ZeroBytes(n)) == []
  {
    if n > 0 {
      assert ZeroBytes(n)[..n - 1] == ZeroBytes(n - 1);
      ZerosTrimmed(n - 1);
    }
  }

  lemma PaddingTrimmed(raw: seq<Byte>, n: nat)
    requires Framable(raw)
    ensures TrimZeros(raw + ZeroBytes(n)) == raw
  {
    hide TrimZeros;
    if raw == [] {
      assert raw + ZeroBytes(n) == ZeroBytes(n);
      ZerosTrimmed(n);
    } else {
      TrimPadding(raw, n);
    }
  }

  lemma NextUnit(raw: seq<Byte>, pad: nat, rest: seq<Byte>)
    requires Framable(raw)
    ensures Units(raw + (StartCode(pad) + rest)) == Kept(raw) + Units(rest)
  {
    hide FindStart, TrimZeros, StartCode, Units, Kept, ZeroBytes, Framable;
    FramableHasNoStart(raw);
    StartAfter(raw, pad, rest);
    UnitsSplit(raw + (StartCode(pad) + rest), |raw| + pad);
    SplitAtStart(raw, pad, rest);
    PaddingTrimmed(raw, pad);
  }

  lemma FinalUnit(raw: seq<Byte>, trail: nat)
    requires Framable(raw)
    ensures Units(raw + ZeroBytes(trail)) == Kept(raw)
  {
    hide FindStart, TrimZeros, HasHeader, NalOf, Framable;
    FramableHasNoStart(raw);
    NoStartInZeros(raw, trail);
    PaddingTrimmed(raw, trail);
    if raw + ZeroBytes(trail) == [] {
      NothingKept(raw);
    }
  }

  lemma NothingKept(raw: seq<Byte>)
    requires raw == []
    ensures Kept(raw) == []
  {
  }

  lemma KeptRaws(raw: seq<Byte>)
    ensures Raws(Kept(raw)) == if Readable(raw) then [raw] else []
  {
  }

  lemma RawsConcat(a: seq<Nal>, b: seq<Nal>)
    ensures Raws(a + b) == Raws(a) + Raws(b)
  {
  }

  lemma {:induction false} UnitsAreReadable(raws: seq<seq<Byte>>, pads: seq<nat>, trail: nat)
    requires raws != [] && |pads| == |raws| && forall i :: 0 <= i < |raws| ==> Framable(raws[i])
    ensures Raws(Units(raws[0] + Join(raws[1..], pads[1..], trail))) == ReadableOf(raws)
    decreases raws
  {
    hide Units, Kept, Framable, Readable, StartCode, ZeroBytes;
    var raw, tail, tailPads := raws[0], raws[1..], pads[1..];
    KeptRaws(raw);
    if tail == [] {
      FinalUnit(raw, trail);
      assert ReadableOf(tail) == [];
    } else {
      var rest := tail[0] + Join(tail[1..], tailPads[1..], trail);
      UnitsAreReadable(tail, tailPads, trail);
      NextUnit(raw, tailPads[0], rest);
      RawsConcat(Kept(raw), Units(rest));
    }
  }

  /**
   * Any stream, as start-free bytes and then units behind start codes: exactly
   * the units with a readable header are returned, in order; the others,
   * empty ones included, cost nothing else.
   */
  lemma ExactlyReadable(lead: seq<Byte>, raws: seq<seq<Byte>>, pads: seq<nat>, trail: nat)
    requires |pads| == |raws| && FindStart(lead) == None && forall i :: 0 <= i < |raws| ==> Framable(raws[i])
    ensures Raws(Parsed(lead + Join(raws, pads, trail))) == ReadableOf(raws)
  {
    hide Units, FindStart, StartCode, Framable, Readable;
    if raws == [] {
      NoStartInZeros(lead, trail);
    } else {
      hide Parsed;
      ParsedAfterLead(lead, pads[0], raws[0] + Join(raws[1..], pads[1..], trail));
      UnitsAreReadable(raws, pads, trail);
    }
  }

  /** What a returned unit says: the fields of its two header bytes, and the payload bytes that stay. */
  lemma HeaderRead(data: seq<Byte>, k: nat)
    requires k < |Parsed(data)|
    ensures var u := Parsed(data)[k];
      && Readable(u.raw) && Framable(u.raw)
      && u.raw[0] / 2 == u.nalType
      && 32 * (u.raw[0] % 2) + u.raw[1] / 8 == u.layerId
      && u.raw[1] % 8 == u.temporalIdPlus1
      && u.rbsp == Staying(u.raw[2..], 0)
  {
    hide Parsed, Strip, FindStart;
    ParsedFaithful(data);
    var u := Parsed(data)[k];
    assert Framed(u.raw) && u == NalOf(u.raw);
    StripIsPositional(u.raw[2..]);
    FramableHasNoStart(u.raw);
  }

  // ----- Access units

  /**
   * n starts an access unit after these units: a slice is among them, and n is
   * no slice (a type above 31) or its first payload bit is set.
   */
  predicate Boundary(group: seq<Nal>, n: Nal) {
    && (exists i :: 0 <= i < |group| && group[i].nalType <= 31)
    && (n.nalType >= 32 || (n.rbsp != [] && n.rbsp[0] >= 128))
  }

  lemma BreaksAtBoundary(group: seq<Nal>, n: Nal)
    ensures Breaks(group, n) <==> Boundary(group, n)
  {
    if i :| 0 <= i < |group| && group[i].nalType <= 31 {
      assert HasVcl(group);
    }
  }

  /** The groups are cut at every boundary and nowhere else, and nothing is left out. */
  lemma CutAtBoundaries(nals: seq<Nal>)
    ensures var gs := Grouped(nals);
      && Flatten(gs) == nals
      && (forall k :: 0 <= k < |gs| ==> gs[k] != [])
      && (forall k, i :: 0 <= k < |gs| && 0 < i < |gs[k]| ==> !Boundary(gs[k][..i], gs[k][i]))
      && (forall k :: 0 <= k < |gs| - 1 ==> Boundary(gs[k], gs[k + 1][0]))
  {
    hide Grouped, Flatten, Breaks, Boundary;
    var gs := Grouped(nals);
    GroupedShape(nals);
    forall k | 0 <= k < |gs|
      ensures gs[k] != [] && OneAccessUnit(gs[k])
    {
    }
    forall k, i | 0 <= k < |gs| && 0 < i < |gs[k]|
      ensures !Boundary(gs[k][..i], gs[k][i])
    {
      BreaksAtBoundary(gs[k][..i], gs[k][i]);
    }
    forall k | 0 <= k < |gs| - 1
      ensures Boundary(gs[k], gs[k + 1][0])
    {
      BreaksAtBoundary(gs[k], gs[k + 1][0]);
    }
  }
}
