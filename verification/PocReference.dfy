/**
 * Picture order count as a small machine over headers, with the NAL unit types
 * and the modulus written out, and the engine's POCs over every run against
 * it; what RASL and RADL pictures do to it: nothing.
 */
module PocReference {
  import opened DpbMachine
  import opened StatelessEngine
  import opened StatelessOwnership
  import opened StatelessPoc
  import Bits

  /** The POC and LSBs of the anchor picture, the LSB width, and what came before. */
  datatype PocState = PocState(anchorPoc: int, anchorLsb: int, log2: nat, seenFirst: bool, eosSeen: bool)

  /** What reaches the machine: a picture's header, a flush, an end of sequence, a new LSB width. */
  datatype Input = Header(nalType: nat, temporalIdPlus1: nat, lsb: nat) | Restart | EndOfSequence | Width(log2: nat)

  /** IDR and BLA pictures restart the POC, a CRA picture does when it is first or follows an end of sequence. */
  predicate Restarts(s: PocState, h: Input)
    requires h.Header?
  {
    16 <= h.nalType <= 20 || (21 <= h.nalType <= 23 && (!s.seenFirst || s.eosSeen))
  }

  /** RADL_N, RADL_R, RASL_N and RASL_R. */
  predicate Leading(h: Input) {
    h.Header? && 6 <= h.nalType <= 9
  }

  /** The POC with the header's LSBs that is nearest to the anchor's. */
  function PocAt(s: PocState, h: Input): int
    requires h.Header?
  {
    var m := Bits.Pow2(s.log2);
    var same := s.anchorPoc - s.anchorLsb + h.lsb;
    if Restarts(s, h) then h.lsb
    else if same <= s.anchorPoc - m / 2 && h.lsb < s.anchorLsb then same + m
    else if same > s.anchorPoc + m / 2 then same - m
    else same
  }

  function Next(s: PocState, input: Input): PocState {
    match input
    case Header(nalType, temporalIdPlus1, lsb) =>
      var t := s.(seenFirst := true, eosSeen := false);
      if temporalIdPlus1 == 1 && !Leading(input) then t.(anchorPoc := PocAt(s, input), anchorLsb := lsb) else t
    case Restart => PocState(0, 0, s.log2, false, false)
    case EndOfSequence => s.(eosSeen := true)
    case Width(log2) => s.(log2 := log2)
  }

  function Pocs(s: PocState, inputs: seq<Input>): seq<int>
    decreases |inputs|
  {
    if inputs == [] then []
    else (if inputs[0].Header? then [PocAt(s, inputs[0])] else []) + Pocs(Next(s, inputs[0]), inputs[1..])
  }

  // ----- The engine

  function InputOf(ev: Event): seq<Input> {
    match ev
    case Decode(pic, _, _, _) => [Header(pic.nalType, pic.temporalIdPlus1, pic.pocLsb)]
    case Flush(_) => [Restart]
    case EndOfSequence => [Input.EndOfSequence]
    case NewSps(sps) => [Width(sps.log2MaxPocLsb)]
    case Acquire(_, _) => []
    case Release(_, _) => []
    case Drain => []
  }

  function Inputs(events: seq<Event>): seq<Input>
    decreases |events|
  {
    if events == [] then [] else InputOf(events[0]) + Inputs(events[1..])
  }

  function StateOf(e: Engine): PocState {
    PocState(e.anchor.lsb + e.anchor.msb, e.anchor.lsb, e.sps.log2MaxPocLsb, e.seenFirst, e.eosSeen)
  }

  lemma SamePoc(e: Engine, pic: Picture)
    ensures CurrentPoc(e, pic) == PocAt(StateOf(e), Header(pic.nalType, pic.temporalIdPlus1, pic.pocLsb))
  {
    hide Bits.Pow2;
  }

  lemma StepSame(e: Engine, ev: Event)
    requires Legal(e, ev)
    ensures StateOf(Step(e, ev).next)
      == if InputOf(ev) == [] then StateOf(e) else Next(StateOf(e), InputOf(ev)[0])
  {
    hide DecodeEffect, FlushEngine, BumpEngine, BumpFrames, AcquireEffect, ReleaseEngine, PocAt, CurrentPoc;
    if ev.Decode? {
      DecodeFields(e, ev);
      SamePoc(e, ev.pic);
      AnchorHolds(e, ev.pic);
    } else {
      OtherFields(e, ev);
      OtherFlags(e, ev);
    }
  }

  lemma AnchorHolds(e: Engine, pic: Picture)
    ensures var next :=
        NextAnchor(e.anchor, pic, e.sps.MaxPocLsb(), NoRaslOutput(pic, e.seenFirst, e.eosSeen));
      next == if pic.temporalIdPlus1 == 1 && !(6 <= pic.nalType <= 9)
              then Anchor(pic.pocLsb, CurrentPoc(e, pic) - pic.pocLsb) else e.anchor
  {
    hide SpsParams.MaxPocLsb, PocMsb;
  }

  lemma OtherFlags(e: Engine, ev: Event)
    requires !ev.Decode? && Legal(e, ev)
    ensures var next := Step(e, ev).next;
      && next.seenFirst == (!ev.Flush? && e.seenFirst)
      && next.eosSeen == (ev.EndOfSequence? || (!ev.Flush? && e.eosSeen))
  {
    hide DecodeEffect, Bumped, BumpOrder, BumpFrames;
  }

  /** The engine's POCs are the machine's, over every run, whatever else happens in it. */
  lemma {:induction false} RunPocsAreReference(e: Engine, events: seq<Event>)
    requires IsRun(e, events)
    ensures RunPocs(e, events) == Pocs(StateOf(e), Inputs(events))
    decreases |events|
  {
    hide Step, PocAt, Next, CurrentPoc, StateOf;
    if events != [] {
      var ev, next, rest := events[0], Step(e, events[0]).next, events[1..];
      StepSame(e, ev);
      RunPocsAreReference(next, rest);
      if InputOf(ev) == [] {
        assert [] + Inputs(rest) == Inputs(rest) && [] + RunPocs(next, rest) == RunPocs(next, rest);
      } else {
        PocsHead(StateOf(e), InputOf(ev)[0], Inputs(rest));
        if ev.Decode? {
          SamePoc(e, ev.pic);
        }
      }
    }
  }

  lemma PocsHead(s: PocState, input: Input, rest: seq<Input>)
    ensures Pocs(s, [input] + rest) == (if input.Header? then [PocAt(s, input)] else []) + Pocs(Next(s, input), rest)
  {
    hide PocAt, Next;
    assert ([input] + rest)[1..] == rest;
  }

  // ----- The window

  /**
   * After a picture of TemporalId 0 that is none of the types 6 to 9, the next
   * one that does not restart lies in the window around that picture's POC,
   * at the one value there with its LSBs.
   */
  lemma WindowMoves(s: PocState, h: Input, h2: Input, poc: int)
    requires h.Header? && h2.Header? && h.temporalIdPlus1 == 1 && !(6 <= h.nalType <= 9) && s.log2 >= 1
    requires h.lsb < Bits.Pow2(s.log2) && h2.lsb < Bits.Pow2(s.log2)
    requires PocAt(s, h) % Bits.Pow2(s.log2) == h.lsb && !Restarts(Next(s, h), h2)
    ensures poc == PocAt(Next(s, h), h2) <==>
      && poc % Bits.Pow2(s.log2) == h2.lsb
      && PocAt(s, h) - Bits.Pow2(s.log2) / 2 < poc <= PocAt(s, h) + Bits.Pow2(s.log2) / 2
  {
    hide PocAt, Bits.Pow2;
    var m, anchorPoc := Bits.Pow2(s.log2), PocAt(s, h);
    Bits.Pow2Step(s.log2);
    var a := Anchor(h.lsb, anchorPoc - h.lsb);
    assert SplitsPoc(a, anchorPoc, m);
    PocIsUniqueInWindow(a, anchorPoc, h2.lsb, m, poc);
    NearestIs(Next(s, h), h2, a);
  }

  /** A POC always ends in its header's LSBs, for an anchor that does. */
  lemma EndsInLsbs(s: PocState, h: Input)
    requires h.Header? && h.lsb < Bits.Pow2(s.log2)
    requires s.anchorPoc % Bits.Pow2(s.log2) == s.anchorLsb
    ensures PocAt(s, h) % Bits.Pow2(s.log2) == h.lsb
  {
    hide Bits.Pow2;
    var m, k := Bits.Pow2(s.log2), s.anchorPoc / Bits.Pow2(s.log2);
    var near := PocAt(s, h) - h.lsb;
    assert near == 0 || near == m * k || near == m * k + m || near == m * k - m;
    var j := if near == 0 then 0 else if near == m * k then k else if near == m * k + m then k + 1 else k - 1;
    Steps(m, k);
    Multiple(h.lsb, m, j);
  }

  lemma Steps(m: nat, k: int)
    ensures m * 0 == 0 && m * (k + 1) == m * k + m && m * (k - 1) == m * k - m
  {
  }

  lemma Multiple(lsb: nat, m: nat, k: int)
    requires lsb < m
    ensures (lsb + m * k) % m == lsb
  {
    var q := (lsb + m * k) / m;
    assert m * q <= lsb + m * k < m * q + m;
    if q > k {
      Bits.MulMonotone(m, k + 1, q);
    } else if q < k {
      Bits.MulMonotone(m, q, k - 1);
    }
  }

  lemma NearestIs(s: PocState, h: Input, a: Anchor)
    requires h.Header? && !Restarts(s, h) && s.anchorLsb == a.lsb && s.anchorPoc == a.lsb + a.msb
    ensures PocAt(s, h) == PocMsb(a, h.lsb, Bits.Pow2(s.log2), false) + h.lsb
  {
    hide Bits.Pow2;
  }

  // ----- Leading pictures

  function WithoutLeading(inputs: seq<Input>): seq<Input>
    decreases |inputs|
  {
    if inputs == [] then []
    else (if Leading(inputs[0]) then [] else [inputs[0]]) + WithoutLeading(inputs[1..])
  }

  /** Of the POCs of these inputs, those of the pictures that are not leading. */
  function OthersOf(inputs: seq<Input>, pocs: seq<int>): seq<int>
    decreases |inputs|
  {
    if inputs == [] || pocs == [] then []
    else if !inputs[0].Header? then OthersOf(inputs[1..], pocs)
    else (if Leading(inputs[0]) then [] else [pocs[0]]) + OthersOf(inputs[1..], pocs[1..])
  }

  /** Leading pictures never come first, nor right after an end of sequence. */
  predicate LeadingFollow(s: PocState, inputs: seq<Input>)
    decreases |inputs|
  {
    inputs != [] ==>
      (Leading(inputs[0]) ==> s.seenFirst && !s.eosSeen) && LeadingFollow(Next(s, inputs[0]), inputs[1..])
  }

  lemma {:induction false} LeadingChangeNothing(s: PocState, inputs: seq<Input>)
    requires LeadingFollow(s, inputs)
    ensures OthersOf(inputs, Pocs(s, inputs)) == Pocs(s, WithoutLeading(inputs))
    decreases |inputs|
  {
    hide PocAt;
    if inputs != [] {
      var first, rest := inputs[0], inputs[1..];
      LeadingChangeNothing(Next(s, first), rest);
      var later := Pocs(Next(s, first), rest);
      if first.Header? {
        assert Pocs(s, inputs)[1..] == later;
      } else {
        assert Pocs(s, inputs) == later;
      }
      if Leading(first) {
        assert Next(s, first) == s;
        assert WithoutLeading(inputs) == WithoutLeading(rest);
        assert [] + OthersOf(rest, later) == OthersOf(rest, later);
      } else {
        PocsHead(s, first, WithoutLeading(rest));
      }
      if !first.Header? && later == [] {
        NothingOf(rest);
      }
    }
  }

  lemma NothingOf(inputs: seq<Input>)
    ensures OthersOf(inputs, []) == []
  {
  }

  /**
   * Removing every picture of the types 6 to 9 from a run leaves the POCs of
   * all others as they were: any two runs from like states that differ in such
   * pictures, and in calls that have no part in POCs, agree on the rest.
   */
  lemma LeadingPicturesMoveNothing(e: Engine, events: seq<Event>, e2: Engine, events2: seq<Event>)
    requires IsRun(e, events) && IsRun(e2, events2) && StateOf(e) == StateOf(e2)
    requires Inputs(events2) == WithoutLeading(Inputs(events)) && LeadingFollow(StateOf(e), Inputs(events))
    ensures RunPocs(e2, events2) == OthersOf(Inputs(events), RunPocs(e, events))
  {
    RunPocsAreReference(e, events);
    RunPocsAreReference(e2, events2);
    LeadingChangeNothing(StateOf(e), Inputs(events));
  }
}
