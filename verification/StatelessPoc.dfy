/** Picture order counts over whole runs of the engine. */
module StatelessPoc {
  import opened Wrappers
  import opened DpbMachine
  import opened StatelessEngine
  import opened StatelessOwnership
  import Bits

  /** The POC of every picture submitted, decoded or not. */
  ghost function RunPocs(e: Engine, events: seq<Event>): seq<int>
    requires IsRun(e, events)
    decreases |events|
  {
    if events == [] then []
    else
      (if events[0].Decode? then [CurrentPoc(e, events[0].pic)] else [])
        + RunPocs(Step(e, events[0]).next, events[1..])
  }

  /**
   * The POC that the anchor stands for after a call: a flush restarts from 0,
   * and an SPS of another LSB width leaves none until a sequence starts.
   */
  ghost function NextAnchorPoc(e: Engine, ev: Event, anchorPoc: Option<int>, truePocs: seq<int>): Option<int> {
    if ev.Flush? then Some(0)
    else if ev.Decode? && MovesAnchor(ev.pic) && truePocs != [] then Some(truePocs[0])
    else if ev.NewSps? && ev.sps.log2MaxPocLsb != e.sps.log2MaxPocLsb then None
    else anchorPoc
  }

  /** Whether the anchor stands for a POC after a call. */
  ghost predicate StaysAnchored(e: Engine, ev: Event, anchored: bool) {
    || ev.Flush?
    || (ev.Decode? && MovesAnchor(ev.pic))
    || (anchored && !(ev.NewSps? && ev.sps.log2MaxPocLsb != e.sps.log2MaxPocLsb))
  }

  ghost function TrueAt(e: Engine, ev: Event, truePoc: int): TruePicture
    requires ev.Decode?
  {
    TruePicture(ev.pic, NoRaslOutput(ev.pic, e.seenFirst, e.eosSeen), truePoc)
  }

  /**
   * A stream that codes these true POCs: every header carries its LSBs, and
   * after an SPS of another LSB width a sequence starts.
   */
  ghost predicate StreamCodes(e: Engine, events: seq<Event>, anchored: bool, truePocs: seq<int>)
    requires IsRun(e, events)
    decreases |events|
  {
    events != [] ==>
      && (events[0].Decode? ==>
          truePocs != [] && StepCoded(anchored, TrueAt(e, events[0], truePocs[0]), e.sps.MaxPocLsb()))
      && StreamCodes(Step(e, events[0]).next, events[1..], StaysAnchored(e, events[0], anchored),
           if events[0].Decode? then truePocs[1..] else truePocs)
  }

  ghost predicate RecoverableAt(e: Engine, ev: Event, anchorPoc: Option<int>, truePocs: seq<int>) {
    ev.Decode? ==>
      truePocs != [] && StepRecoverable(anchorPoc, TrueAt(e, ev, truePocs[0]), e.sps.MaxPocLsb())
  }

  /**
   * The true POCs can be recovered: a sequence start has its POC in
   * 0..MaxPicOrderCntLsb-1, every other picture lies in the half-open window
   * around the code's own anchor picture.
   */
  ghost predicate Recoverable(e: Engine, events: seq<Event>, anchorPoc: Option<int>, truePocs: seq<int>)
    requires IsRun(e, events)
    decreases |events|
  {
    if events == [] then truePocs == []
    else
      && RecoverableAt(e, events[0], anchorPoc, truePocs)
      && Recoverable(Step(e, events[0]).next, events[1..], NextAnchorPoc(e, events[0], anchorPoc, truePocs),
           if events[0].Decode? then truePocs[1..] else truePocs)
  }

  lemma StepAnchor(e: Engine, ev: Event, anchorPoc: Option<int>, truePocs: seq<int>)
    requires Legal(e, ev) && RecoverableAt(e, ev, anchorPoc, truePocs)
    requires e.sps.Valid() && AnchorIs(e.anchor, anchorPoc, e.sps.MaxPocLsb())
    ensures var next := Step(e, ev).next;
      next.sps.Valid() && AnchorIs(next.anchor, NextAnchorPoc(e, ev, anchorPoc, truePocs), next.sps.MaxPocLsb())
    ensures NextAnchorPoc(e, ev, anchorPoc, truePocs).Some? == StaysAnchored(e, ev, anchorPoc.Some?)
  {
    hide SplitsPoc, PocOf, NextAnchor, StepRecoverable, DecodeEffect, FlushEngine, BumpEngine, BumpFrames,
         AcquireEffect, ReleaseEngine, SpsParams.MaxPocLsb;
    if ev.Decode? {
      MaxPocLsbEven(e.sps);
      PocStepExact(e.anchor, anchorPoc, TrueAt(e, ev, truePocs[0]), e.sps.MaxPocLsb());
      DecodeFields(e, ev);
    } else {
      OtherFields(e, ev);
      ZeroSplits(e.sps.MaxPocLsb());
      if ev.NewSps? {
        SameWidth(e.sps, ev.sps);
      }
    }
  }

  lemma SameWidth(a: SpsParams, b: SpsParams)
    ensures a.log2MaxPocLsb == b.log2MaxPocLsb ==> a.MaxPocLsb() == b.MaxPocLsb()
  {
  }

  lemma ZeroSplits(maxLsb: nat)
    requires maxLsb > 0
    ensures SplitsPoc(Anchor(0, 0), 0, maxLsb)
  {
  }

  lemma MaxPocLsbEven(sps: SpsParams)
    requires sps.Valid()
    ensures sps.MaxPocLsb() >= 2 && sps.MaxPocLsb() % 2 == 0
  {
    hide Bits.Pow2;
    Bits.Pow2Step(sps.log2MaxPocLsb);
  }

  lemma DecodeFields(e: Engine, ev: Event)
    requires ev.Decode? && Legal(e, ev)
    ensures var next := Step(e, ev).next;
      && next.anchor
        == NextAnchor(e.anchor, ev.pic, e.sps.MaxPocLsb(), NoRaslOutput(ev.pic, e.seenFirst, e.eosSeen))
      && next.sps == e.sps && next.seenFirst && !next.eosSeen
  {
    hide DpbKept, NextAnchor, BumpFrames, Trim, Bumped, BumpOrder;
  }

  lemma OtherFields(e: Engine, ev: Event)
    requires !ev.Decode? && Legal(e, ev)
    ensures var next := Step(e, ev).next;
      && next.anchor == (if ev.Flush? then Anchor(0, 0) else e.anchor)
      && next.sps == (if ev.NewSps? then ev.sps else e.sps)
  {
    hide DecodeEffect, Bumped, BumpOrder, BumpFrames;
  }

  /**
   * POC recovery over any run, with decode failures, flushes, new parameter
   * sets and other calls in between: of a stream that codes its true POCs, all
   * pictures submitted get them, through any number of LSB wraps in either
   * direction, if and only if each is in the window of its turn.
   */
  lemma {:induction false} RunPocsExact(e: Engine, events: seq<Event>, anchorPoc: Option<int>, truePocs: seq<int>)
    requires IsRun(e, events)
    requires e.sps.Valid() && AnchorIs(e.anchor, anchorPoc, e.sps.MaxPocLsb())
    ensures Recoverable(e, events, anchorPoc, truePocs)
      <==> StreamCodes(e, events, anchorPoc.Some?, truePocs) && RunPocs(e, events) == truePocs
    decreases |events|
  {
    hide Step, AnchorIs, CurrentPoc, NextAnchorPoc, StaysAnchored, StepCoded, StepRecoverable, SpsParams.MaxPocLsb;
    if events != [] {
      var ev, next := events[0], Step(e, events[0]).next;
      StepIff(e, ev, anchorPoc, truePocs);
      if RecoverableAt(e, ev, anchorPoc, truePocs) {
        StepAnchor(e, ev, anchorPoc, truePocs);
        RunPocsExact(next, events[1..], NextAnchorPoc(e, ev, anchorPoc, truePocs),
          if ev.Decode? then truePocs[1..] else truePocs);
        if ev.Decode? {
          assert truePocs == [truePocs[0]] + truePocs[1..];
        } else {
          assert [] + RunPocs(next, events[1..]) == RunPocs(next, events[1..]);
        }
      } else {
        assert RunPocs(e, events)[0] == CurrentPoc(e, ev.pic);
      }
    }
  }

  lemma StepIff(e: Engine, ev: Event, anchorPoc: Option<int>, truePocs: seq<int>)
    requires e.sps.Valid() && AnchorIs(e.anchor, anchorPoc, e.sps.MaxPocLsb())
    ensures ev.Decode? && truePocs != [] ==>
      (RecoverableAt(e, ev, anchorPoc, truePocs) <==>
        && StepCoded(anchorPoc.Some?, TrueAt(e, ev, truePocs[0]), e.sps.MaxPocLsb())
        && CurrentPoc(e, ev.pic) == truePocs[0])
  {
    if ev.Decode? && truePocs != [] {
      MaxPocLsbEven(e.sps);
      PocStepIff(e.anchor, anchorPoc, TrueAt(e, ev, truePocs[0]), e.sps.MaxPocLsb());
    }
  }

  // ----- The standard's anchor

  /** Section 8.3.1 also passes over sub-layer non-reference pictures. */
  predicate StandardMovesAnchor(pic: Picture) {
    MovesAnchor(pic) && !(pic.nalType <= 14 && pic.nalType % 2 == 0)
  }

  ghost function StandardAnchor(e: Engine, ev: Event, prev: Anchor): Anchor {
    if ev.Flush? then Anchor(0, 0)
    else if ev.Decode? && StandardMovesAnchor(ev.pic) then
      NextAnchor(prev, ev.pic, e.sps.MaxPocLsb(), NoRaslOutput(ev.pic, e.seenFirst, e.eosSeen))
    else prev
  }

  /** The POCs that the standard's anchor gives the same run. */
  ghost function StandardPocs(e: Engine, events: seq<Event>, prev: Anchor): seq<int>
    requires IsRun(e, events)
    decreases |events|
  {
    if events == [] then []
    else
      (if events[0].Decode? then
         [PocOf(prev, events[0].pic, e.sps.MaxPocLsb(), NoRaslOutput(events[0].pic, e.seenFirst, e.eosSeen))]
       else [])
        + StandardPocs(Step(e, events[0]).next, events[1..], StandardAnchor(e, events[0], prev))
  }

  /** Without sub-layer non-reference pictures at TemporalId 0 the two anchors are one. */
  lemma {:induction false} StandardAgrees(e: Engine, events: seq<Event>)
    requires IsRun(e, events)
    requires forall k :: 0 <= k < |events| && events[k].Decode? ==>
      (MovesAnchor(events[k].pic) ==> StandardMovesAnchor(events[k].pic))
    ensures StandardPocs(e, events, e.anchor) == RunPocs(e, events)
    decreases |events|
  {
    hide Step, MovesAnchor, StandardMovesAnchor, PocMsb;
    if events != [] {
      if events[0].Decode? {
        DecodeFields(e, events[0]);
        AnchorRules(events[0].pic);
      } else {
        OtherFields(e, events[0]);
      }
      StandardAgrees(Step(e, events[0]).next, events[1..]);
    }
  }

  lemma AnchorRules(pic: Picture)
    ensures StandardMovesAnchor(pic) ==> MovesAnchor(pic)
  {
  }

  /** The headers of IDR, TRAIL_R, TRAIL_N and TRAIL_R at POC 0, 8, 1 and 16, of which 16 is LSB 0. */
  ghost predicate AnchorExampleStream(events: seq<Event>) {
    && |events| == 4 && (forall k :: 0 <= k < 4 ==> events[k].Decode? && events[k].pic.temporalIdPlus1 == 1)
    && events[0].pic.nalType == 19 && events[0].pic.pocLsb == 0
    && events[1].pic.nalType == 1 && events[1].pic.pocLsb == 8
    && events[2].pic.nalType == 0 && events[2].pic.pocLsb == 1
    && events[3].pic.nalType == 1 && events[3].pic.pocLsb == 0
  }

  /**
   * With them they part, however the decodes end: with MaxPicOrderCntLsb 16 the
   * code takes the last picture for POC 0.
   */
  lemma AnchorExample(e: Engine, events: seq<Event>)
    requires IsRun(e, events) && AnchorExampleStream(events)
    requires e.sps.log2MaxPocLsb == 4 && e.anchor == Anchor(0, 0)
    ensures StandardPocs(e, events, e.anchor) == [0, 8, 1, 16]
    ensures RunPocs(e, events) == [0, 8, 1, 0]
  {
    hide Step, SpsParams.MaxPocLsb;
    LsbModulus(e.sps);
    ExampleStep(e, events, Anchor(0, 0));
    var e1, rest1 := Step(e, events[0]).next, events[1..];
    ExampleStep(e1, rest1, Anchor(0, 0));
    var e2, rest2 := Step(e1, rest1[0]).next, rest1[1..];
    ExampleStep(e2, rest2, Anchor(8, 0));
    var e3, rest3 := Step(e2, rest2[0]).next, rest2[1..];
    ExampleStep(e3, rest3, Anchor(8, 0));
    assert rest3[1..] == [];
  }

  lemma ExampleStep(e: Engine, events: seq<Event>, prev: Anchor)
    requires IsRun(e, events) && events != [] && events[0].Decode?
    ensures var pic, next := events[0].pic, Step(e, events[0]).next;
      var noRasl := NoRaslOutput(pic, e.seenFirst, e.eosSeen);
      && next.sps == e.sps && next.seenFirst && !next.eosSeen
      && next.anchor == NextAnchor(e.anchor, pic, e.sps.MaxPocLsb(), noRasl)
      && RunPocs(e, events) == [PocOf(e.anchor, pic, e.sps.MaxPocLsb(), noRasl)] + RunPocs(next, events[1..])
      && StandardPocs(e, events, prev)
        == [PocOf(prev, pic, e.sps.MaxPocLsb(), noRasl)]
          + StandardPocs(next, events[1..], StandardAnchor(e, events[0], prev))
  {
    hide Step, PocOf, NextAnchor, StandardAnchor;
    DecodeFields(e, events[0]);
  }
}
