/**
 * The CAPTURE pool as a resource: when the driver is sure to be left buffers
 * to decode into, and the one way a buffer gets lost.
 */
module StatelessPool {
  import opened Counting
  import opened DpbMachine
  import opened DpbBuffers
  import opened StatelessEngine
  import opened StatelessOwnership
  import StatelessOutput

  /** The reference flags mark exactly the buffers in the DPB. */
  ghost predicate Tight(e: Engine) {
    forall i :: 0 <= i < |e.captures| ==> (e.captures[i].isReference <==> i in Buffers(e.dpb))
  }

  lemma StartKeepsTight(e: Engine, pic: Picture)
    requires Inv(e) && Tight(e)
    ensures Tight(StartPicture(e, pic))
  {
    var atStart := DpbAtStart(e, pic);
    assert Ordered(atStart);
    EvictOrdered(atStart, RpsAtStart(e, pic).kept);
    SubsetBuffers(DpbKept(e, pic), e.dpb);
  }

  /** Only the newest picture's own flag can come apart from the DPB. */
  lemma AddTightness(e: Engine, cap: nat, poc: int, tag: nat, timestamp: nat, output: bool)
    requires Inv(e) && Tight(e) && cap < |e.captures| && e.captures[cap].queued
    requires forall j :: 0 <= j < |e.dpb| ==> e.dpb[j].tag < tag
    ensures Tight(AddPicture(e, cap, poc, tag, timestamp, output))
      <==> CountHigher(e.dpb, poc) <= e.sps.maxDecPicBufferingMinus1
  {
    var newest := RefPic(poc, cap, tag);
    var kept := Trim(e.dpb + [newest], e.sps.MaxDpb());
    NewestIsNew(e, newest);
    TrimBuffers(e.dpb, newest, e.sps.MaxDpb());
    TrimKeepsNewest(e.dpb, newest, e.sps.MaxDpb());
    NewestByBuffer(e.dpb, newest, kept);
    AddedTight(e, cap, poc, tag, timestamp, output);
  }

  lemma NewestIsNew(e: Engine, newest: RefPic)
    requires Inv(e) && newest.buffer < |e.captures| && e.captures[newest.buffer].queued
    ensures newest.buffer !in Buffers(e.dpb) && newest !in e.dpb
  {
  }

  lemma AddedTight(e: Engine, cap: nat, poc: int, tag: nat, timestamp: nat, output: bool)
    requires Tight(e) && cap < |e.captures|
    ensures var added := AddPicture(e, cap, poc, tag, timestamp, output);
      && added.captures[cap].isReference && !added.captures[cap].queued
      && (Tight(added) <==> cap in Buffers(added.dpb))
  {
    hide Trim, Buffers;
    var newest := RefPic(poc, cap, tag);
    AppendBuffers(e.dpb, newest);
    TrimBuffers(e.dpb, newest, e.sps.MaxDpb());
    var added := AddPicture(e, cap, poc, tag, timestamp, output);
    forall i | 0 <= i < |e.captures| && i != cap
      ensures added.captures[i].isReference <==> i in Buffers(added.dpb)
    {
    }
  }

  /** The reference flag of a buffer that left the DPB as the newest picture. */
  ghost predicate Lost(e: Engine, i: nat) {
    i < |e.captures| && e.captures[i].isReference && i !in Buffers(e.dpb) && !e.captures[i].queued
  }

  /**
   * A decode from a tight state: the flags stay exact if and only if fewer than
   * sps_max_dec_pic_buffering_minus1 + 1 kept references have a higher POC than
   * the new picture. Otherwise the new picture is cut from the DPB at once, its
   * flag stays, and its buffer is lost.
   */
  lemma DecodeTightness(e: Engine, pic: Picture, timestamp: nat, cap: nat, accepts: set<nat>)
    requires Inv(e) && Tight(e) && LegalOutcome(e, Dequeued(cap, false))
    ensures var next := DecodeEffect(e, pic, timestamp, Dequeued(cap, false), accepts).next;
      && (Tight(next) <==> CountHigher(DpbKept(e, pic), CurrentPoc(e, pic)) <= e.sps.maxDecPicBufferingMinus1)
      && (!Tight(next) ==> Lost(next, cap))
  {
    hide Inv, AddPicture, CountHigher, Buffers, StartPicture, FinishPicture, Tight, Lost;
    var started, poc := StartPicture(e, pic), CurrentPoc(e, pic);
    StartKeepsInv(e, pic);
    StartKeepsTight(e, pic);
    StartKeepsQueued(e, pic, cap);
    var sent := started.(nextTag := e.nextTag + 1);
    SentKeeps(started);
    AddTightness(sent, cap, poc, e.nextTag, timestamp, pic.output);
    FinishTight(sent, cap, poc, e.nextTag, timestamp, pic.output, accepts);
    assert DecodeEffect(e, pic, timestamp, Dequeued(cap, false), accepts).next
      == FinishPicture(sent, cap, poc, e.nextTag, false, timestamp, pic.output, accepts);
  }

  lemma StartKeepsQueued(e: Engine, pic: Picture, cap: nat)
    requires Inv(e) && cap < |e.captures| && e.captures[cap].queued
    ensures var started := StartPicture(e, pic);
      && started.captures[cap].queued && started.dpb == DpbKept(e, pic) && started.sps == e.sps
      && started.nextTag == e.nextTag && |started.captures| == |e.captures|
  {
    hide DpbKept;
  }

  /** The request's tag is new. */
  lemma SentKeeps(e: Engine)
    requires Inv(e) && Tight(e)
    ensures var sent := e.(nextTag := e.nextTag + 1);
      Inv(sent) && Tight(sent) && forall j :: 0 <= j < |e.dpb| ==> e.dpb[j].tag < e.nextTag
  {
  }

  lemma FinishTight(e: Engine, cap: nat, poc: int, tag: nat, timestamp: nat, output: bool, accepts: set<nat>)
    requires Tight(e) && cap < |e.captures|
    ensures var added, next := AddPicture(e, cap, poc, tag, timestamp, output),
                FinishPicture(e, cap, poc, tag, false, timestamp, output, accepts);
      && (Tight(next) <==> Tight(added))
      && (!Tight(next) ==> Lost(next, cap))
  {
    AddedTight(e, cap, poc, tag, timestamp, output);
    FinishFlags(e, cap, poc, tag, timestamp, output, accepts);
    hide AddPicture, FinishPicture, Buffers;
  }

  lemma {:induction false} BumpedFlags(captures: seq<Capture>, limit: nat, i: nat)
    requires i < |captures|
    ensures var c := Bumped(captures, limit)[i];
      && c.isReference == captures[i].isReference
      && c.queued == captures[i].queued
      && c.checkedOut == captures[i].checkedOut
    decreases |PendingFrames(captures)|
  {
    if |PendingFrames(captures)| > limit {
      var k := LowestPending(captures).value;
      PendingFramesEmitted(captures, k);
      BumpedFlags(Emitted(captures, k), limit, i);
    }
  }

  /** Bumping and requeuing leave the reference flags and the DPB alone. */
  lemma FinishFlags(e: Engine, cap: nat, poc: int, tag: nat, timestamp: nat, output: bool, accepts: set<nat>)
    requires cap < |e.captures|
    ensures var added, next := AddPicture(e, cap, poc, tag, timestamp, output),
                FinishPicture(e, cap, poc, tag, false, timestamp, output, accepts);
      && next.dpb == added.dpb
      && (forall i :: 0 <= i < |e.captures| ==> next.captures[i].isReference == added.captures[i].isReference)
      && (forall i :: 0 <= i < |e.captures| && next.captures[i].isReference ==>
          next.captures[i].queued == added.captures[i].queued)
  {
    hide Bumped, BumpOrder;
    var added := AddPicture(e, cap, poc, tag, timestamp, output);
    hide AddPicture;
    forall i | 0 <= i < |e.captures|
      ensures Bumped(added.captures, added.reorderDepth)[i].isReference == added.captures[i].isReference
      ensures Bumped(added.captures, added.reorderDepth)[i].queued == added.captures[i].queued
    {
      BumpedFlags(added.captures, added.reorderDepth, i);
    }
  }

  /** One reference at POC 8, a bound of one reference, one buffer with the driver. */
  function LossEngine(): Engine {
    Engine(
      [Capture(false, true, false, false, 8, 0), Capture(true, false, false, false, 0, 0)],
      [RefPic(8, 0, 1)], [], 2, Anchor(8, 0), true, false, 2, SpsParams(4, 0))
  }

  /** POC 4, keeping the picture at POC 8. */
  function LossPicture(): Picture {
    Picture(1, 1, 4, true, ShortTermRpsSets.ShortTermRps([], [ShortTermRpsSets.DeltaPoc(4, true)]), [])
  }

  lemma LossIsLegal(e: Engine)
    requires e == LossEngine()
    ensures Inv(e) && Tight(e) && LegalOutcome(e, Dequeued(1, false))
  {
    assert Buffers(e.dpb) == {0};
  }

  lemma LossPoc(e: Engine, pic: Picture)
    requires e.seenFirst && !e.eosSeen && e.anchor == Anchor(8, 0) && e.sps.log2MaxPocLsb == 4
    requires pic.nalType == 1 && pic.pocLsb == 4
    ensures CurrentPoc(e, pic) == 4 && DpbAtStart(e, pic) == e.dpb
  {
    LsbModulus(e.sps);
    hide SpsParams.MaxPocLsb;
    assert !NoRaslOutput(pic, e.seenFirst, e.eosSeen);
    hide NoRaslOutput;
  }

  lemma LossKept(dpb: seq<RefPic>, pic: Picture, poc: int, maxLsb: nat)
    requires pic == LossPicture() && poc == 4 && maxLsb > 0
    ensures 8 in KeptPocs(dpb, pic, poc, maxLsb)
  {
    hide KeptPocs;
    KeptNamed(dpb, pic, poc, maxLsb, 8);
    assert pic.rps.s1[0].delta == 4;
  }

  lemma SingleKept(r: RefPic, kept: seq<int>, poc: int)
    requires r.poc in kept && poc < r.poc
    ensures Evict([r], kept) == [r] && CountHigher([r], poc) == 1
  {
    assert [r][..0] == [];
  }

  lemma LossStart(e: Engine, pic: Picture)
    requires e.seenFirst && !e.eosSeen && e.anchor == Anchor(8, 0) && e.sps == SpsParams(4, 0)
    requires e.dpb == [RefPic(8, 0, 1)] && pic == LossPicture()
    ensures CurrentPoc(e, pic) == 4 && e.sps.MaxDpb() == 1
    ensures DpbKept(e, pic) == e.dpb && CountHigher(e.dpb, 4) == 1
  {
    hide KeptPocs, Evict, CountHigher, CurrentPoc, DpbAtStart, SpsParams.MaxPocLsb, StCurr, LtCurr, LtFound;
    LossPoc(e, pic);
    var poc, maxLsb := CurrentPoc(e, pic), e.sps.MaxPocLsb();
    LossKept(e.dpb, pic, poc, maxLsb);
    SingleKept(e.dpb[0], KeptPocs(e.dpb, pic, poc, maxLsb), poc);
    assert e.dpb == [e.dpb[0]];
  }

  /** A CRA picture at POC 8 that is not output. */
  function LossKeyPicture(): Picture {
    Picture(21, 1, 8, false, ShortTermRpsSets.ShortTermRps([], []), [])
  }

  /** Up to its eviction, that picture finds nothing to do. */
  lemma KeyStarts(start: Engine, key: Picture)
    requires start.dpb == [] && !start.seenFirst && !start.eosSeen && key == LossKeyPicture()
    ensures CurrentPoc(start, key) == 8
    ensures StartPicture(start, key) == start.(anchor := Anchor(8, 0), seenFirst := true)
  {
    hide SpsParams.MaxPocLsb, DeriveRps;
    assert DpbKept(start, key) == [];
    assert Unreferenced(start.captures, {}) == start.captures;
  }

  lemma KeyFinishes(e: Engine)
    requires e.dpb == [] && e.sps.MaxDpb() == 1 && e.reorderDepth == 2 && e.ready == []
    requires e.captures == [NewCapture(), NewCapture()]
    ensures FinishPicture(e, 0, 8, 1, false, 0, false, {})
      == e.(captures := [Capture(false, true, false, false, 8, 0), NewCapture()], dpb := [RefPic(8, 0, 1)])
  {
    var added := AddPicture(e, 0, 8, 1, 0, false);
    assert Buffers([RefPic(8, 0, 1)]) == {0};
    assert added.captures == [Capture(false, true, false, false, 8, 0), NewCapture()];
    NonePending(added.captures);
    assert QueueIdle(added.captures, [], {}) == added.captures;
    hide PendingFrames;
  }

  lemma NonePending(captures: seq<Capture>)
    requires |captures| == 2 && !captures[0].pendingOutput && !captures[1].pendingOutput
    ensures PendingFrames(captures) == []
  {
    PendingSnoc(captures);
    PendingSnoc(captures[..1]);
  }

  /** A buffer with the driver and nobody else, as configuration leaves it. */
  function NewCapture(): Capture {
    Capture(true, false, false, false, 0, 0)
  }

  /** One decode from configuration leads to LossEngine. */
  lemma LossReached(start: Engine, key: Picture)
    requires start == Configured(2, SpsParams(4, 0), 2, {0, 1}) && key == LossKeyPicture()
    ensures LegalOutcome(start, Dequeued(0, false))
    ensures DecodeEffect(start, key, 0, Dequeued(0, false), {}).next == LossEngine()
  {
    hide StartPicture, FinishPicture, CurrentPoc, BumpFrames;
    assert start.captures == [NewCapture(), NewCapture()];
    KeyStarts(start, key);
    KeyFinishes(StartPicture(start, key).(nextTag := 2));
  }

  /** The overflow loop does lose a buffer, two pictures after configuration. */
  lemma LossExample(start: Engine, key: Picture, pic: Picture)
    requires start == Configured(2, SpsParams(4, 0), 2, {0, 1})
    requires key == LossKeyPicture() && pic == LossPicture()
    ensures var events :=
        [Decode(key, 0, Dequeued(0, false), {}), Decode(pic, 0, Dequeued(1, false), {})];
      IsRun(start, events) && Lost(RunEngine(start, events), 1)
  {
    hide LossPicture, LossKeyPicture, Lost, DecodeEffect, LegalOutcome;
    LossReached(start, key);
    var events := [Decode(key, 0, Dequeued(0, false), {}), Decode(pic, 0, Dequeued(1, false), {})];
    LossStep(LossEngine(), pic);
    TwoSteps(start, events);
  }

  lemma TwoSteps(start: Engine, events: seq<Event>)
    requires |events| == 2 && Legal(start, events[0]) && Legal(Step(start, events[0]).next, events[1])
    ensures IsRun(start, events)
    ensures RunEngine(start, events) == Step(Step(start, events[0]).next, events[1]).next
  {
    hide Step;
    var next, rest := Step(start, events[0]).next, events[1..];
    assert rest[0] == events[1] && rest[1..] == [];
    assert IsRun(Step(next, rest[0]).next, rest[1..]);
    assert IsRun(next, rest);
    assert RunEngine(next, rest) == RunEngine(Step(next, rest[0]).next, rest[1..]);
  }

  lemma LossStep(e: Engine, pic: Picture)
    requires e == LossEngine() && pic == LossPicture()
    ensures LegalOutcome(e, Dequeued(1, false))
    ensures Lost(DecodeEffect(e, pic, 0, Dequeued(1, false), {}).next, 1)
  {
    LossIsLegal(e);
    LossStart(e, pic);
    hide DpbKept, CurrentPoc, DecodeEffect, CountHigher, Inv, Tight, Lost, LossEngine, LossPicture;
    DecodeTightness(e, pic, 0, 1, {});
  }

  /** Nothing but Flush ever gives a lost buffer back. */
  lemma StepKeepsLost(e: Engine, ev: Event, i: nat)
    requires Inv(e) && Legal(e, ev) && !ev.Flush? && Lost(e, i)
    ensures Lost(Step(e, ev).next, i)
  {
    match ev
    case Decode(pic, timestamp, outcome, accepts) => DecodeKeepsLost(e, pic, timestamp, outcome, accepts, i);
    case Drain => BumpedFlags(e.captures, 0, i);
    case Acquire(exported, accepts) =>
    case Release(index, accepts) =>
    case EndOfSequence =>
    case NewSps(_) =>
  }

  lemma DecodeKeepsLost(e: Engine, pic: Picture, timestamp: nat, outcome: DriverOutcome, accepts: set<nat>, i: nat)
    requires Inv(e) && LegalOutcome(e, outcome) && Lost(e, i)
    ensures Lost(DecodeEffect(e, pic, timestamp, outcome, accepts).next, i)
  {
    var started := StartPicture(e, pic);
    StartKeepsLost(e, pic, i);
    hide StartPicture, Inv, CurrentPoc, AddPicture, Buffers, BumpEngine, QueueIdle;
    if outcome.Dequeued? && !outcome.error {
      var sent := started.(nextTag := e.nextTag + 1);
      assert Lost(sent, i);
      AddKeepsLost(sent, outcome.index, CurrentPoc(e, pic), e.nextTag, timestamp, pic.output, i);
      FinishFlags(sent, outcome.index, CurrentPoc(e, pic), e.nextTag, timestamp, pic.output, accepts);
    }
  }

  lemma StartKeepsLost(e: Engine, pic: Picture, i: nat)
    requires Inv(e) && Lost(e, i)
    ensures Lost(StartPicture(e, pic), i) && |StartPicture(e, pic).captures| == |e.captures|
    ensures forall j :: 0 <= j < |e.captures| ==> StartPicture(e, pic).captures[j].queued == e.captures[j].queued
  {
    var atStart := DpbAtStart(e, pic);
    assert Ordered(atStart);
    EvictOrdered(atStart, RpsAtStart(e, pic).kept);
    SubsetBuffers(DpbKept(e, pic), e.dpb);
    hide Inv, CurrentPoc, NextAnchor, DpbAtStart, RpsAtStart, DpbKept;
  }

  lemma AddKeepsLost(e: Engine, cap: nat, poc: int, tag: nat, timestamp: nat, output: bool, i: nat)
    requires cap < |e.captures| && cap != i && Lost(e, i)
    ensures Lost(AddPicture(e, cap, poc, tag, timestamp, output), i)
  {
    var all := e.dpb + [RefPic(poc, cap, tag)];
    AppendBuffers(e.dpb, RefPic(poc, cap, tag));
    forall r | r in Trim(all, e.sps.MaxDpb())
      ensures r in all
    {
      TrimSubset(all, e.sps.MaxDpb(), r);
    }
    SubsetBuffers(Trim(all, e.sps.MaxDpb()), all);
  }

  lemma {:induction false} RunKeepsLost(e: Engine, events: seq<Event>, i: nat)
    requires Inv(e) && IsRun(e, events) && (forall k :: 0 <= k < |events| ==> !events[k].Flush?) && Lost(e, i)
    ensures Lost(RunEngine(e, events), i)
    decreases |events|
  {
    hide Step, Inv, Lost;
    if events != [] {
      StepKeepsInv(e, events[0]);
      StepKeepsLost(e, events[0], i);
      RunKeepsLost(Step(e, events[0]).next, events[1..], i);
    }
  }

  // ----- Enough buffers

  ghost predicate Conforming(e: Engine, pic: Picture) {
    ConformingSet(RpsAtStart(e, pic).kept, CurrentPoc(e, pic), e.sps)
  }

  ghost predicate PoolInv(e: Engine) {
    Inv(e) && Tight(e) && DistinctPocs(e.dpb)
  }

  /** Under that hypothesis the references kept leave room: the overflow loop has nothing to do. */
  lemma OverflowNeverFires(e: Engine, pic: Picture)
    requires PoolInv(e) && Conforming(e, pic)
    ensures |DpbKept(e, pic)| < e.sps.MaxDpb() && DistinctPocs(DpbKept(e, pic))
    ensures forall j :: 0 <= j < |DpbKept(e, pic)| ==> DpbKept(e, pic)[j].poc != CurrentPoc(e, pic)
    ensures CountHigher(DpbKept(e, pic), CurrentPoc(e, pic)) < e.sps.MaxDpb()
  {
    hide Inv, Tight, CountHigher;
    ConformingRoom(DpbAtStart(e, pic), RpsAtStart(e, pic).kept, CurrentPoc(e, pic), e.sps);
  }

  lemma DecodeKeepsPool(e: Engine, pic: Picture, timestamp: nat, cap: nat, accepts: set<nat>)
    requires PoolInv(e) && Conforming(e, pic) && LegalOutcome(e, Dequeued(cap, false))
    ensures var next := DecodeEffect(e, pic, timestamp, Dequeued(cap, false), accepts).next;
      PoolInv(next) && |next.dpb| <= e.sps.MaxDpb() && next.sps == e.sps && next.reorderDepth == e.reorderDepth
  {
    hide Inv, Tight, DpbKept, CurrentPoc, CountHigher, DecodeEffect, Conforming, Trim, DistinctPocs;
    OverflowNeverFires(e, pic);
    DecodeKeepsInv(e, pic, timestamp, Dequeued(cap, false), accepts);
    DecodeTightness(e, pic, timestamp, cap, accepts);
    DecodedDpb(e, pic, timestamp, cap, accepts);
    AddedDistinct(DpbKept(e, pic), RefPic(CurrentPoc(e, pic), cap, e.nextTag), e.sps.MaxDpb());
  }

  lemma DecodedDpb(e: Engine, pic: Picture, timestamp: nat, cap: nat, accepts: set<nat>)
    requires LegalOutcome(e, Dequeued(cap, false))
    ensures var next := DecodeEffect(e, pic, timestamp, Dequeued(cap, false), accepts).next;
      && next.dpb == Trim(DpbKept(e, pic) + [RefPic(CurrentPoc(e, pic), cap, e.nextTag)], e.sps.MaxDpb())
      && next.sps == e.sps && next.reorderDepth == e.reorderDepth
  {
    hide Trim, DpbKept, CurrentPoc, Unreferenced, QueueIdle, Bumped, BumpOrder, NextAnchor;
  }

  lemma StartKeepsPool(e: Engine, pic: Picture)
    requires PoolInv(e)
    ensures PoolInv(StartPicture(e, pic))
  {
    StartKeepsInv(e, pic);
    StartKeepsTight(e, pic);
    var atStart := DpbAtStart(e, pic);
    assert DistinctPocs(atStart);
    hide Inv, Tight, DpbAtStart;
    EvictDistinct(atStart, RpsAtStart(e, pic).kept);
  }

  /** A failed decode marks nothing. */
  lemma FailedKeepsPool(e: Engine, pic: Picture, timestamp: nat, outcome: DriverOutcome, accepts: set<nat>)
    requires PoolInv(e) && LegalOutcome(e, outcome) && (outcome.Dequeued? ==> outcome.error)
    ensures PoolInv(DecodeEffect(e, pic, timestamp, outcome, accepts).next)
  {
    DecodeKeepsInv(e, pic, timestamp, outcome, accepts);
    StartKeepsPool(e, pic);
    hide Inv, DpbKept, CurrentPoc, StartPicture;
  }

  lemma StepKeepsPool(e: Engine, ev: Event)
    requires PoolInv(e) && Legal(e, ev) && (ev.Decode? ==> Conforming(e, ev.pic))
    ensures PoolInv(Step(e, ev).next)
  {
    hide DecodeEffect, FlushEngine, BumpEngine, Inv, Conforming;
    StepKeepsInv(e, ev);
    match ev
    case Decode(pic, timestamp, outcome, accepts) =>
      if outcome.Dequeued? && !outcome.error {
        DecodeKeepsPool(e, pic, timestamp, outcome.index, accepts);
      } else {
        FailedKeepsPool(e, pic, timestamp, outcome, accepts);
      }
    case Flush(accepts) => FlushTight(e, accepts);
    case Drain => BumpTight(e);
    case Acquire(exported, accepts) =>
    case Release(index, accepts) =>
    case EndOfSequence =>
    case NewSps(_) =>
  }

  lemma FlushTight(e: Engine, accepts: set<nat>)
    requires Tight(e)
    ensures Tight(FlushEngine(e, accepts)) && FlushEngine(e, accepts).dpb == []
  {
  }

  lemma BumpTight(e: Engine)
    requires Tight(e)
    ensures Tight(BumpEngine(e, true)) && BumpEngine(e, true).dpb == e.dpb
  {
    forall i | 0 <= i < |e.captures|
      ensures Bumped(e.captures, 0)[i].isReference == e.captures[i].isReference
    {
      BumpedFlags(e.captures, 0, i);
    }
  }

  /** Every picture of the run conforms when its turn comes. */
  ghost predicate ConformingRun(e: Engine, events: seq<Event>)
    requires IsRun(e, events)
    decreases |events|
  {
    events != [] ==>
      && (events[0].Decode? ==> Conforming(e, events[0].pic))
      && ConformingRun(Step(e, events[0]).next, events[1..])
  }

  lemma StepKeepsSizes(e: Engine, ev: Event)
    requires Legal(e, ev)
    ensures var next := Step(e, ev).next;
      |next.captures| == |e.captures| && next.reorderDepth == e.reorderDepth
  {
    hide DecodeEffect, Bumped, BumpOrder, BumpFrames;
    if ev.Decode? {
      DecodeKeepsSizes(e, ev.pic, ev.timestamp, ev.outcome, ev.accepts);
    }
  }

  lemma DecodeKeepsSizes(e: Engine, pic: Picture, timestamp: nat, outcome: DriverOutcome, accepts: set<nat>)
    requires LegalOutcome(e, outcome)
    ensures var next := DecodeEffect(e, pic, timestamp, outcome, accepts).next;
      |next.captures| == |e.captures| && next.reorderDepth == e.reorderDepth
  {
    hide StartPicture, AddPicture, CurrentPoc, Bumped, BumpOrder, BumpFrames, QueueIdle;
    StartKeepsCount(e, pic);
    if outcome.Dequeued? {
      var sent := StartPicture(e, pic).(nextTag := e.nextTag + 1);
      AddKeepsDepth(sent, outcome.index, CurrentPoc(e, pic), e.nextTag, timestamp, pic.output);
    }
  }

  lemma {:induction false} RunKeepsPool(e: Engine, events: seq<Event>)
    requires PoolInv(e) && IsRun(e, events) && ConformingRun(e, events)
    ensures var last := RunEngine(e, events);
      PoolInv(last) && |last.captures| == |e.captures| && last.reorderDepth == e.reorderDepth
    decreases |events|
  {
    hide Step, PoolInv, Conforming;
    if events != [] {
      StepKeepsPool(e, events[0]);
      StepKeepsSizes(e, events[0]);
      RunKeepsPool(Step(e, events[0]).next, events[1..]);
    }
  }

  function WithDriver(captures: seq<Capture>): set<nat> {
    set i | 0 <= i < |captures| && captures[i].queued
  }

  function CheckedOut(captures: seq<Capture>): set<nat> {
    set i | 0 <= i < |captures| && captures[i].checkedOut
  }

  function Pending(captures: seq<Capture>): set<nat> {
    set i | 0 <= i < |captures| && captures[i].pendingOutput
  }

  function Members(s: seq<nat>): set<nat> {
    set x | x in s
  }

  lemma {:induction false} MembersBound(s: seq<nat>)
    ensures |Members(s)| <= |s|
  {
    if s != [] {
      var init := s[..|s| - 1];
      MembersBound(init);
      assert Members(s) == Members(init) + {s[|s| - 1]};
    }
  }

  lemma {:induction false} PendingCount(captures: seq<Capture>)
    ensures |Pending(captures)| == |PendingFrames(captures)|
  {
    if captures != [] {
      var init, last := captures[..|captures| - 1], captures[|captures| - 1];
      PendingCount(init);
      var here: set<nat> := if last.pendingOutput then {|captures| - 1} else {};
      assert Pending(captures) == Pending(init) + here;
    }
  }

  /** A buffer in no list, not even the driver's. */
  ghost predicate NoneIdle(e: Engine) {
    forall i :: 0 <= i < |e.captures| ==> InUse(e.captures[i], i in e.ready)
  }

  /** Every buffer is somewhere, so the driver holds what the other lists do not. */
  lemma Pigeonhole(e: Engine)
    requires NoneIdle(e) && Tight(e)
    ensures |WithDriver(e.captures)| + |e.dpb| + |PendingFrames(e.captures)| + |e.ready| + |CheckedOut(e.captures)|
      >= |e.captures|
  {
    var q, d, p := WithDriver(e.captures), Buffers(e.dpb), Pending(e.captures);
    var r, c := Members(e.ready), CheckedOut(e.captures);
    forall i | i in Indices(|e.captures|)
      ensures i in q + d + p + r + c
    {
      assert InUse(e.captures[i], i in e.ready);
    }
    SubsetBound(Indices(|e.captures|), q + d + p + r + c);
    UnionBound(q + d + p + r, c);
    UnionBound(q + d + p, r);
    UnionBound(q + d, p);
    UnionBound(q, d);
    BuffersBound(e.dpb);
    PendingCount(e.captures);
    MembersBound(e.ready);
  }

  lemma {:induction false} BumpedPending(captures: seq<Capture>, limit: nat)
    ensures |PendingFrames(Bumped(captures, limit))| <= limit
    decreases |PendingFrames(captures)|
  {
    if |PendingFrames(captures)| > limit {
      var k := LowestPending(captures).value;
      PendingFramesEmitted(captures, k);
      BumpedPending(Emitted(captures, k), limit);
    }
  }

  /** When QBUF takes every buffer offered, a successful decode leaves none idle. */
  lemma DecodeLeavesNoneIdle(e: Engine, cap: nat, poc: int, tag: nat, timestamp: nat, output: bool, accepts: set<nat>)
    requires cap < |e.captures| && forall i :: 0 <= i < |e.captures| ==> i in accepts
    ensures var next := FinishPicture(e, cap, poc, tag, false, timestamp, output, accepts);
      NoneIdle(next) && |PendingFrames(next.captures)| <= e.reorderDepth && |next.captures| == |e.captures|
  {
    hide AddPicture, Bumped, BumpOrder;
    var added := AddPicture(e, cap, poc, tag, timestamp, output);
    AddKeepsDepth(e, cap, poc, tag, timestamp, output);
    var bumped := BumpEngine(added, false);
    BumpedPending(added.captures, added.reorderDepth);
    var next := FinishPicture(e, cap, poc, tag, false, timestamp, output, accepts);
    StatelessOutput.PendingFramesSame(next.captures, bumped.captures);
  }

  lemma AddKeepsDepth(e: Engine, cap: nat, poc: int, tag: nat, timestamp: nat, output: bool)
    requires cap < |e.captures|
    ensures var added := AddPicture(e, cap, poc, tag, timestamp, output);
      added.reorderDepth == e.reorderDepth && |added.captures| == |e.captures|
  {
  }

  /**
   * No starvation, over any conforming run from configuration: after a
   * successful decode during which QBUF succeeds, the driver holds at least the
   * pool less the DPB bound, the reorder depth, and the frames out for display.
   */
  lemma NoStarvation(poolSize: nat, sps: SpsParams, reorderDepth: nat, offered: set<nat>, events: seq<Event>,
                     pic: Picture, timestamp: nat, cap: nat, accepts: set<nat>)
    requires var start := Configured(poolSize, sps, reorderDepth, offered);
      sps.Valid() && IsRun(start, events) && ConformingRun(start, events)
    requires var e := RunEngine(Configured(poolSize, sps, reorderDepth, offered), events);
      && Conforming(e, pic) && LegalOutcome(e, Dequeued(cap, false))
      && (forall i :: 0 <= i < poolSize ==> i in accepts)
    ensures var e := RunEngine(Configured(poolSize, sps, reorderDepth, offered), events);
      var next := DecodeEffect(e, pic, timestamp, Dequeued(cap, false), accepts).next;
      && PoolInv(next)
      && |WithDriver(next.captures)|
        >= poolSize - (e.sps.maxDecPicBufferingMinus1 + 1) - reorderDepth
          - (|next.ready| + |CheckedOut(next.captures)|)
  {
    var start := Configured(poolSize, sps, reorderDepth, offered);
    ConfiguredPool(poolSize, sps, reorderDepth, offered);
    RunKeepsPool(start, events);
    var e := RunEngine(start, events);
    hide PoolInv, Conforming, Configured;
    DecodeLeavesRest(e, pic, timestamp, cap, accepts);
  }

  /** The count after one conforming decode. */
  lemma DecodeLeavesRest(e: Engine, pic: Picture, timestamp: nat, cap: nat, accepts: set<nat>)
    requires PoolInv(e) && Conforming(e, pic) && LegalOutcome(e, Dequeued(cap, false))
    requires forall i :: 0 <= i < |e.captures| ==> i in accepts
    ensures var next := DecodeEffect(e, pic, timestamp, Dequeued(cap, false), accepts).next;
      && PoolInv(next)
      && |WithDriver(next.captures)|
        >= |e.captures| - (e.sps.maxDecPicBufferingMinus1 + 1) - e.reorderDepth
          - (|next.ready| + |CheckedOut(next.captures)|)
  {
    hide Inv, StartPicture, FinishPicture, NoneIdle, Tight, WithDriver, CheckedOut, PendingFrames, Conforming;
    DecodeKeepsPool(e, pic, timestamp, cap, accepts);
    var sent := StartPicture(e, pic).(nextTag := e.nextTag + 1);
    StartKeepsCount(e, pic);
    DecodeLeavesNoneIdle(sent, cap, CurrentPoc(e, pic), e.nextTag, timestamp, pic.output, accepts);
    Pigeonhole(DecodeEffect(e, pic, timestamp, Dequeued(cap, false), accepts).next);
  }

  lemma StartKeepsCount(e: Engine, pic: Picture)
    ensures |StartPicture(e, pic).captures| == |e.captures| && StartPicture(e, pic).reorderDepth == e.reorderDepth
  {
  }

  lemma ConfiguredPool(poolSize: nat, sps: SpsParams, reorderDepth: nat, accepts: set<nat>)
    requires sps.Valid()
    ensures var e := Configured(poolSize, sps, reorderDepth, accepts);
      PoolInv(e) && |e.captures| == poolSize && e.reorderDepth == reorderDepth
  {
  }
}
