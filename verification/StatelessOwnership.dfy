/**
 * Who holds which CAPTURE buffer. One pool serves the driver, the reference
 * list, the frames held back, the ready queue and the consumer; the invariant
 * says which of these may overlap, and every call keeps it.
 */
module StatelessOwnership {
  import opened DpbMachine
  import opened DpbBuffers
  import opened StatelessEngine

  /** A buffer with the driver is nobody else's; output stages are exclusive. */
  ghost predicate CapturesOwned(captures: seq<Capture>) {
    forall i :: 0 <= i < |captures| ==>
      && (captures[i].queued ==> !captures[i].checkedOut && !captures[i].pendingOutput)
      && (captures[i].pendingOutput ==> !captures[i].checkedOut)
  }

  ghost predicate DpbOwned(dpb: seq<RefPic>, captures: seq<Capture>) {
    && (forall j :: 0 <= j < |dpb| ==>
        && dpb[j].buffer < |captures|
        && captures[dpb[j].buffer].isReference
        && !captures[dpb[j].buffer].queued)
    && (forall j, k :: 0 <= j < k < |dpb| ==> dpb[j].buffer != dpb[k].buffer)
  }

  ghost predicate ReadyOwned(ready: seq<nat>, captures: seq<Capture>) {
    && (forall j :: 0 <= j < |ready| ==>
        && ready[j] < |captures|
        && !captures[ready[j]].queued
        && !captures[ready[j]].checkedOut
        && !captures[ready[j]].pendingOutput)
    && (forall j, k :: 0 <= j < k < |ready| ==> ready[j] != ready[k])
  }

  /** Tags grow along the DPB and are all spent, so a tag names one reference. */
  ghost predicate TagsOrdered(dpb: seq<RefPic>, nextTag: nat) {
    && (forall j, k :: 0 <= j < k < |dpb| ==> dpb[j].tag < dpb[k].tag)
    && (forall j :: 0 <= j < |dpb| ==> 0 < dpb[j].tag < nextTag)
  }

  ghost predicate Inv(e: Engine) {
    && CapturesOwned(e.captures)
    && DpbOwned(e.dpb, e.captures)
    && ReadyOwned(e.ready, e.captures)
    && TagsOrdered(e.dpb, e.nextTag) && e.nextTag > 0
    && |e.dpb| <= MAX_DPB
    && e.sps.Valid()
  }

  // ----- The DPB functions take entries away and keep the order of the rest

  ghost predicate Ordered(dpb: seq<RefPic>) {
    && (forall j, k :: 0 <= j < k < |dpb| ==> dpb[j].tag < dpb[k].tag)
    && (forall j, k :: 0 <= j < k < |dpb| ==> dpb[j].buffer != dpb[k].buffer)
  }

  lemma {:induction false} EvictOrdered(dpb: seq<RefPic>, kept: seq<int>)
    requires Ordered(dpb)
    ensures Ordered(Evict(dpb, kept)) && Subset(Evict(dpb, kept), dpb) && |Evict(dpb, kept)| <= |dpb|
  {
    if dpb != [] {
      var init, last := dpb[..|dpb| - 1], dpb[|dpb| - 1];
      EvictOrdered(init, kept);
      var left := Evict(init, kept);
      forall j | 0 <= j < |left|
        ensures left[j].tag < last.tag && left[j].buffer != last.buffer
      {
        assert left[j] in init;
      }
    }
  }

  lemma WithoutOrdered(dpb: seq<RefPic>, k: nat)
    requires Ordered(dpb) && k < |dpb|
    ensures Ordered(Without(dpb, k)) && Subset(Without(dpb, k), dpb)
  {
  }

  lemma {:induction false} TrimOrdered(dpb: seq<RefPic>, max: nat)
    requires Ordered(dpb)
    ensures Ordered(Trim(dpb, max)) && Subset(Trim(dpb, max), dpb)
    decreases |dpb|
  {
    if |dpb| > max {
      WithoutOrdered(dpb, Lowest(dpb));
      TrimOrdered(Without(dpb, Lowest(dpb)), max);
    }
  }

  // ----- Each part of a picture step keeps the invariant

  ghost predicate Owned(captures: seq<Capture>, ready: seq<nat>, dpb: seq<RefPic>) {
    CapturesOwned(captures) && ReadyOwned(ready, captures) && DpbOwned(dpb, captures)
  }

  /** Taking entries off the DPB and clearing the flags of buffers that left. */
  lemma ShrinkKeepsOwned(captures: seq<Capture>, ready: seq<nat>, dpb: seq<RefPic>, left: seq<RefPic>, gone: set<nat>)
    requires Owned(captures, ready, dpb) && Ordered(left) && Subset(left, dpb) && gone !! Buffers(left)
    ensures Owned(Unreferenced(captures, gone), ready, left)
  {
    forall j | 0 <= j < |left|
      ensures left[j] in dpb && left[j].buffer in Buffers(left)
    {
      assert left[j] in left;
    }
  }

  lemma StartKeepsInv(e: Engine, pic: Picture)
    requires Inv(e)
    ensures Inv(StartPicture(e, pic))
  {
    var atStart := DpbAtStart(e, pic);
    assert Ordered(atStart);
    EvictOrdered(atStart, RpsAtStart(e, pic).kept);
    var left := DpbKept(e, pic);
    ShrinkKeepsOwned(e.captures, e.ready, e.dpb, left, Buffers(e.dpb) - Buffers(left));
    assert forall j :: 0 <= j < |left| ==> left[j] in e.dpb;
  }

  /** The dequeued buffer was nobody else's, so it can join every list at once. */
  lemma DecodedKeepsOwned(captures: seq<Capture>, ready: seq<nat>, dpb: seq<RefPic>, newest: RefPic,
                          timestamp: nat, output: bool)
    requires Owned(captures, ready, dpb) && newest.buffer < |captures| && captures[newest.buffer].queued
    ensures var cap := newest.buffer;
      Owned(captures[cap := Decoded(captures[cap], newest.poc, timestamp, output)], ready, dpb + [newest])
  {
  }

  lemma AddKeepsInv(e: Engine, cap: nat, poc: int, tag: nat, timestamp: nat, output: bool)
    requires Inv(e) && cap < |e.captures| && e.captures[cap].queued && tag + 1 == e.nextTag
    requires forall j :: 0 <= j < |e.dpb| ==> e.dpb[j].tag < tag
    requires tag > 0
    ensures Inv(AddPicture(e, cap, poc, tag, timestamp, output))
  {
    hide Trim, Buffers, CapturesOwned, DpbOwned, ReadyOwned;
    var newest := RefPic(poc, cap, tag);
    var all := e.dpb + [newest];
    DecodedKeepsOwned(e.captures, e.ready, e.dpb, newest, timestamp, output);
    JoinOrdered(e, newest);
    TrimOrdered(all, e.sps.MaxDpb());
    var kept := Trim(all, e.sps.MaxDpb());
    var decoded := e.captures[cap := Decoded(e.captures[cap], poc, timestamp, output)];
    var gone := Buffers(all) - Buffers(kept) - {cap};
    ShrinkKeepsOwned(decoded, e.ready, all, kept, gone);
    assert Unreferenced(decoded, gone) == AddPicture(e, cap, poc, tag, timestamp, output).captures;
    assert forall j :: 0 <= j < |kept| ==> kept[j] in all;
  }

  lemma JoinOrdered(e: Engine, newest: RefPic)
    requires Inv(e) && newest.buffer < |e.captures| && e.captures[newest.buffer].queued
    requires forall j :: 0 <= j < |e.dpb| ==> e.dpb[j].tag < newest.tag
    ensures Ordered(e.dpb + [newest])
  {
  }

  lemma EmitKeepsInv(captures: seq<Capture>, ready: seq<nat>, dpb: seq<RefPic>, k: nat)
    requires Owned(captures, ready, dpb)
    requires k < |captures| && captures[k].pendingOutput
    ensures Owned(Emitted(captures, k), ready + [k], dpb)
  {
  }

  lemma {:induction false} BumpKeepsInv(captures: seq<Capture>, ready: seq<nat>, dpb: seq<RefPic>, limit: nat)
    requires Owned(captures, ready, dpb)
    ensures Owned(Bumped(captures, limit), ready + BumpOrder(captures, limit), dpb)
    decreases |PendingFrames(captures)|
  {
    if |PendingFrames(captures)| > limit {
      hide Owned, Bumped, BumpOrder, Emitted, PendingFrames;
      BumpOnce(ready, captures, limit);
      var k := LowestPending(captures).value;
      EmitKeepsInv(captures, ready, dpb, k);
      BumpKeepsInv(Emitted(captures, k), ready + [k], dpb, limit);
    } else {
      assert ready + [] == ready;
    }
  }

  lemma QueueIdleKeepsInv(e: Engine, accepts: set<nat>)
    requires Inv(e)
    ensures Inv(e.(captures := QueueIdle(e.captures, e.ready, accepts)))
  {
    var after := QueueIdle(e.captures, e.ready, accepts);
    forall j | 0 <= j < |e.ready|
      ensures after[e.ready[j]] == e.captures[e.ready[j]]
    {
      assert e.ready[j] in e.ready;
    }
  }

  lemma FinishKeepsInv(e: Engine, cap: nat, poc: int, tag: nat, error: bool, timestamp: nat, output: bool,
                       accepts: set<nat>)
    requires Inv(e) && cap < |e.captures| && e.captures[cap].queued && 0 < tag == e.nextTag - 1
    requires forall j :: 0 <= j < |e.dpb| ==> e.dpb[j].tag < tag
    ensures Inv(FinishPicture(e, cap, poc, tag, error, timestamp, output, accepts))
  {
    if error {
      RequeueKeepsInv(e, cap, accepts);
    } else {
      AddKeepsInv(e, cap, poc, tag, timestamp, output);
      var added := AddPicture(e, cap, poc, tag, timestamp, output);
      hide AddPicture, CapturesOwned, ReadyOwned, DpbOwned, TagsOrdered, Bumped, BumpOrder;
      BumpKeepsInv(added.captures, added.ready, added.dpb, added.reorderDepth);
      QueueIdleKeepsInv(BumpEngine(added, false), accepts);
    }
  }

  lemma SpendTag(e: Engine)
    requires Inv(e)
    ensures e.nextTag > 0 && Inv(e.(nextTag := e.nextTag + 1))
    ensures forall j :: 0 <= j < |e.dpb| ==> e.dpb[j].tag < e.nextTag
  {
    hide CapturesOwned, ReadyOwned, DpbOwned;
  }

  lemma StartKeepsQueue(e: Engine, pic: Picture)
    ensures var started := StartPicture(e, pic);
      && started.nextTag == e.nextTag && |started.captures| == |e.captures|
      && forall i :: 0 <= i < |e.captures| ==> started.captures[i].queued == e.captures[i].queued
  {
    hide DpbKept, Buffers, NextAnchor;
  }

  lemma LegalQueued(e: Engine, outcome: DriverOutcome)
    requires LegalOutcome(e, outcome)
    ensures outcome.Dequeued? ==> outcome.index < |e.captures| && e.captures[outcome.index].queued
  {
  }

  /** What the started picture keeps for its dequeued buffer. */
  lemma StartedSent(e: Engine, pic: Picture, outcome: DriverOutcome)
    requires Inv(e) && LegalOutcome(e, outcome)
    ensures var sent := StartPicture(e, pic).(nextTag := e.nextTag + 1);
      && Inv(StartPicture(e, pic)) && Inv(sent) && e.nextTag > 0
      && (outcome.Dequeued? ==> outcome.index < |sent.captures| && sent.captures[outcome.index].queued)
      && forall j :: 0 <= j < |sent.dpb| ==> sent.dpb[j].tag < e.nextTag
  {
    hide *;
    LegalQueued(e, outcome);
    StartKeepsInv(e, pic);
    StartKeepsQueue(e, pic);
    SpendTag(StartPicture(e, pic));
  }

  lemma DecodedEngine(e: Engine, pic: Picture, timestamp: nat, outcome: DriverOutcome, accepts: set<nat>)
    requires LegalOutcome(e, outcome)
    ensures var started, next := StartPicture(e, pic), DecodeEffect(e, pic, timestamp, outcome, accepts).next;
      var sent := started.(nextTag := e.nextTag + 1);
      && (outcome == NoOutputBuffer ==> next == started)
      && (outcome == RequestFailed ==> next == sent)
      && (outcome.Dequeued? ==>
          && outcome.index < |sent.captures|
          && next == FinishPicture(sent, outcome.index, CurrentPoc(e, pic), e.nextTag, outcome.error, timestamp,
                                   pic.output, accepts))
  {
    hide StartPicture, FinishPicture, AddPicture, BumpFrames, CurrentPoc;
    StartKeepsQueue(e, pic);
  }

  lemma DecodeKeepsInv(e: Engine, pic: Picture, timestamp: nat, outcome: DriverOutcome, accepts: set<nat>)
    requires Inv(e) && LegalOutcome(e, outcome)
    ensures Inv(DecodeEffect(e, pic, timestamp, outcome, accepts).next)
  {
    hide *;
    StartedSent(e, pic, outcome);
    DecodedEngine(e, pic, timestamp, outcome, accepts);
    if outcome.Dequeued? {
      FinishKeepsInv(StartPicture(e, pic).(nextTag := e.nextTag + 1), outcome.index, CurrentPoc(e, pic), e.nextTag,
                     outcome.error, timestamp, pic.output, accepts);
    }
  }

  lemma RequeueKeepsInv(e: Engine, cap: nat, accepts: set<nat>)
    requires Inv(e) && cap < |e.captures| && e.captures[cap].queued
    ensures Inv(e.(captures := e.captures[cap := Queued(e.captures[cap].(queued := false), cap in accepts)]))
  {
  }

  // ----- The other calls

  lemma AcquireKeepsInv(e: Engine, exported: bool, accepts: set<nat>)
    requires Inv(e)
    ensures Inv(AcquireEffect(e, exported, accepts).next)
  {
    if e.ready != [] {
      var cap := e.ready[0];
      assert forall j :: 0 <= j < |e.ready| - 1 ==> e.ready[1..][j] == e.ready[j + 1];
      assert cap !in e.ready[1..];
    }
  }

  lemma ReleaseKeepsInv(e: Engine, index: nat, accepts: set<nat>)
    requires Inv(e)
    ensures Inv(ReleaseEngine(e, index, accepts))
  {
    assert forall j :: 0 <= j < |e.ready| ==> e.ready[j] in e.ready;
  }

  lemma FlushKeepsInv(e: Engine, accepts: set<nat>)
    requires Inv(e)
    ensures Inv(FlushEngine(e, accepts))
  {
  }

  /** Every call, whatever the driver answers and whatever the consumer releases. */
  lemma StepKeepsInv(e: Engine, ev: Event)
    requires Inv(e) && Legal(e, ev)
    ensures Inv(Step(e, ev).next)
  {
    match ev
    case Decode(pic, timestamp, outcome, accepts) => DecodeKeepsInv(e, pic, timestamp, outcome, accepts);
    case Acquire(exported, accepts) => AcquireKeepsInv(e, exported, accepts);
    case Release(index, accepts) => ReleaseKeepsInv(e, index, accepts);
    case Flush(accepts) => FlushKeepsInv(e, accepts);
    case Drain => BumpKeepsInv(e.captures, e.ready, e.dpb, 0);
    case EndOfSequence =>
    case NewSps(_) =>
  }

  lemma ConfiguredInv(poolSize: nat, sps: SpsParams, reorderDepth: nat, accepts: set<nat>)
    requires sps.Valid()
    ensures Inv(Configured(poolSize, sps, reorderDepth, accepts))
  {
  }

  // ----- Runs

  /** Some sequence of calls leads from `e` to the last state. */
  ghost predicate IsRun(e: Engine, events: seq<Event>)
    decreases |events|
  {
    events != [] ==> Legal(e, events[0]) && IsRun(Step(e, events[0]).next, events[1..])
  }

  ghost function RunEngine(e: Engine, events: seq<Event>): Engine
    requires IsRun(e, events)
    decreases |events|
  {
    if events == [] then e else RunEngine(Step(e, events[0]).next, events[1..])
  }

  lemma {:induction false} RunKeepsInv(e: Engine, events: seq<Event>)
    requires Inv(e) && IsRun(e, events)
    ensures Inv(RunEngine(e, events))
    decreases |events|
  {
    hide Step;
    if events != [] {
      StepKeepsInv(e, events[0]);
      RunKeepsInv(Step(e, events[0]).next, events[1..]);
    }
  }

  /**
   * Buffer ownership over every run of the decoder: a buffer with the driver
   * is in none of the engine's lists, and no list holds a buffer twice.
   */
  lemma OwnershipOverRuns(poolSize: nat, sps: SpsParams, reorderDepth: nat, accepts: set<nat>, events: seq<Event>)
    requires sps.Valid() && IsRun(Configured(poolSize, sps, reorderDepth, accepts), events)
    ensures var e := RunEngine(Configured(poolSize, sps, reorderDepth, accepts), events);
      && (forall i :: 0 <= i < |e.captures| && e.captures[i].queued ==>
          && i !in Buffers(e.dpb) && i !in e.ready
          && !e.captures[i].pendingOutput && !e.captures[i].checkedOut)
      && (forall i :: 0 <= i < |e.captures| && e.captures[i].checkedOut ==>
          i !in e.ready && !e.captures[i].pendingOutput)
      && (forall j, k :: 0 <= j < k < |e.dpb| ==> e.dpb[j].buffer != e.dpb[k].buffer && e.dpb[j].tag != e.dpb[k].tag)
      && (forall j, k :: 0 <= j < k < |e.ready| ==> e.ready[j] != e.ready[k])
  {
    ConfiguredInv(poolSize, sps, reorderDepth, accepts);
    RunKeepsInv(Configured(poolSize, sps, reorderDepth, accepts), events);
  }
}
