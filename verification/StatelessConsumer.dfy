/**
 * The consumer's side of the CAPTURE pool, told by the calls alone: a buffer
 * is in the consumer's hands from the Acquire that handed it out to its
 * Release, and as long as it is, the engine keeps it away from the driver.
 */
module StatelessConsumer {
  import opened Wrappers
  import opened DpbMachine
  import opened DpbBuffers
  import opened StatelessEngine
  import opened StatelessOwnership
  import StatelessPool

  /** What a call hands out: the front of the ready queue, if it could be exported. */
  function HandedOut(e: Engine, ev: Event): Option<nat> {
    if ev.Acquire? && ev.exported && e.ready != [] then Some(e.ready[0]) else None
  }

  /** The buffers handed out and not released, after one more call; no flag of the engine is asked. */
  function NextHeld(e: Engine, ev: Event, held: set<nat>): set<nat> {
    match ev
    case Acquire(_, _) => if HandedOut(e, ev).Some? then held + {HandedOut(e, ev).value} else held
    case Release(index, _) => held - {index}
    case Decode(_, _, _, _) => held
    case Flush(_) => held
    case Drain => held
    case EndOfSequence => held
    case NewSps(_) => held
  }

  ghost function RunHeld(e: Engine, events: seq<Event>, held: set<nat>): set<nat>
    requires IsRun(e, events)
    decreases |events|
  {
    if events == [] then held
    else RunHeld(Step(e, events[0]).next, events[1..], NextHeld(e, events[0], held))
  }

  /** The engine's own flags say what the history says. */
  ghost predicate FlagsTell(e: Engine, held: set<nat>) {
    forall i: nat :: i in held <==> i < |e.captures| && e.captures[i].checkedOut
  }

  ghost predicate SameCheckOuts(a: seq<Capture>, b: seq<Capture>) {
    |a| == |b| && forall i :: 0 <= i < |a| ==> a[i].checkedOut == b[i].checkedOut
  }

  lemma DecodeKeepsCheckOuts(e: Engine, ev: Event)
    requires ev.Decode? && Legal(e, ev)
    ensures SameCheckOuts(Step(e, ev).next.captures, e.captures)
  {
    hide StartPicture, CurrentPoc, FinishPicture, AddPicture, BumpFrames;
    var started := StartPicture(e, ev.pic);
    StartKeepsCheckOuts(e, ev.pic);
    if ev.outcome.Dequeued? {
      var sent := started.(nextTag := e.nextTag + 1);
      FinishKeepsCheckOuts(sent, ev.outcome.index, CurrentPoc(e, ev.pic), e.nextTag, ev.outcome.error, ev.timestamp,
                           ev.pic.output, ev.accepts);
    }
  }

  lemma StartKeepsCheckOuts(e: Engine, pic: Picture)
    ensures SameCheckOuts(StartPicture(e, pic).captures, e.captures)
  {
    hide DpbKept, NextAnchor, Buffers;
  }

  lemma FinishKeepsCheckOuts(e: Engine, cap: nat, poc: int, tag: nat, error: bool, timestamp: nat, output: bool,
                             accepts: set<nat>)
    requires cap < |e.captures|
    ensures SameCheckOuts(FinishPicture(e, cap, poc, tag, error, timestamp, output, accepts).captures, e.captures)
  {
    hide Trim, Buffers, Bumped, BumpOrder;
    var added := AddPicture(e, cap, poc, tag, timestamp, output);
    forall i | 0 <= i < |added.captures|
      ensures Bumped(added.captures, added.reorderDepth)[i].checkedOut == added.captures[i].checkedOut
    {
      StatelessPool.BumpedFlags(added.captures, added.reorderDepth, i);
    }
  }

  lemma StepFlagsTell(e: Engine, ev: Event, held: set<nat>)
    requires Inv(e) && Legal(e, ev) && FlagsTell(e, held)
    ensures FlagsTell(Step(e, ev).next, NextHeld(e, ev, held))
  {
    hide DecodeEffect, Bumped, BumpOrder, BumpFrames, Buffers;
    match ev
    case Decode(_, _, _, _) => DecodeKeepsCheckOuts(e, ev);
    case Drain =>
      forall i | 0 <= i < |e.captures|
        ensures Bumped(e.captures, 0)[i].checkedOut == e.captures[i].checkedOut
      {
        StatelessPool.BumpedFlags(e.captures, 0, i);
      }
    case Acquire(_, _) => ReadyInPool(e);
    case Release(_, _) =>
    case Flush(_) =>
    case EndOfSequence =>
    case NewSps(_) =>
  }

  lemma ReadyInPool(e: Engine)
    requires Inv(e)
    ensures forall k :: 0 <= k < |e.ready| ==> e.ready[k] < |e.captures|
  {
  }

  lemma {:induction false} RunFlagsTell(e: Engine, events: seq<Event>, held: set<nat>)
    requires Inv(e) && IsRun(e, events) && FlagsTell(e, held)
    ensures FlagsTell(RunEngine(e, events), RunHeld(e, events, held))
    decreases |events|
  {
    hide Step, Inv, FlagsTell, NextHeld;
    if events != [] {
      StepFlagsTell(e, events[0], held);
      StepKeepsInv(e, events[0]);
      RunFlagsTell(Step(e, events[0]).next, events[1..], NextHeld(e, events[0], held));
    }
  }

  /**
   * What the consumer holds is the consumer's: over every run from
   * configuration, a buffer handed out by Acquire and not released since is
   * not with the driver, not ready to be handed out again and not pending,
   * whatever is decoded, flushed or drained meanwhile; and the engine's flags
   * know exactly these buffers.
   */
  lemma HeldBuffersAreSafe(poolSize: nat, sps: SpsParams, reorderDepth: nat, accepts: set<nat>, events: seq<Event>,
                           i: nat)
    requires sps.Valid() && IsRun(Configured(poolSize, sps, reorderDepth, accepts), events)
    ensures var start := Configured(poolSize, sps, reorderDepth, accepts);
      var e, held := RunEngine(start, events), RunHeld(start, events, {});
      && (i in held <==> i < |e.captures| && e.captures[i].checkedOut)
      && (i in held ==> !e.captures[i].queued && i !in e.ready && !e.captures[i].pendingOutput)
  {
    var start := Configured(poolSize, sps, reorderDepth, accepts);
    ConfiguredInv(poolSize, sps, reorderDepth, accepts);
    RunKeepsInv(start, events);
    assert FlagsTell(start, {});
    RunFlagsTell(start, events, {});
    hide RunEngine, RunHeld, Configured;
  }

  // ----- The calls, field by field

  /**
   * Release of a buffer gives it to the driver if QBUF takes it and nothing
   * needs it any more: not a reference, not pending, not ready, not there yet.
   */
  lemma ReleaseGivesBack(e: Engine, index: nat, accepts: set<nat>)
    requires index < |e.captures|
    ensures var c, next := e.captures[index], ReleaseEngine(e, index, accepts);
      && !next.captures[index].checkedOut
      && (next.captures[index].queued <==>
          c.queued || (index in accepts && !c.isReference && !c.pendingOutput && index !in e.ready))
      && next.captures[index].isReference == c.isReference
      && next.captures[index].pendingOutput == c.pendingOutput
      && FrameOf(next.captures[index]) == FrameOf(c)
      && (forall j :: 0 <= j < |e.captures| && j != index ==> next.captures[j] == e.captures[j])
      && |next.captures| == |e.captures| && next == e.(captures := next.captures)
  {
  }

  /** Acquire takes the front of the queue; when the export fails its buffer goes back like a released one. */
  lemma AcquireTakesFront(e: Engine, exported: bool, accepts: set<nat>)
    requires Inv(e) && e.ready != []
    ensures var step, cap := AcquireEffect(e, exported, accepts), e.ready[0];
      var c, d := e.captures[cap], step.next.captures[cap];
      && step.ok == exported && step.taken == [Frame(c.poc, c.timestamp)]
      && step.next.ready == e.ready[1..]
      && d.checkedOut == exported
      && (d.queued <==> !exported && cap in accepts && !c.isReference)
      && d.isReference == c.isReference && !d.pendingOutput
      && (forall j :: 0 <= j < |e.captures| && j != cap ==> step.next.captures[j] == e.captures[j])
      && |step.next.captures| == |e.captures|
      && step.next == e.(captures := step.next.captures, ready := step.next.ready)
  {
    assert e.ready[0] !in e.ready[1..] by {
      assert forall k :: 1 <= k < |e.ready| ==> e.ready[k] != e.ready[0];
    }
  }

  /**
   * Flush: no reference, nothing pending, nothing ready, POC and sequence state
   * as new; every buffer the consumer does not hold is with the driver if it
   * was, or if QBUF takes it; the consumer keeps what it holds.
   */
  lemma FlushLeaves(e: Engine, accepts: set<nat>, i: nat)
    requires i < |e.captures|
    ensures var c, next := e.captures[i], FlushEngine(e, accepts);
      var d := next.captures[i];
      && next.dpb == [] && next.ready == [] && next.anchor == Anchor(0, 0) && !next.seenFirst && !next.eosSeen
      && |next.captures| == |e.captures|
      && next.nextTag == e.nextTag && next.sps == e.sps && next.reorderDepth == e.reorderDepth
      && !d.pendingOutput && d.checkedOut == c.checkedOut
      && (d.isReference <==> c.isReference && forall j :: 0 <= j < |e.dpb| ==> e.dpb[j].buffer != i)
      && (d.queued <==> c.queued || (!c.checkedOut && i in accepts))
  {
    if i in Buffers(e.dpb) {
      var r :| r in e.dpb && r.buffer == i;
    }
    assert forall j :: 0 <= j < |e.dpb| ==> e.dpb[j] in e.dpb;
  }

  /** The frame that a call decodes for output: a successful picture's, with its POC and timestamp. */
  lemma DecodedFrames(e: Engine, ev: Event)
    requires Legal(e, ev)
    ensures Step(e, ev).decoded
      == if ev.Decode? && ev.outcome.Dequeued? && !ev.outcome.error && ev.pic.output
         then [Frame(CurrentPoc(e, ev.pic), ev.timestamp)] else []
  {
    hide StartPicture, FinishPicture, AddPicture, CurrentPoc, BumpFrames, Bumped, BumpOrder;
  }

  // ----- What a decode leaves

  /** The buffer is in the DPB, but in none of its entries kept. */
  ghost predicate Left(dpb: seq<RefPic>, kept: seq<RefPic>, i: nat) {
    && (exists j :: 0 <= j < |dpb| && dpb[j].buffer == i)
    && (forall j :: 0 <= j < |kept| ==> kept[j].buffer != i)
  }

  lemma LeftIff(dpb: seq<RefPic>, kept: seq<RefPic>, i: nat)
    ensures i in Buffers(dpb) - Buffers(kept) <==> Left(dpb, kept, i)
  {
    if i in Buffers(dpb) {
      var r :| r in dpb && r.buffer == i;
      var j :| 0 <= j < |dpb| && dpb[j] == r;
    }
    if i in Buffers(kept) {
      var r :| r in kept && r.buffer == i;
      var j :| 0 <= j < |kept| && kept[j] == r;
    }
    assert forall j :: 0 <= j < |dpb| ==> dpb[j] in dpb;
    assert forall j :: 0 <= j < |kept| ==> kept[j] in kept;
  }

  /**
   * A decode that fails: the DPB is what the set keeps, only the buffers that
   * left it lost their flag, no frame moved, and a buffer that came back with
   * an error is offered to the driver again; the tag is spent once a request
   * was made.
   */
  lemma FailureLeaves(e: Engine, ev: Event, i: nat)
    requires Legal(e, ev) && ev.Decode? && !Step(e, ev).ok && i < |e.captures|
    ensures var next, kept := Step(e, ev).next, DpbKept(e, ev.pic);
      && |next.captures| == |e.captures| && Step(e, ev).decoded == Step(e, ev).emitted == []
      && var c, d := e.captures[i], next.captures[i];
      && next.dpb == kept && next.ready == e.ready && next.seenFirst && !next.eosSeen
      && next.sps == e.sps && next.reorderDepth == e.reorderDepth
      && next.nextTag == (if ev.outcome == NoOutputBuffer then e.nextTag else e.nextTag + 1)
      && (d.isReference <==> c.isReference && !Left(e.dpb, kept, i))
      && d.pendingOutput == c.pendingOutput && d.checkedOut == c.checkedOut && FrameOf(d) == FrameOf(c)
      && (d.queued <==> if ev.outcome.Dequeued? && ev.outcome.index == i then i in ev.accepts else c.queued)
  {
    hide DpbKept, StartPicture, CurrentPoc, AddPicture, BumpEngine, BumpFrames, Left, QueueIdle;
    StartFields(e, ev.pic);
    StartBuffer(e, ev.pic, i);
  }

  lemma StartBuffer(e: Engine, pic: Picture, i: nat)
    requires i < |e.captures|
    ensures |StartPicture(e, pic).captures| == |e.captures|
    ensures StartPicture(e, pic).captures[i]
      == e.captures[i].(isReference := e.captures[i].isReference && !Left(e.dpb, DpbKept(e, pic), i))
  {
    hide DpbKept, Buffers, NextAnchor, CurrentPoc, Left;
    LeftIff(e.dpb, DpbKept(e, pic), i);
  }

  /**
   * A decode that succeeds: the buffer that came back holds the picture, with
   * its POC and timestamp, as a reference and as nobody else's; its entry, with
   * the tag the request carried, is the newest of the DPB if it has room.
   */
  lemma SuccessLeaves(e: Engine, ev: Event)
    requires Inv(e) && Legal(e, ev) && ev.Decode? && ev.outcome.Dequeued? && !ev.outcome.error
    ensures var next, kept, cap := Step(e, ev).next, DpbKept(e, ev.pic), ev.outcome.index;
      && |next.captures| == |e.captures| && Step(e, ev).ok
      && var d := next.captures[cap];
      && next.nextTag == e.nextTag + 1 && next.sps == e.sps && next.reorderDepth == e.reorderDepth
      && !d.queued && d.isReference && !d.checkedOut
      && d.poc == CurrentPoc(e, ev.pic) && d.timestamp == ev.timestamp
      && (ev.pic.output <==> d.pendingOutput || cap in next.ready)
      && (|kept| < e.sps.maxDecPicBufferingMinus1 + 1 ==>
          next.dpb == kept + [RefPic(CurrentPoc(e, ev.pic), cap, e.nextTag)])
  {
    hide StartPicture, FinishPicture, DpbKept, CurrentPoc, BumpFrames, AddPicture, Inv;
    StartFields(e, ev.pic);
    StartKeepsCheckOuts(e, ev.pic);
    QueuedIsFree(e, ev.outcome.index);
    FinishedBuffer(StartPicture(e, ev.pic).(nextTag := e.nextTag + 1), ev.outcome.index, CurrentPoc(e, ev.pic),
                   e.nextTag, ev.timestamp, ev.pic.output, ev.accepts);
  }

  lemma QueuedIsFree(e: Engine, cap: nat)
    requires Inv(e) && cap < |e.captures| && e.captures[cap].queued
    ensures !e.captures[cap].checkedOut && cap !in e.ready
  {
  }

  lemma StartFields(e: Engine, pic: Picture)
    ensures var s := StartPicture(e, pic);
      && s.dpb == DpbKept(e, pic) && s.ready == e.ready && s.sps == e.sps && s.reorderDepth == e.reorderDepth
      && s.nextTag == e.nextTag && s.seenFirst && !s.eosSeen
      && |s.captures| == |e.captures|
  {
    hide DpbKept, NextAnchor, Buffers;
  }

  lemma FinishedBuffer(e: Engine, cap: nat, poc: int, tag: nat, timestamp: nat, output: bool, accepts: set<nat>)
    requires cap < |e.captures| && !e.captures[cap].checkedOut && cap !in e.ready
    ensures var next := FinishPicture(e, cap, poc, tag, false, timestamp, output, accepts);
      && |next.captures| == |e.captures|
      && var d := next.captures[cap];
      && next.nextTag == e.nextTag && next.sps == e.sps && next.reorderDepth == e.reorderDepth
      && !d.queued && d.isReference && !d.checkedOut && d.poc == poc && d.timestamp == timestamp
      && (output <==> d.pendingOutput || cap in next.ready)
      && (|e.dpb| < e.sps.maxDecPicBufferingMinus1 + 1 ==> next.dpb == e.dpb + [RefPic(poc, cap, tag)])
  {
    hide Buffers, Bumped, BumpOrder;
    var added := AddPicture(e, cap, poc, tag, timestamp, output);
    StatelessPool.BumpedFlags(added.captures, added.reorderDepth, cap);
    BumpMoves(added.captures, added.reorderDepth, cap);
  }

  /** Bumping moves a pending frame from its buffer to the queue, or leaves it. */
  lemma {:induction false} BumpMoves(captures: seq<Capture>, limit: nat, i: nat)
    requires i < |captures|
    ensures captures[i].pendingOutput <==> Bumped(captures, limit)[i].pendingOutput || i in BumpOrder(captures, limit)
    ensures Bumped(captures, limit)[i].poc == captures[i].poc
      && Bumped(captures, limit)[i].timestamp == captures[i].timestamp
    decreases |PendingFrames(captures)|
  {
    hide LowestPending, PendingFrames;
    if |PendingFrames(captures)| > limit {
      BumpOnce([], captures, limit);
      var k := LowestPending(captures).value;
      assert [] + BumpOrder(captures, limit) == BumpOrder(captures, limit);
      assert [] + [k] + BumpOrder(Emitted(captures, k), limit) == [k] + BumpOrder(Emitted(captures, k), limit);
      BumpMoves(Emitted(captures, k), limit, i);
    }
  }
}
