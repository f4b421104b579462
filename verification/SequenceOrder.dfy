/**
 * Output across coded video sequences. Nothing is bumped out where a new
 * sequence restarts the POC, so the frames of two sequences can meet in the
 * bumping process, which knows only their POCs. These lemmas say exactly when
 * the frames still come out by sequence, and by POC within each.
 */
module SequenceOrder {
  import opened Wrappers
  import opened Sequences
  import opened NalTypes
  import opened DpbMachine
  import opened DpbBuffers
  import opened StatelessEngine
  import opened StatelessOwnership
  import opened StatelessOutput
  import StatelessPool

  /** Display order: the sequence of a frame, told by its timestamp, and then its POC. */
  predicate Before(f: Frame, g: Frame, seqOf: nat -> int) {
    seqOf(f.timestamp) < seqOf(g.timestamp) || (seqOf(f.timestamp) == seqOf(g.timestamp) && f.poc < g.poc)
  }

  predicate InDisplayOrder(fs: seq<Frame>, seqOf: nat -> int) {
    forall i, j :: 0 <= i < j < |fs| ==> !Before(fs[j], fs[i], seqOf)
  }

  /** No frame comes after one that is out already. */
  predicate NoneBefore(f: Frame, out: seq<Frame>, seqOf: nat -> int) {
    forall k :: 0 <= k < |out| ==> !Before(f, out[k], seqOf)
  }

  /** The bumping process takes the frame of POC p in buffer i before that of POC q in buffer j. */
  predicate TakenFirst(p: int, i: nat, q: int, j: nat) {
    p < q || (p == q && i < j)
  }

  /** What is out is in order, nothing pending belongs before it, and the bumping process agrees on the rest. */
  predicate OnCourse(out: seq<Frame>, captures: seq<Capture>, seqOf: nat -> int) {
    && InDisplayOrder(out, seqOf)
    && (forall i :: 0 <= i < |captures| && captures[i].pendingOutput ==> NoneBefore(FrameOf(captures[i]), out, seqOf))
    && (forall i, j ::
        0 <= i < |captures| && 0 <= j < |captures| && captures[i].pendingOutput && captures[j].pendingOutput ==>
          (Before(FrameOf(captures[i]), FrameOf(captures[j]), seqOf) ==>
            TakenFirst(captures[i].poc, i, captures[j].poc, j)))
  }

  // ----- One emission

  lemma {:induction false} LowestIsFirst(captures: seq<Capture>, i: nat)
    requires i < |captures| && captures[i].pendingOutput && LowestPending(captures) != Some(i)
    ensures var k := LowestPending(captures);
      k.Some? && TakenFirst(captures[k.value].poc, k.value, captures[i].poc, i)
  {
    var init := captures[..|captures| - 1];
    if i < |init| && LowestPending(init) != Some(i) {
      LowestIsFirst(init, i);
    }
  }

  lemma DisplaySnoc(out: seq<Frame>, f: Frame, seqOf: nat -> int)
    ensures InDisplayOrder(out + [f], seqOf) <==> InDisplayOrder(out, seqOf) && NoneBefore(f, out, seqOf)
  {
    var all := out + [f];
    if InDisplayOrder(all, seqOf) {
      forall i, j | 0 <= i < j < |out|
        ensures !Before(out[j], out[i], seqOf)
      {
        assert all[i] == out[i] && all[j] == out[j];
      }
      forall k | 0 <= k < |out|
        ensures !Before(f, out[k], seqOf)
      {
        assert all[k] == out[k] && all[|out|] == f;
      }
    }
  }

  lemma NoneBeforeSnoc(f: Frame, out: seq<Frame>, g: Frame, seqOf: nat -> int)
    ensures NoneBefore(f, out + [g], seqOf) <==> NoneBefore(f, out, seqOf) && !Before(f, g, seqOf)
  {
    assert (out + [g])[|out|] == g;
    assert forall k :: 0 <= k < |out| ==> (out + [g])[k] == out[k];
  }

  /** Taking the lowest POC neither spoils nor mends the order to come. */
  lemma EmissionKeepsCourse(out: seq<Frame>, captures: seq<Capture>, k: nat, seqOf: nat -> int)
    requires LowestPending(captures) == Some(k)
    ensures OnCourse(out, captures, seqOf)
      <==> OnCourse(out + [FrameOf(captures[k])], Emitted(captures, k), seqOf)
  {
    hide InDisplayOrder, NoneBefore, LowestPending;
    var f, after := FrameOf(captures[k]), Emitted(captures, k);
    DisplaySnoc(out, f, seqOf);
    forall i | 0 <= i < |captures| && captures[i].pendingOutput
      ensures NoneBefore(FrameOf(captures[i]), out + [f], seqOf)
        <==> NoneBefore(FrameOf(captures[i]), out, seqOf) && !Before(FrameOf(captures[i]), f, seqOf)
      ensures i != k ==> TakenFirst(captures[k].poc, k, captures[i].poc, i)
    {
      NoneBeforeSnoc(FrameOf(captures[i]), out, f, seqOf);
      if i != k {
        LowestIsFirst(captures, i);
      }
    }
    assert forall i :: 0 <= i < |captures| && i != k ==> after[i] == captures[i];
  }

  lemma {:induction false} BumpKeepsCourse(out: seq<Frame>, captures: seq<Capture>, limit: nat, seqOf: nat -> int)
    ensures OnCourse(out, captures, seqOf)
      <==> OnCourse(out + BumpOut(captures, limit), Bumped(captures, limit), seqOf)
    decreases |PendingFrames(captures)|
  {
    hide OnCourse;
    if |PendingFrames(captures)| <= limit {
      assert out + BumpOut(captures, limit) == out;
    } else {
      var k := LowestPending(captures).value;
      BumpUnfold(captures, limit);
      PendingFramesEmitted(captures, k);
      EmissionKeepsCourse(out, captures, k, seqOf);
      BumpKeepsCourse(out + [FrameOf(captures[k])], Emitted(captures, k), limit, seqOf);
      ConcatAssoc(out, [FrameOf(captures[k])], BumpOut(Emitted(captures, k), limit));
    }
  }

  // ----- One arrival

  ghost predicate SamePending(a: seq<Capture>, b: seq<Capture>) {
    && |a| == |b|
    && forall i :: 0 <= i < |a| ==>
      a[i].pendingOutput == b[i].pendingOutput && (a[i].pendingOutput ==> FrameOf(a[i]) == FrameOf(b[i]))
  }

  lemma SameCourse(out: seq<Frame>, a: seq<Capture>, b: seq<Capture>, seqOf: nat -> int)
    requires SamePending(a, b)
    ensures OnCourse(out, a, seqOf) <==> OnCourse(out, b, seqOf)
  {
    hide InDisplayOrder, NoneBefore;
    assert forall i :: 0 <= i < |a| && a[i].pendingOutput ==> a[i].poc == FrameOf(a[i]).poc && b[i].poc == a[i].poc;
  }

  /**
   * The new frame is not late, and the bumping process will take it and every
   * pending frame in display order: none of an earlier sequence has a higher
   * POC, none of a later one a lower.
   */
  predicate ArrivesInOrder(out: seq<Frame>, captures: seq<Capture>, cap: nat, f: Frame, seqOf: nat -> int) {
    && NoneBefore(f, out, seqOf)
    && forall i :: 0 <= i < |captures| && captures[i].pendingOutput ==>
      && (Before(FrameOf(captures[i]), f, seqOf) ==> TakenFirst(captures[i].poc, i, f.poc, cap))
      && (Before(f, FrameOf(captures[i]), seqOf) ==> TakenFirst(f.poc, cap, captures[i].poc, i))
  }

  lemma ArrivalOnCourse(out: seq<Frame>, captures: seq<Capture>, cap: nat, c: Capture, seqOf: nat -> int)
    requires cap < |captures| && !captures[cap].pendingOutput && c.pendingOutput
    ensures OnCourse(out, captures[cap := c], seqOf)
      <==> OnCourse(out, captures, seqOf) && ArrivesInOrder(out, captures, cap, FrameOf(c), seqOf)
  {
    hide InDisplayOrder, NoneBefore;
    var after := captures[cap := c];
    assert forall i :: 0 <= i < |captures| && i != cap ==> after[i] == captures[i];
    assert after[cap] == c;
  }

  /** What a call asks of the order: that a frame decoded for output arrives in order. */
  ghost predicate CallInOrder(out: seq<Frame>, e: Engine, ev: Event, seqOf: nat -> int)
    requires Legal(e, ev)
  {
    ev.Decode? && Step(e, ev).decoded != [] ==>
      ArrivesInOrder(out, e.captures, ev.outcome.index, Step(e, ev).decoded[0], seqOf)
  }

  lemma StartSamePending(e: Engine, pic: Picture)
    ensures SamePending(StartPicture(e, pic).captures, e.captures)
  {
    hide DpbKept, NextAnchor;
  }

  lemma AddedSamePending(e: Engine, cap: nat, poc: int, tag: nat, timestamp: nat, output: bool)
    requires cap < |e.captures| && !e.captures[cap].pendingOutput
    ensures var added := AddPicture(e, cap, poc, tag, timestamp, output);
      if output then
        SamePending(added.captures, e.captures[cap := Decoded(e.captures[cap], poc, timestamp, true)])
      else SamePending(added.captures, e.captures)
  {
    hide Trim, Buffers;
  }

  lemma FinishKeepsCourse(out: seq<Frame>, e: Engine, cap: nat, poc: int, tag: nat, timestamp: nat, output: bool,
                          accepts: set<nat>, seqOf: nat -> int)
    requires cap < |e.captures| && !e.captures[cap].pendingOutput
    ensures var added, next := AddPicture(e, cap, poc, tag, timestamp, output),
                FinishPicture(e, cap, poc, tag, false, timestamp, output, accepts);
      OnCourse(out + BumpFrames(added, false), next.captures, seqOf) <==>
        && OnCourse(out, e.captures, seqOf)
        && (output ==> ArrivesInOrder(out, e.captures, cap, Frame(poc, timestamp), seqOf))
  {
    hide AddPicture, OnCourse, Bumped, BumpOrder, ArrivesInOrder, SamePending, FinishPicture;
    var added := AddPicture(e, cap, poc, tag, timestamp, output);
    var next := FinishPicture(e, cap, poc, tag, false, timestamp, output, accepts);
    AddedSamePending(e, cap, poc, tag, timestamp, output);
    if output {
      var c := Decoded(e.captures[cap], poc, timestamp, true);
      SameCourse(out, added.captures, e.captures[cap := c], seqOf);
      ArrivalOnCourse(out, e.captures, cap, c, seqOf);
    } else {
      SameCourse(out, added.captures, e.captures, seqOf);
    }
    AddKeepsReorder(e, cap, poc, tag, timestamp, output);
    BumpKeepsCourse(out, added.captures, e.reorderDepth, seqOf);
    FinishSamePending(e, cap, poc, tag, timestamp, output, accepts);
    SameCourse(out + BumpFrames(added, false), next.captures, Bumped(added.captures, e.reorderDepth), seqOf);
  }

  /** Requeuing idle buffers leaves the pending ones alone. */
  lemma FinishSamePending(e: Engine, cap: nat, poc: int, tag: nat, timestamp: nat, output: bool, accepts: set<nat>)
    requires cap < |e.captures|
    ensures var added := AddPicture(e, cap, poc, tag, timestamp, output);
      SamePending(FinishPicture(e, cap, poc, tag, false, timestamp, output, accepts).captures,
                  Bumped(added.captures, e.reorderDepth))
  {
    hide AddPicture, Bumped, BumpOrder;
    AddKeepsReorder(e, cap, poc, tag, timestamp, output);
  }

  lemma AddKeepsReorder(e: Engine, cap: nat, poc: int, tag: nat, timestamp: nat, output: bool)
    requires cap < |e.captures|
    ensures AddPicture(e, cap, poc, tag, timestamp, output).reorderDepth == e.reorderDepth
  {
  }

  lemma DecodeKeepsCourse(out: seq<Frame>, e: Engine, ev: Event, seqOf: nat -> int)
    requires Inv(e) && Legal(e, ev) && ev.Decode?
    ensures OnCourse(out + Step(e, ev).emitted, Step(e, ev).next.captures, seqOf)
      <==> OnCourse(out, e.captures, seqOf) && CallInOrder(out, e, ev, seqOf)
  {
    hide OnCourse, StartPicture, FinishPicture, AddPicture, CurrentPoc, BumpFrames, ArrivesInOrder, Inv;
    var started := StartPicture(e, ev.pic);
    StartSamePending(e, ev.pic);
    SameCourse(out, started.captures, e.captures, seqOf);
    assert out + [] == out;
    if ev.outcome.Dequeued? {
      var cap, sent := ev.outcome.index, started.(nextTag := e.nextTag + 1);
      QueuedNotPending(e, cap);
      if ev.outcome.error {
        ErrorSamePending(sent, cap, ev.accepts);
        SameCourse(out, Step(e, ev).next.captures, sent.captures, seqOf);
      } else {
        FinishKeepsCourse(out, sent, cap, CurrentPoc(e, ev.pic), e.nextTag, ev.timestamp, ev.pic.output, ev.accepts,
                          seqOf);
        SameArrival(out, started.captures, e.captures, cap, Frame(CurrentPoc(e, ev.pic), ev.timestamp), seqOf);
      }
    }
  }

  lemma QueuedNotPending(e: Engine, cap: nat)
    requires Inv(e) && cap < |e.captures| && e.captures[cap].queued
    ensures !e.captures[cap].pendingOutput
  {
  }

  lemma ErrorSamePending(e: Engine, cap: nat, accepts: set<nat>)
    requires cap < |e.captures|
    ensures forall poc, tag, timestamp, output ::
      SamePending(FinishPicture(e, cap, poc, tag, true, timestamp, output, accepts).captures, e.captures)
  {
  }

  lemma SameArrival(out: seq<Frame>, a: seq<Capture>, b: seq<Capture>, cap: nat, f: Frame, seqOf: nat -> int)
    requires SamePending(a, b)
    ensures ArrivesInOrder(out, a, cap, f, seqOf) <==> ArrivesInOrder(out, b, cap, f, seqOf)
  {
    hide NoneBefore;
    assert forall i :: 0 <= i < |a| && a[i].pendingOutput ==> a[i].poc == FrameOf(a[i]).poc && b[i].poc == a[i].poc;
  }

  lemma StepKeepsCourse(out: seq<Frame>, e: Engine, ev: Event, seqOf: nat -> int)
    requires Inv(e) && Legal(e, ev) && !ev.Flush?
    ensures OnCourse(out + Step(e, ev).emitted, Step(e, ev).next.captures, seqOf)
      <==> OnCourse(out, e.captures, seqOf) && CallInOrder(out, e, ev, seqOf)
  {
    hide OnCourse, Inv, DecodeEffect, BumpFrames, Bumped, BumpOrder;
    if ev.Decode? {
      DecodeKeepsCourse(out, e, ev, seqOf);
    } else if ev.Drain? {
      BumpKeepsCourse(out, e.captures, 0, seqOf);
      DrainShape(e);
    } else {
      assert out + [] == out;
      SameCourse(out, Step(e, ev).next.captures, e.captures, seqOf);
    }
  }

  // ----- Runs

  /** Every frame decoded for output arrives in order when its turn comes, after the frames then out. */
  ghost predicate RunArrivesInOrder(e: Engine, events: seq<Event>, out: seq<Frame>, seqOf: nat -> int)
    requires IsRun(e, events)
    decreases |events|
  {
    events != [] ==>
      && CallInOrder(out, e, events[0], seqOf)
      && RunArrivesInOrder(Step(e, events[0]).next, events[1..], out + Step(e, events[0]).emitted, seqOf)
  }

  lemma {:induction false} RunKeepsCourse(e: Engine, events: seq<Event>, out: seq<Frame>, seqOf: nat -> int)
    requires Inv(e) && IsRun(e, events) && forall k :: 0 <= k < |events| ==> !events[k].Flush?
    ensures OnCourse(out + RunEmitted(e, events), RunEngine(e, events).captures, seqOf)
      <==> OnCourse(out, e.captures, seqOf) && RunArrivesInOrder(e, events, out, seqOf)
    decreases |events|
  {
    hide Step, Inv, OnCourse, CallInOrder;
    if events == [] {
      assert out + [] == out;
    } else {
      var step := Step(e, events[0]);
      StepKeepsCourse(out, e, events[0], seqOf);
      StepKeepsInv(e, events[0]);
      RunKeepsCourse(step.next, events[1..], out + step.emitted, seqOf);
      ConcatAssoc(out, step.emitted, RunEmitted(step.next, events[1..]));
    }
  }

  lemma NothingPending(out: seq<Frame>, captures: seq<Capture>, seqOf: nat -> int)
    requires PendingFrames(captures) == []
    ensures OnCourse(out, captures, seqOf) <==> InDisplayOrder(out, seqOf)
  {
    forall i | 0 <= i < |captures|
      ensures !captures[i].pendingOutput
    {
      PendingFramesMember(captures, FrameOf(captures[i]));
    }
  }

  /**
   * Output order over any run without a flush, of any number of sequences,
   * that starts with nothing held back and ends in Drain: the frames come out
   * by sequence, and by POC within each, if and only if each arrives in order.
   */
  lemma SequencesInOrderIff(e: Engine, events: seq<Event>, seqOf: nat -> int)
    requires Inv(e) && PendingFrames(e.captures) == []
    requires IsRun(e, events) && forall k :: 0 <= k < |events| ==> !events[k].Flush?
    ensures InDisplayOrder(RunEmitted(e, events) + Step(RunEngine(e, events), Drain).emitted, seqOf)
      <==> RunArrivesInOrder(e, events, [], seqOf)
  {
    hide Step, Inv, OnCourse, CallInOrder, InDisplayOrder, Bumped, BumpOut;
    var last := RunEngine(e, events);
    var out := RunEmitted(e, events);
    RunKeepsCourse(e, events, [], seqOf);
    NothingPending([], e.captures, seqOf);
    NoneInOrder(seqOf);
    assert [] + out == out;
    BumpKeepsCourse(out, last.captures, 0, seqOf);
    DrainShape(last);
    StatelessPool.BumpedPending(last.captures, 0);
    NothingPending(out + BumpOut(last.captures, 0), Bumped(last.captures, 0), seqOf);
  }

  lemma NoneInOrder(seqOf: nat -> int)
    ensures InDisplayOrder([], seqOf)
  {
  }

  // ----- A new sequence overtaking the one before

  /** With nothing pending and a reorder depth, a frame decoded for output is held back. */
  lemma HeldBack(e: Engine, ev: Event)
    requires Inv(e) && Legal(e, ev) && ev.Decode? && ev.pic.output && ev.outcome.Dequeued? && !ev.outcome.error
    requires PendingFrames(e.captures) == [] && e.reorderDepth >= 1
    ensures var step, cap := Step(e, ev), ev.outcome.index;
      && step.decoded == [Frame(CurrentPoc(e, ev.pic), ev.timestamp)]
      && cap < |step.next.captures| && step.next.captures[cap].pendingOutput
      && FrameOf(step.next.captures[cap]) == step.decoded[0]
  {
    hide StartPicture, AddPicture, CurrentPoc, BumpFrames, Bumped, BumpOrder, SamePending, Inv, PendingFrames;
    var started, cap, poc := StartPicture(e, ev.pic), ev.outcome.index, CurrentPoc(e, ev.pic);
    var sent := started.(nextTag := e.nextTag + 1);
    StartKeepsRest(e, ev.pic);
    var added := AddPicture(sent, cap, poc, e.nextTag, ev.timestamp, true);
    StartSamePending(e, ev.pic);
    SamePendingFrames(started.captures, e.captures);
    QueuedNotPending(e, cap);
    SamePendingAt(started.captures, e.captures, cap);
    AddedPending(sent, cap, poc, e.nextTag, ev.timestamp, true);
    AddedAt(sent, cap, poc, e.nextTag, ev.timestamp);
    AddKeepsReorder(sent, cap, poc, e.nextTag, ev.timestamp, true);
    assert |multiset(PendingFrames(added.captures))| == 1;
    NothingBumped(added.captures, e.reorderDepth);
  }

  lemma StartKeepsRest(e: Engine, pic: Picture)
    ensures |StartPicture(e, pic).captures| == |e.captures| && StartPicture(e, pic).reorderDepth == e.reorderDepth
  {
  }

  lemma SamePendingFrames(a: seq<Capture>, b: seq<Capture>)
    requires SamePending(a, b)
    ensures PendingFrames(a) == PendingFrames(b)
  {
    PendingFramesSame(a, b);
  }

  lemma SamePendingAt(a: seq<Capture>, b: seq<Capture>, i: nat)
    requires SamePending(a, b) && i < |a|
    ensures i < |b| && a[i].pendingOutput == b[i].pendingOutput
  {
  }

  lemma AddedAt(e: Engine, cap: nat, poc: int, tag: nat, timestamp: nat)
    requires cap < |e.captures|
    ensures var added := AddPicture(e, cap, poc, tag, timestamp, true);
      && |added.captures| == |e.captures|
      && added.captures[cap].pendingOutput && FrameOf(added.captures[cap]) == Frame(poc, timestamp)
  {
  }

  lemma NothingBumped(captures: seq<Capture>, limit: nat)
    requires |PendingFrames(captures)| <= limit
    ensures Bumped(captures, limit) == captures && BumpOrder(captures, limit) == []
  {
  }

  /**
   * Two pictures are enough: the first is held back, and the second, of a later
   * sequence and of a lower POC, overtakes it.
   */
  lemma LowerPocOvertakes(e: Engine, events: seq<Event>, seqOf: nat -> int)
    requires Inv(e) && PendingFrames(e.captures) == [] && e.reorderDepth >= 1 && IsRun(e, events) && |events| == 2
    requires forall k :: 0 <= k < 2 ==>
      && events[k].Decode? && events[k].pic.output
      && events[k].outcome.Dequeued? && !events[k].outcome.error
    requires CurrentPoc(Step(e, events[0]).next, events[1].pic) < CurrentPoc(e, events[0].pic)
    requires seqOf(events[0].timestamp) < seqOf(events[1].timestamp)
    ensures !InDisplayOrder(RunEmitted(e, events) + Step(RunEngine(e, events), Drain).emitted, seqOf)
  {
    hide Step, Inv, InDisplayOrder, CurrentPoc, PendingFrames;
    var next, rest, cap := Step(e, events[0]).next, events[1..], events[0].outcome.index;
    HeldBack(e, events[0]);
    DecodedFrame(next, rest[0]);
    var out := [] + Step(e, events[0]).emitted;
    assert !CallInOrder(out, next, rest[0], seqOf) by {
      assert Before(FrameOf(next.captures[cap]), Step(next, rest[0]).decoded[0], seqOf);
    }
    assert !RunArrivesInOrder(next, rest, out, seqOf);
    SequencesInOrderIff(e, events, seqOf);
  }

  lemma DecodedFrame(e: Engine, ev: Event)
    requires Legal(e, ev) && ev.Decode? && ev.pic.output && ev.outcome.Dequeued? && !ev.outcome.error
    ensures Step(e, ev).decoded == [Frame(CurrentPoc(e, ev.pic), ev.timestamp)]
  {
    hide StartPicture, AddPicture, FinishPicture, CurrentPoc, BumpFrames;
  }

  /** A CRA picture at POC 8 and then an IDR picture, straight from configuration: the IDR picture comes out first. */
  lemma OvertakingExample(start: Engine, events: seq<Event>, seqOf: nat -> int)
    requires start == Configured(2, SpsParams(4, 0), 1, {0, 1}) && |events| == 2
    requires forall k :: 0 <= k < 2 ==>
      events[k].Decode? && events[k].outcome == Dequeued(k, false) && events[k].pic.output
    requires events[0].pic.nalType == 21 && events[0].pic.pocLsb == 8
    requires events[1].pic.nalType == IDR_W_RADL && events[1].pic.pocLsb == 0
    requires seqOf(events[0].timestamp) < seqOf(events[1].timestamp)
    ensures IsRun(start, events)
    ensures !InDisplayOrder(RunEmitted(start, events) + Step(RunEngine(start, events), Drain).emitted, seqOf)
  {
    hide Step, Inv, InDisplayOrder, CurrentPoc;
    ConfiguredInv(2, SpsParams(4, 0), 1, {0, 1});
    BothQueued(start);
    var next := Step(start, events[0]).next;
    RestartPoc(start, events[0].pic);
    RestartPoc(next, events[1].pic);
    StillQueued(start, events[0], 1);
    StatelessPool.TwoSteps(start, events);
    LowerPocOvertakes(start, events, seqOf);
  }

  lemma BothQueued(start: Engine)
    requires start == Configured(2, SpsParams(4, 0), 1, {0, 1})
    ensures |start.captures| == 2 && start.captures[0].queued && start.captures[1].queued
    ensures start.reorderDepth == 1 && PendingFrames(start.captures) == [] && !start.seenFirst
  {
    StatelessPool.NonePending(start.captures);
  }

  /** A picture with NoRaslOutputFlag has the POC that its LSBs are. */
  lemma RestartPoc(e: Engine, pic: Picture)
    requires NoRaslOutput(pic, e.seenFirst, e.eosSeen)
    ensures CurrentPoc(e, pic) == pic.pocLsb
  {
  }

  /** A decode leaves the other buffers that the driver holds with it. */
  lemma StillQueued(e: Engine, ev: Event, i: nat)
    requires ev.Decode? && Legal(e, ev) && ev.outcome.Dequeued? && !ev.outcome.error
    requires Inv(e) && i < |e.captures| && e.captures[i].queued && i != ev.outcome.index
    ensures i < |Step(e, ev).next.captures| && Step(e, ev).next.captures[i].queued
  {
    hide StartPicture, CurrentPoc, Trim, Buffers, Inv, Bumped, BumpOrder, BumpFrames;
    StatelessPool.StartKeepsQueued(e, ev.pic, i);
    var sent := StartPicture(e, ev.pic).(nextTag := e.nextTag + 1);
    var added :=
      AddPicture(sent, ev.outcome.index, CurrentPoc(e, ev.pic), e.nextTag, ev.timestamp, ev.pic.output);
    StatelessPool.BumpedFlags(added.captures, added.reorderDepth, i);
  }
}
