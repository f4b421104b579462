/**
 * The stateful engine's answers in the terms of a world around it, and that no
 * CAPTURE buffer is ever lost while QBUF accepts what it is offered.
 */
module M2mBuffers {
  import opened V4l2M2mDecoders
  import opened M2mOwnership

  // ----- Submitting

  /**
   * An access unit is refused for now exactly while the driver has every
   * OUTPUT buffer; otherwise it goes, when it fits and QBUF accepts, into the
   * buffer freed last, which is then the driver's.
   */
  lemma SubmitAnswers(w: World, size: nat, token: nat, queued: bool)
    requires Conserved(w)
    ensures var free, lengths, next := w.dec.outputFree, w.dec.outputLengths, WorldStep(w, Submit(size, token, queued));
      var answer := SubmitAnswer(w.dec, size, queued);
      && (answer == TryAgain <==> size > 0 && forall i :: 0 <= i < |lengths| ==> i in w.driverOutput)
      && (free != [] ==> free[|free| - 1] < |lengths|)
      && (answer == Ok <==> size > 0 && free != [] && size <= lengths[free[|free| - 1]] && queued)
      && (answer == Ok ==>
          && next.driverOutput == w.driverOutput + {free[|free| - 1]} && next.dec.outputFree == free[..|free| - 1]
          && free[|free| - 1] !in w.driverOutput)
      && (answer != Ok ==> next == w)
  {
    hide CapturesPartitioned;
    FreeOrDriver(w);
    var free := w.dec.outputFree;
    if free != [] {
      assert free[|free| - 1] in free;
    }
  }

  lemma FreeOrDriver(w: World)
    requires OutputsPartitioned(w)
    ensures w.dec.outputFree == [] <==> forall i :: 0 <= i < |w.dec.outputLengths| ==> i in w.driverOutput
  {
    if w.dec.outputFree != [] {
      assert w.dec.outputFree[0] in w.dec.outputFree;
    }
  }

  // ----- Resolution events

  /** CAPTURE is set up by the first event of all, and every later one is a change of source. */
  lemma EventAnswers(m: M2m, setups: seq<Setup>)
    ensures var (up, answer) := EventsM2m(m, setups);
      && (answer == Pumped <==> setups == [] || (|setups| == 1 && !m.captureStreaming && setups[0].Succeeds()))
      && (answer == Failed <==> setups != [] && !m.captureStreaming && !setups[0].Succeeds())
      && (up.captureStreaming <==> m.captureStreaming || (setups != [] && setups[0].Succeeds()))
  {
    if setups != [] && !m.captureStreaming && setups[0].Succeeds() {
      var up := SetupM2m(m, setups[0]);
      assert up.captureStreaming;
      if |setups| > 1 {
        assert setups[1..] != [];
      } else {
        assert setups[1..] == [];
      }
    }
  }

  // ----- No buffer is lost

  /** Every CAPTURE buffer is with the driver, ready, or in the caller's hands. */
  ghost predicate NoneIdle(w: World) {
    forall i :: 0 <= i < |w.dec.captures| ==> w.dec.captures[i] || ReadyHas(w.dec.ready, i) || i in w.held
  }

  /** QBUF accepts every CAPTURE buffer that this call offers it. */
  ghost predicate Accepting(w: World, ev: Event) {
    match ev
    case Drive(setups, _, _) =>
      forall i :: 0 <= i < |setups| && setups[i].Allocated? ==> setups[i].queued == setups[i].count
    case Release(_, queued) => queued
    case Flush(accepts, _, _) => forall i :: 0 <= i < |w.dec.captures| ==> i in accepts
    case Submit(_, _, _) => true
    case Acquire => true
  }

  ghost predicate AcceptingRun(w: World, events: seq<Event>)
    decreases |events|
  {
    events != [] ==> Accepting(w, events[0]) && AcceptingRun(WorldStep(w, events[0]), events[1..])
  }

  lemma {:induction false} EventsLeaveNoneIdle(w: World, setups: seq<Setup>)
    requires NoneIdle(w)
    requires forall i :: 0 <= i < |setups| && setups[i].Allocated? ==> setups[i].queued == setups[i].count
    ensures NoneIdle(w.(dec := EventsM2m(w.dec, setups).0))
    decreases |setups|
  {
    if setups != [] && !w.dec.captureStreaming && setups[0].Succeeds() {
      EventsLeaveNoneIdle(w.(dec := SetupM2m(w.dec, setups[0])), setups[1..]);
    }
  }

  lemma DequeueLeavesNoneIdle(w: World, stamps: seq<Stamp>)
    requires NoneIdle(w)
    ensures NoneIdle(w.(dec := w.dec.(
      captures := Taken(w.dec.captures, Stamped(stamps)), ready := w.dec.ready + FramesOf(stamps))))
  {
    var ready := w.dec.ready + FramesOf(stamps);
    forall i | 0 <= i < |w.dec.captures|
      ensures (w.dec.captures[i] && i !in Stamped(stamps)) || ReadyHas(ready, i) || i in w.held
    {
      if ReadyHas(w.dec.ready, i) {
        var k :| 0 <= k < |w.dec.ready| && w.dec.ready[k].index == i;
        assert ready[k].index == i;
      } else if i in Stamped(stamps) {
        var s :| s in stamps && s.index == i;
        var k :| 0 <= k < |stamps| && stamps[k] == s;
        assert ready[|w.dec.ready| + k].index == i;
      }
    }
  }

  lemma DriveLeavesNoneIdle(w: World, ev: Event)
    requires NoneIdle(w) && ev.Drive? && Accepting(w, ev)
    ensures NoneIdle(WorldStep(w, ev))
  {
    hide EventsM2m, FramesOf, Stamped, Taken, Members;
    EventsLeaveNoneIdle(w, ev.setups);
    var (up, answer) := EventsM2m(w.dec, ev.setups);
    if answer == Pumped && up.captureStreaming {
      DequeueLeavesNoneIdle(w.(dec := up.(outputFree := up.outputFree + ev.outputs)), ev.stamps);
    }
  }

  lemma AcquireLeavesNoneIdle(w: World)
    requires NoneIdle(w)
    ensures NoneIdle(WorldStep(w, Acquire))
  {
    var ready := w.dec.ready;
    if ready != [] {
      forall i | 0 <= i < |w.dec.captures| && ReadyHas(ready, i)
        ensures i == ready[0].index || ReadyHas(ready[1..], i)
      {
        var k :| 0 <= k < |ready| && ready[k].index == i;
        if k > 0 {
          assert ready[1..][k - 1].index == i;
        }
      }
    }
  }

  lemma StepLeavesNoneIdle(w: World, ev: Event)
    requires NoneIdle(w) && Accepting(w, ev)
    ensures NoneIdle(WorldStep(w, ev))
  {
    if ev.Drive? {
      DriveLeavesNoneIdle(w, ev);
    } else if ev.Acquire? {
      AcquireLeavesNoneIdle(w);
    } else {
      hide EventsM2m, DriveM2m, AcquireM2m;
    }
  }

  lemma {:induction false} RunLeavesNoneIdle(w: World, events: seq<Event>)
    requires NoneIdle(w) && AcceptingRun(w, events)
    ensures NoneIdle(Run(w, events))
    decreases |events|
  {
    hide WorldStep, NoneIdle, Accepting;
    if events != [] {
      StepLeavesNoneIdle(w, events[0]);
      RunLeavesNoneIdle(WorldStep(w, events[0]), events[1..]);
    }
  }

  /**
   * From creation on, while QBUF accepts, every CAPTURE buffer is in exactly
   * one place: with the driver, in the ready queue, or with the caller. So
   * what the caller releases is with the driver again.
   */
  lemma CapturesConserved(outputLengths: seq<nat>, events: seq<Event>, i: nat)
    requires IsRun(Created(outputLengths), events) && AcceptingRun(Created(outputLengths), events)
    requires i < |Run(Created(outputLengths), events).dec.captures|
    ensures var w := Run(Created(outputLengths), events);
      && (w.dec.captures[i] <==> !ReadyHas(w.dec.ready, i) && i !in w.held)
      && (ReadyHas(w.dec.ready, i) ==> i !in w.held)
  {
    CreatedConserved(outputLengths);
    RunConserves(Created(outputLengths), events);
    RunLeavesNoneIdle(Created(outputLengths), events);
    hide Run, IsRun, AcceptingRun, Created;
  }
}
