/**
 * Who holds the stateful engine's buffers, over every run with a driver that
 * returns only buffers it was given and a caller that releases only frames it
 * was handed and holds none at a flush; and that frames come out in the order
 * the driver returned them.
 */
module M2mOwnership {
  import opened V4l2M2mDecoders

  /** The engine, the OUTPUT buffers with the driver, and the frames with the caller. */
  datatype World = World(dec: M2m, driverOutput: set<nat>, held: set<nat>)

  datatype Event =
    | Submit(size: nat, token: nat, queued: bool)
    | Drive(setups: seq<Setup>, outputs: seq<nat>, stamps: seq<Stamp>)
    | Acquire
    | Release(index: nat, queued: bool)
    | Flush(accepts: set<nat>, outputOn: bool, captureOn: bool)

  predicate Distinct(s: seq<nat>) {
    forall i, j :: 0 <= i < j < |s| ==> s[i] != s[j]
  }

  predicate DistinctStamps(s: seq<Stamp>) {
    forall i, j :: 0 <= i < j < |s| ==> s[i].index != s[j].index
  }

  /** A buffer comes back once, and only if the driver has it. */
  predicate HonestDriver(w: World, ev: Event) {
    ev.Drive? ==>
      && (forall i :: 0 <= i < |ev.setups| ==> ev.setups[i].Valid())
      && Distinct(ev.outputs) && (forall i :: 0 <= i < |ev.outputs| ==> ev.outputs[i] in w.driverOutput)
      && DistinctStamps(ev.stamps)
      && var up := EventsM2m(w.dec, ev.setups).0;
        forall i :: 0 <= i < |ev.stamps| ==> ev.stamps[i].index < |up.captures| && up.captures[ev.stamps[i].index]
  }

  /** A frame is released while held, or while in no hand at all; none is held at a flush. */
  predicate CarefulCaller(w: World, ev: Event) {
    && (ev.Release? ==> ev.index in w.held || !ReadyHas(w.dec.ready, ev.index))
    && (ev.Flush? ==> w.held == {})
  }

  predicate ReadyHas(ready: seq<ReadyFrame>, index: nat) {
    exists k :: 0 <= k < |ready| && ready[k].index == index
  }

  predicate LegalEvent(w: World, ev: Event) {
    HonestDriver(w, ev) && CarefulCaller(w, ev)
  }

  function Members(s: seq<nat>): set<nat> {
    set x | x in s
  }

  function WorldStep(w: World, ev: Event): World {
    match ev
    case Submit(size, _, queued) =>
      World(SubmitM2m(w.dec, size, queued),
            if Accepts(w.dec, size) && queued then w.driverOutput + {NextOutput(w.dec)} else w.driverOutput, w.held)
    case Drive(setups, outputs, stamps) =>
      World(DriveM2m(w.dec, setups, outputs, stamps),
            if EventsM2m(w.dec, setups).1 == Pumped then w.driverOutput - Members(outputs) else w.driverOutput, w.held)
    case Acquire =>
      World(AcquireM2m(w.dec), w.driverOutput,
            if w.dec.ready != [] && w.dec.ready[0].index < |w.dec.captures| then w.held + {w.dec.ready[0].index}
            else w.held)
    case Release(index, queued) => World(ReleaseM2m(w.dec, index, queued), w.driverOutput, w.held - {index})
    case Flush(accepts, outputOn, captureOn) => World(FlushM2m(w.dec, accepts, outputOn, captureOn), {}, {})
  }

  // ----- The invariant

  /** OUTPUT buffers: each is free once or with the driver, never both. */
  ghost predicate OutputsPartitioned(w: World) {
    && Distinct(w.dec.outputFree)
    && (forall i :: 0 <= i < |w.dec.outputLengths| ==> (i in w.dec.outputFree <==> i !in w.driverOutput))
    && (forall i :: i in w.dec.outputFree ==> i < |w.dec.outputLengths|)
    && (forall i :: i in w.driverOutput ==> i < |w.dec.outputLengths|)
  }

  /** CAPTURE buffers: with the driver, ready, held, or idle; no two at once, none ready twice. */
  ghost predicate CapturesPartitioned(w: World) {
    && (forall k :: 0 <= k < |w.dec.ready| ==>
        w.dec.ready[k].index < |w.dec.captures| && !w.dec.captures[w.dec.ready[k].index]
        && w.dec.ready[k].index !in w.held)
    && (forall i, j :: 0 <= i < j < |w.dec.ready| ==> w.dec.ready[i].index != w.dec.ready[j].index)
    && (forall i :: i in w.held ==> i < |w.dec.captures| && !w.dec.captures[i])
    && (!w.dec.captureStreaming ==> w.dec.ready == [] && w.held == {})
  }

  ghost predicate Conserved(w: World) {
    OutputsPartitioned(w) && CapturesPartitioned(w)
  }

  lemma SubmitConserves(w: World, size: nat, token: nat, queued: bool)
    requires Conserved(w)
    ensures Conserved(WorldStep(w, Submit(size, token, queued)))
  {
    hide OutputsPartitioned;
    SubmitOutputs(w, size, token, queued);
  }

  lemma SubmitOutputs(w: World, size: nat, token: nat, queued: bool)
    requires OutputsPartitioned(w)
    ensures OutputsPartitioned(WorldStep(w, Submit(size, token, queued)))
  {
    if Accepts(w.dec, size) && queued {
      var free := w.dec.outputFree;
      var left, last := free[..|free| - 1], free[|free| - 1];
      forall i
        ensures i in left <==> i in free && i != last
      {
        AllButLast(free, i);
      }
      assert SubmitM2m(w.dec, size, queued).outputFree == left;
    }
  }

  lemma AllButLast(free: seq<nat>, i: nat)
    requires free != [] && Distinct(free)
    ensures i in free[..|free| - 1] <==> i in free && i != free[|free| - 1]
  {
    if i in free && i != free[|free| - 1] {
      var k :| 0 <= k < |free| && free[k] == i;
      assert free[..|free| - 1][k] == i;
    }
  }

  lemma {:induction false} EventsKeep(w: World, setups: seq<Setup>)
    requires CapturesPartitioned(w)
    ensures var up := EventsM2m(w.dec, setups).0;
      && CapturesPartitioned(w.(dec := up))
      && up.outputFree == w.dec.outputFree && up.outputLengths == w.dec.outputLengths && up.ready == w.dec.ready
    decreases |setups|
  {
    if setups != [] && !w.dec.captureStreaming && setups[0].Succeeds() {
      EventsKeep(w.(dec := SetupM2m(w.dec, setups[0])), setups[1..]);
    }
  }

  lemma ReclaimConserves(w: World, outputs: seq<nat>)
    requires OutputsPartitioned(w) && Distinct(outputs)
    requires forall i :: 0 <= i < |outputs| ==> outputs[i] in w.driverOutput
    ensures OutputsPartitioned(
      w.(dec := w.dec.(outputFree := w.dec.outputFree + outputs), driverOutput := w.driverOutput - Members(outputs)))
  {
    var free := w.dec.outputFree + outputs;
    forall i, j | 0 <= i < j < |free|
      ensures free[i] != free[j]
    {
      if i < |w.dec.outputFree| <= j {
        assert free[i] in w.dec.outputFree && free[j] == outputs[j - |w.dec.outputFree|];
      }
    }
  }

  lemma DequeueConserves(w: World, stamps: seq<Stamp>)
    requires CapturesPartitioned(w) && w.dec.captureStreaming && DistinctStamps(stamps)
    requires forall i :: 0 <= i < |stamps| ==> stamps[i].index < |w.dec.captures| && w.dec.captures[stamps[i].index]
    ensures CapturesPartitioned(w.(dec := w.dec.(
      captures := Taken(w.dec.captures, Stamped(stamps)), ready := w.dec.ready + FramesOf(stamps))))
  {
    forall i | 0 <= i < |stamps|
      ensures stamps[i].index in Stamped(stamps)
    {
      assert stamps[i] in stamps;
    }
  }

  lemma DriveConserves(w: World, ev: Event)
    requires Conserved(w) && ev.Drive? && HonestDriver(w, ev)
    ensures Conserved(WorldStep(w, ev))
  {
    hide EventsM2m, Distinct, DistinctStamps, FramesOf, Stamped, Taken, Members;
    var (up, answer) := EventsM2m(w.dec, ev.setups);
    EventsKeep(w, ev.setups);
    var raised := w.(dec := up);
    assert OutputsPartitioned(raised);
    if answer == Pumped {
      ReclaimConserves(raised, ev.outputs);
      if up.captureStreaming {
        DequeueConserves(raised, ev.stamps);
      }
    }
  }

  lemma AcquireConserves(w: World)
    requires Conserved(w)
    ensures Conserved(WorldStep(w, Acquire))
  {
  }

  lemma ReleaseConserves(w: World, index: nat, queued: bool)
    requires Conserved(w) && CarefulCaller(w, Release(index, queued))
    ensures Conserved(WorldStep(w, Release(index, queued)))
  {
  }

  lemma FlushConserves(w: World, accepts: set<nat>, outputOn: bool, captureOn: bool)
    requires Conserved(w)
    ensures Conserved(WorldStep(w, Flush(accepts, outputOn, captureOn)))
  {
    var free := FlushM2m(w.dec, accepts, outputOn, captureOn).outputFree;
    forall i | 0 <= i < |w.dec.outputLengths|
      ensures i in free
    {
      assert free[i] == i;
    }
  }

  /** Every call of the driver and the caller conserves both pools. */
  lemma StepConserves(w: World, ev: Event)
    requires Conserved(w) && LegalEvent(w, ev)
    ensures Conserved(WorldStep(w, ev))
  {
    match ev
    case Submit(size, token, queued) => SubmitConserves(w, size, token, queued);
    case Drive(_, _, _) => DriveConserves(w, ev);
    case Acquire => AcquireConserves(w);
    case Release(index, queued) => ReleaseConserves(w, index, queued);
    case Flush(accepts, outputOn, captureOn) => FlushConserves(w, accepts, outputOn, captureOn);
  }

  // ----- Runs

  predicate IsRun(w: World, events: seq<Event>)
    decreases |events|
  {
    events != [] ==> LegalEvent(w, events[0]) && IsRun(WorldStep(w, events[0]), events[1..])
  }

  function Run(w: World, events: seq<Event>): World
    decreases |events|
  {
    if events == [] then w else Run(WorldStep(w, events[0]), events[1..])
  }

  function Created(outputLengths: seq<nat>): World {
    World(M2m(outputLengths, seq(|outputLengths|, i => i), true, [], false, []), {}, {})
  }

  lemma {:induction false} RunConserves(w: World, events: seq<Event>)
    requires Conserved(w) && IsRun(w, events)
    ensures Conserved(Run(w, events))
    decreases |events|
  {
    hide WorldStep, Conserved, LegalEvent;
    if events != [] {
      StepConserves(w, events[0]);
      RunConserves(WorldStep(w, events[0]), events[1..]);
    }
  }

  lemma CreatedConserved(outputLengths: seq<nat>)
    ensures Conserved(Created(outputLengths))
  {
    var free := Created(outputLengths).dec.outputFree;
    forall i | 0 <= i < |outputLengths|
      ensures i in free
    {
      assert free[i] == i;
    }
  }

  /** The frames dequeued since the last flush, and those the caller acquired since. */
  function Dequeued(w: World, ev: Event): seq<ReadyFrame> {
    if ev.Drive? && EventsM2m(w.dec, ev.setups).1 == Pumped && EventsM2m(w.dec, ev.setups).0.captureStreaming
      then FramesOf(ev.stamps) else []
  }

  function Handed(w: World, ev: Event): seq<ReadyFrame> {
    if ev.Acquire? && w.dec.ready != [] && w.dec.ready[0].index < |w.dec.captures| then [w.dec.ready[0]] else []
  }

  function AllDequeued(w: World, events: seq<Event>, before: seq<ReadyFrame>): seq<ReadyFrame>
    decreases |events|
  {
    if events == [] then before
    else
      AllDequeued(WorldStep(w, events[0]), events[1..],
                  if events[0].Flush? then [] else before + Dequeued(w, events[0]))
  }

  function AllHanded(w: World, events: seq<Event>, before: seq<ReadyFrame>): seq<ReadyFrame>
    decreases |events|
  {
    if events == [] then before
    else AllHanded(WorldStep(w, events[0]), events[1..], if events[0].Flush? then [] else before + Handed(w, events[0]))
  }

  lemma Regroup(dequeued: seq<ReadyFrame>, handed: seq<ReadyFrame>, ready: seq<ReadyFrame>, more: seq<ReadyFrame>)
    requires dequeued == handed + ready
    ensures dequeued + more == handed + (ready + more)
  {
  }

  lemma StepIsFifo(w: World, ev: Event, dequeued: seq<ReadyFrame>, handed: seq<ReadyFrame>)
    requires Conserved(w) && dequeued == handed + w.dec.ready
    ensures var next := WorldStep(w, ev);
      (if ev.Flush? then [] else dequeued + Dequeued(w, ev))
        == (if ev.Flush? then [] else handed + Handed(w, ev)) + next.dec.ready
  {
    if ev.Drive? {
      DriveAppends(w, ev);
      Regroup(dequeued, handed, w.dec.ready, Dequeued(w, ev));
      hide DriveM2m, Dequeued;
    } else if ev.Acquire? && w.dec.ready != [] {
      AcquireIsFifo(w, dequeued, handed);
    }
  }

  lemma DriveAppends(w: World, ev: Event)
    requires Conserved(w) && ev.Drive?
    ensures WorldStep(w, ev).dec.ready == w.dec.ready + Dequeued(w, ev)
  {
    EventsKeep(w, ev.setups);
    hide EventsM2m, FramesOf, Conserved;
  }

  lemma AcquireIsFifo(w: World, dequeued: seq<ReadyFrame>, handed: seq<ReadyFrame>)
    requires Conserved(w) && w.dec.ready != [] && dequeued == handed + w.dec.ready
    ensures dequeued == handed + Handed(w, Acquire) + AcquireM2m(w.dec).ready
  {
    assert w.dec.ready == [w.dec.ready[0]] + w.dec.ready[1..];
  }

  /**
   * The ready queue is a FIFO over every run: the frames handed out since the
   * last flush, followed by those still ready, are exactly the frames the
   * driver returned, in its order; no frame is dropped for a newer one.
   */
  lemma {:induction false} RunIsFifo(w: World, events: seq<Event>, dequeued: seq<ReadyFrame>, handed: seq<ReadyFrame>)
    requires Conserved(w) && IsRun(w, events) && dequeued == handed + w.dec.ready
    ensures AllDequeued(w, events, dequeued) == AllHanded(w, events, handed) + Run(w, events).dec.ready
    decreases |events|
  {
    hide WorldStep, Conserved, LegalEvent, Dequeued, Handed;
    if events != [] {
      var ev := events[0];
      StepConserves(w, ev);
      StepIsFifo(w, ev, dequeued, handed);
      RunIsFifo(WorldStep(w, ev), events[1..],
                if ev.Flush? then [] else dequeued + Dequeued(w, ev),
                if ev.Flush? then [] else handed + Handed(w, ev));
    }
  }

  /**
   * Conservation from creation on: the free and in-driver OUTPUT buffers
   * partition the pool, every CAPTURE buffer is in at most one of driver,
   * ready queue and caller's hands, and frames come out first in, first out.
   */
  lemma QueuesConserved(outputLengths: seq<nat>, events: seq<Event>)
    requires IsRun(Created(outputLengths), events)
    ensures var w := Run(Created(outputLengths), events);
      && Members(w.dec.outputFree) !! w.driverOutput
      && |Members(w.dec.outputFree)| == |w.dec.outputFree|
      && (forall i :: 0 <= i < |w.dec.outputLengths| <==> i in Members(w.dec.outputFree) + w.driverOutput)
      && (forall i :: 0 <= i < |w.dec.captures| && w.dec.captures[i] ==>
          !ReadyHas(w.dec.ready, i) && i !in w.held)
      && (forall i :: i in w.held ==> !ReadyHas(w.dec.ready, i))
      && AllDequeued(Created(outputLengths), events, []) == AllHanded(Created(outputLengths), events, []) + w.dec.ready
  {
    CreatedConserved(outputLengths);
    RunConserves(Created(outputLengths), events);
    RunIsFifo(Created(outputLengths), events, [], []);
    DistinctCount(Run(Created(outputLengths), events).dec.outputFree);
    hide Run, IsRun, AllDequeued, AllHanded, Created;
  }

  lemma {:induction false} DistinctCount(s: seq<nat>)
    requires Distinct(s)
    ensures |Members(s)| == |s|
  {
    if s != [] {
      var init := s[..|s| - 1];
      DistinctCount(init);
      assert Members(s) == Members(init) + {s[|s| - 1]};
    }
  }

  /** When the driver copies each submitted token's halves, the ready frames carry the tokens. */
  lemma FramesCarryTokens(stamps: seq<Stamp>, tokens: seq<nat>)
    requires |stamps| == |tokens| && forall i :: 0 <= i < |tokens| ==> tokens[i] < TOKENS
    requires forall i :: 0 <= i < |stamps| ==>
      stamps[i].sec == PackSec(tokens[i]) && stamps[i].usec == PackUsec(tokens[i])
    ensures forall i :: 0 <= i < |stamps| ==> FramesOf(stamps)[i] == ReadyFrame(stamps[i].index, tokens[i])
  {
    forall i | 0 <= i < |stamps|
      ensures FramesOf(stamps)[i].timestamp == tokens[i]
    {
      TokenSurvives(tokens[i]);
    }
  }

  /** The tokens of the access units accepted so far; a refused one leaves none. */
  function NextTokens(w: World, ev: Event, tokens: set<nat>): set<nat> {
    if ev.Submit? && SubmitAnswer(w.dec, ev.size, ev.queued) == Ok then tokens + {ev.token} else tokens
  }

  /** The driver stamps a frame with the two halves of a token it was given. */
  ghost predicate CopiesToken(s: Stamp, tokens: set<nat>) {
    exists token :: token in tokens && s.sec == PackSec(token) && s.usec == PackUsec(token)
  }

  ghost predicate CopiesTokens(w: World, events: seq<Event>, tokens: set<nat>)
    decreases |events|
  {
    events != [] ==>
      && (events[0].Submit? ==> events[0].token < TOKENS)
      && (events[0].Drive? ==> forall i :: 0 <= i < |events[0].stamps| ==> CopiesToken(events[0].stamps[i], tokens))
      && CopiesTokens(WorldStep(w, events[0]), events[1..], NextTokens(w, events[0], tokens))
  }

  ghost predicate Known(frames: seq<ReadyFrame>, tokens: set<nat>) {
    forall k :: 0 <= k < |frames| ==> frames[k].timestamp in tokens
  }

  /** Every frame handed out, at any call, carries the token of an access unit accepted before it. */
  ghost predicate HandsOutKnown(w: World, events: seq<Event>, tokens: set<nat>)
    decreases |events|
  {
    events != [] ==>
      && Known(Handed(w, events[0]), tokens)
      && HandsOutKnown(WorldStep(w, events[0]), events[1..], NextTokens(w, events[0], tokens))
  }

  lemma DequeuedKnown(w: World, ev: Event, tokens: set<nat>)
    requires ev.Drive? && (forall t :: t in tokens ==> t < TOKENS)
    requires forall i :: 0 <= i < |ev.stamps| ==> CopiesToken(ev.stamps[i], tokens)
    ensures Known(Dequeued(w, ev), tokens)
  {
    hide CopiesToken, EventsM2m, Unpack;
    forall i | 0 <= i < |ev.stamps|
      ensures FrameOf(ev.stamps[i]).timestamp in tokens
    {
      CopiedKnown(ev.stamps[i], tokens);
    }
  }

  lemma CopiedKnown(s: Stamp, tokens: set<nat>)
    requires CopiesToken(s, tokens) && forall t :: t in tokens ==> t < TOKENS
    ensures FrameOf(s).timestamp in tokens
  {
    hide Unpack, PackSec, PackUsec;
    var token :| token in tokens && s.sec == PackSec(token) && s.usec == PackUsec(token);
    TokenSurvives(token);
  }

  lemma StepKeepsKnown(w: World, ev: Event, tokens: set<nat>)
    requires Conserved(w) && Known(w.dec.ready, tokens) && (forall t :: t in tokens ==> t < TOKENS)
    requires ev.Drive? ==> forall i :: 0 <= i < |ev.stamps| ==> CopiesToken(ev.stamps[i], tokens)
    ensures Known(Handed(w, ev), tokens)
    ensures Known(WorldStep(w, ev).dec.ready, NextTokens(w, ev, tokens))
  {
    hide Conserved, Dequeued, CopiesToken, EventsM2m, DriveM2m;
    if ev.Drive? {
      DriveAppends(w, ev);
      DequeuedKnown(w, ev, tokens);
    }
  }

  /**
   * Tokens over every run with a driver that copies them: whatever is handed
   * out carries the 64-bit token of an access unit the engine had accepted.
   */
  lemma {:induction false} RunHandsOutTokens(w: World, events: seq<Event>, tokens: set<nat>)
    requires Conserved(w) && IsRun(w, events) && CopiesTokens(w, events, tokens)
    requires Known(w.dec.ready, tokens) && forall t :: t in tokens ==> t < TOKENS
    ensures HandsOutKnown(w, events, tokens)
    decreases |events|
  {
    hide WorldStep, Conserved, LegalEvent, Known, Handed, CopiesToken;
    if events != [] {
      StepConserves(w, events[0]);
      StepKeepsKnown(w, events[0], tokens);
      RunHandsOutTokens(WorldStep(w, events[0]), events[1..], NextTokens(w, events[0], tokens));
    }
  }

  /** The same from creation on, when no token is out. */
  lemma TokensFromCreation(outputLengths: seq<nat>, events: seq<Event>)
    requires IsRun(Created(outputLengths), events) && CopiesTokens(Created(outputLengths), events, {})
    ensures HandsOutKnown(Created(outputLengths), events, {})
  {
    CreatedConserved(outputLengths);
    RunHandsOutTokens(Created(outputLengths), events, {});
  }

  // ----- The hypotheses are needed

  /** A caller that still holds a frame at a flush: the driver gets that buffer while it is held. */
  lemma HeldAtFlush(w: World, i: nat, accepts: set<nat>)
    requires Conserved(w) && i in w.held && i in accepts
    ensures var next := FlushM2m(w.dec, accepts, true, true);
      i < |next.captures| && next.captures[i]
  {
  }
}
