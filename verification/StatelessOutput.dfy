/**
 * Display order. The bumping process of section C.5.2.2 of ITU-T H.265 holds
 * back up to `reorderDepth` pictures; these lemmas say when that is enough.
 */
module StatelessOutput {
  import opened Wrappers
  import opened Sequences
  import opened DpbMachine
  import opened StatelessEngine
  import opened StatelessOwnership

  ghost predicate Sorted(fs: seq<Frame>) {
    forall i, j :: 0 <= i < j < |fs| ==> fs[i].poc <= fs[j].poc
  }

  ghost predicate AllAtMost(fs: seq<Frame>, poc: int) {
    forall i :: 0 <= i < |fs| ==> fs[i].poc <= poc
  }

  /** What is out is sorted, and nothing held back belongs before it. */
  ghost predicate InOrder(emitted: seq<Frame>, pending: seq<Frame>) {
    Sorted(emitted) && forall j :: 0 <= j < |pending| ==> AllAtMost(emitted, pending[j].poc)
  }

  /** How many of the first n pictures have a POC above `poc`. */
  function CountUpto(fs: seq<Frame>, n: nat, poc: int): nat
    requires n <= |fs|
  {
    if n == 0 then 0 else CountUpto(fs, n - 1, poc) + (if fs[n - 1].poc > poc then 1 else 0)
  }

  function CountAbove(fs: seq<Frame>, poc: int): nat {
    CountUpto(fs, |fs|, poc)
  }

  /** No picture has more than `depth` earlier-decoded pictures shown after it. */
  ghost predicate ReorderBounded(decoded: seq<Frame>, depth: nat) {
    forall k :: 0 <= k < |decoded| ==> CountUpto(decoded, k, decoded[k].poc) <= depth
  }

  // ----- Counting

  lemma {:induction false} CountUptoPrefix(a: seq<Frame>, b: seq<Frame>, n: nat, poc: int)
    requires n <= |a| && n <= |b| && forall i :: 0 <= i < n ==> a[i] == b[i]
    ensures CountUpto(a, n, poc) == CountUpto(b, n, poc)
  {
    if n > 0 {
      CountUptoPrefix(a, b, n - 1, poc);
    }
  }

  lemma {:induction false} CountUptoConcat(a: seq<Frame>, b: seq<Frame>, n: nat, poc: int)
    requires n <= |b|
    ensures CountUpto(a + b, |a| + n, poc) == CountAbove(a, poc) + CountUpto(b, n, poc)
  {
    if n == 0 {
      CountUptoPrefix(a, a + b, |a|, poc);
    } else {
      CountUptoConcat(a, b, n - 1, poc);
    }
  }

  lemma CountAboveConcat(a: seq<Frame>, b: seq<Frame>, poc: int)
    ensures CountAbove(a + b, poc) == CountAbove(a, poc) + CountAbove(b, poc)
  {
    CountUptoConcat(a, b, |b|, poc);
  }

  lemma {:induction false} CountAbovePermuted(a: seq<Frame>, b: seq<Frame>, poc: int)
    requires multiset(a) == multiset(b)
    ensures CountAbove(a, poc) == CountAbove(b, poc)
    decreases |a|
  {
    if a == [] {
      assert |multiset(b)| == 0;
    } else {
      var init, x := a[..|a| - 1], a[|a| - 1];
      assert a == init + [x];
      assert x in multiset(b);
      var k :| 0 <= k < |b| && b[k] == x;
      WithoutMultiset(b, k);
      CountAbovePermuted(init, Without(b, k), poc);
      CountAboveConcat(init, [x], poc);
      CountAboveWithout(b, k, poc);
    }
  }

  lemma WithoutMultiset(b: seq<Frame>, k: nat)
    requires k < |b|
    ensures multiset(Without(b, k)) == multiset(b) - multiset{b[k]}
  {
    assert b == b[..k] + [b[k]] + b[k + 1..];
  }

  lemma CountAboveWithout(b: seq<Frame>, k: nat, poc: int)
    requires k < |b|
    ensures CountAbove(b, poc) == CountAbove(Without(b, k), poc) + CountAbove([b[k]], poc)
  {
    assert b == b[..k] + ([b[k]] + b[k + 1..]);
    CountAboveConcat(b[..k], [b[k]] + b[k + 1..], poc);
    CountAboveConcat([b[k]], b[k + 1..], poc);
    CountAboveConcat(b[..k], b[k + 1..], poc);
  }

  lemma {:induction false} CountUptoBounds(fs: seq<Frame>, n: nat, poc: int)
    requires n <= |fs|
    ensures CountUpto(fs, n, poc) <= n
    ensures (forall i :: 0 <= i < n ==> fs[i].poc <= poc) ==> CountUpto(fs, n, poc) == 0
    ensures (forall i :: 0 <= i < n ==> fs[i].poc > poc) ==> CountUpto(fs, n, poc) == n
  {
    if n > 0 {
      CountUptoBounds(fs, n - 1, poc);
    }
  }

  lemma {:induction false} CountUptoMonotone(fs: seq<Frame>, n: nat, lower: int, higher: int)
    requires n <= |fs| && lower <= higher
    ensures CountUpto(fs, n, higher) <= CountUpto(fs, n, lower)
  {
    if n > 0 {
      CountUptoMonotone(fs, n - 1, lower, higher);
    }
  }

  // ----- The invariant between what was decoded, what is out and what is held

  /** Each emitted picture left because more than `depth` decoded ones do not precede it. */
  ghost predicate EmittedLate(emitted: seq<Frame>, decoded: seq<Frame>, depth: nat) {
    forall i :: 0 <= i < |emitted| ==> CountAbove(decoded, emitted[i].poc - 1) > depth
  }

  /** What was decoded is what is out and what is held back. */
  ghost predicate Accounted(decoded: seq<Frame>, emitted: seq<Frame>, pending: seq<Frame>) {
    multiset(decoded) == multiset(emitted) + multiset(pending)
  }

  ghost predicate OutputInv(decoded: seq<Frame>, emitted: seq<Frame>, pending: seq<Frame>, depth: nat) {
    && Accounted(decoded, emitted, pending)
    && |pending| <= depth
    && EmittedLate(emitted, decoded, depth)
    && (InOrder(emitted, pending) <==> ReorderBounded(decoded, depth))
  }

  /** Only pictures still held back can be shown after a picture that is in order. */
  lemma HeldBound(decoded: seq<Frame>, emitted: seq<Frame>, pending: seq<Frame>, poc: int)
    requires Accounted(decoded, emitted, pending)
    requires AllAtMost(emitted, poc)
    ensures CountAbove(decoded, poc) <= |pending|
  {
    assert multiset(decoded) == multiset(emitted + pending);
    CountAbovePermuted(decoded, emitted + pending, poc);
    CountAboveConcat(emitted, pending, poc);
    CountUptoBounds(emitted, |emitted|, poc);
    CountUptoBounds(pending, |pending|, poc);
  }

  lemma BoundedSnoc(decoded: seq<Frame>, f: Frame, depth: nat)
    ensures ReorderBounded(decoded + [f], depth)
      <==> ReorderBounded(decoded, depth) && CountAbove(decoded, f.poc) <= depth
  {
    var all, n := decoded + [f], |decoded|;
    CountUptoPrefix(all, decoded, n, f.poc);
    assert all[n] == f;
    forall k | 0 <= k < n
      ensures all[k] == decoded[k] && CountUpto(all, k, all[k].poc) == CountUpto(decoded, k, decoded[k].poc)
    {
      CountUptoPrefix(all, decoded, k, decoded[k].poc);
    }
    if ReorderBounded(all, depth) {
      assert CountUpto(all, n, all[n].poc) <= depth;
      forall k | 0 <= k < n
        ensures CountUpto(decoded, k, decoded[k].poc) <= depth
      {
        assert CountUpto(all, k, all[k].poc) <= depth;
      }
    }
  }

  /** A picture is decoded: order survives exactly when its reordering is within depth. */
  lemma ArrivalKeepsOrder(decoded: seq<Frame>, emitted: seq<Frame>, pending: seq<Frame>, f: Frame, depth: nat)
    requires OutputInv(decoded, emitted, pending, depth)
    ensures InOrder(emitted, pending + [f]) <==> ReorderBounded(decoded + [f], depth)
  {
    BoundedSnoc(decoded, f, depth);
    if AllAtMost(emitted, f.poc) {
      HeldBound(decoded, emitted, pending, f.poc);
    } else {
      var i :| 0 <= i < |emitted| && emitted[i].poc > f.poc;
      CountUptoMonotone(decoded, |decoded|, f.poc, emitted[i].poc - 1);
    }
    InOrderSnoc(emitted, pending, f);
  }

  lemma InOrderSnoc(emitted: seq<Frame>, pending: seq<Frame>, f: Frame)
    ensures InOrder(emitted, pending + [f]) <==> InOrder(emitted, pending) && AllAtMost(emitted, f.poc)
  {
    var all := pending + [f];
    assert all[|pending|] == f;
    assert forall j :: 0 <= j < |pending| ==> all[j] == pending[j];
  }

  lemma LateGrows(emitted: seq<Frame>, decoded: seq<Frame>, more: seq<Frame>, depth: nat)
    requires EmittedLate(emitted, decoded, depth)
    ensures EmittedLate(emitted, decoded + more, depth)
  {
    forall i | 0 <= i < |emitted|
      ensures CountAbove(decoded + more, emitted[i].poc - 1) > depth
    {
      CountAboveConcat(decoded, more, emitted[i].poc - 1);
    }
  }

  /** Only the members of what is held back matter, not their order. */
  lemma InOrderPermuted(emitted: seq<Frame>, a: seq<Frame>, b: seq<Frame>)
    requires multiset(a) == multiset(b)
    ensures InOrder(emitted, a) <==> InOrder(emitted, b)
  {
    SameMembers(a, b);
    SameMembers(b, a);
  }

  lemma SameMembers(a: seq<Frame>, b: seq<Frame>)
    requires multiset(a) == multiset(b)
    ensures forall i :: 0 <= i < |a| ==> exists j :: 0 <= j < |b| && b[j] == a[i]
  {
    forall i | 0 <= i < |a|
      ensures exists j :: 0 <= j < |b| && b[j] == a[i]
    {
      assert a[i] in multiset(a);
      assert a[i] in multiset(b);
    }
  }

  /** Emitting the lowest pending picture neither makes nor mends disorder. */
  lemma EmitKeepsOrder(emitted: seq<Frame>, rest: seq<Frame>, f: Frame)
    requires forall j :: 0 <= j < |rest| ==> f.poc <= rest[j].poc
    ensures InOrder(emitted, rest + [f]) <==> InOrder(emitted + [f], rest)
  {
    SortedSnoc(emitted, f);
    InOrderSnoc(emitted, rest, f);
    forall j | 0 <= j < |rest|
      ensures AllAtMost(emitted + [f], rest[j].poc) <==> AllAtMost(emitted, rest[j].poc)
    {
      var all := emitted + [f];
      assert forall i :: 0 <= i < |emitted| ==> all[i] == emitted[i];
    }
  }

  lemma SortedSnoc(fs: seq<Frame>, f: Frame)
    ensures Sorted(fs + [f]) <==> Sorted(fs) && AllAtMost(fs, f.poc)
  {
    var all := fs + [f];
    assert all[|fs|] == f;
    assert forall i :: 0 <= i < |fs| ==> all[i] == fs[i];
  }

  // ----- Pending frames through the parts of a step

  lemma {:induction false} PendingFramesSame(a: seq<Capture>, b: seq<Capture>)
    requires |a| == |b|
    requires forall i :: 0 <= i < |a| ==> a[i].pendingOutput == b[i].pendingOutput
    requires forall i :: 0 <= i < |a| && a[i].pendingOutput ==> FrameOf(a[i]) == FrameOf(b[i])
    ensures PendingFrames(a) == PendingFrames(b)
  {
    if a != [] {
      PendingFramesSame(a[..|a| - 1], b[..|b| - 1]);
    }
  }

  lemma {:induction false} PendingFramesMember(captures: seq<Capture>, f: Frame)
    ensures f in PendingFrames(captures)
      <==> exists i :: 0 <= i < |captures| && captures[i].pendingOutput && FrameOf(captures[i]) == f
  {
    if captures != [] {
      var init := captures[..|captures| - 1];
      PendingFramesMember(init, f);
      assert forall i :: 0 <= i < |init| ==> init[i] == captures[i];
    }
  }

  /** Frames keep their POC and timestamp while they wait. */
  lemma FramesAtEmitted(captures: seq<Capture>, k: nat, order: seq<nat>)
    requires k < |captures| && forall l :: 0 <= l < |order| ==> order[l] < |captures|
    ensures FramesAt(captures, [k] + order) == [FrameOf(captures[k])] + FramesAt(Emitted(captures, k), order)
  {
  }

  /** Everything held back from `poc` on was decoded. */
  lemma HeldCount(decoded: seq<Frame>, emitted: seq<Frame>, pending: seq<Frame>, poc: int)
    requires Accounted(decoded, emitted, pending)
    requires forall i :: 0 <= i < |pending| ==> poc <= pending[i].poc
    ensures CountAbove(decoded, poc - 1) >= |pending|
  {
    assert multiset(decoded) == multiset(emitted + pending);
    CountAbovePermuted(decoded, emitted + pending, poc - 1);
    CountAboveConcat(emitted, pending, poc - 1);
    CountUptoBounds(pending, |pending|, poc - 1);
  }

  lemma PendingAtLeast(captures: seq<Capture>, k: nat)
    requires LowestPending(captures) == Some(k)
    ensures forall i :: 0 <= i < |PendingFrames(captures)| ==> captures[k].poc <= PendingFrames(captures)[i].poc
  {
    var pending := PendingFrames(captures);
    forall i | 0 <= i < |pending|
      ensures captures[k].poc <= pending[i].poc
    {
      PendingFramesMember(captures, pending[i]);
    }
  }

  /** One emission: the lowest pending picture goes out. */
  lemma EmissionStep(decoded: seq<Frame>, emitted: seq<Frame>, pending: seq<Frame>, f: Frame, rest: seq<Frame>)
    requires Accounted(decoded, emitted, pending)
    requires multiset(pending) == multiset(rest) + multiset{f}
    requires forall i :: 0 <= i < |pending| ==> f.poc <= pending[i].poc
    ensures Accounted(decoded, emitted + [f], rest)
    ensures InOrder(emitted, pending) <==> InOrder(emitted + [f], rest)
  {
    assert multiset(rest + [f]) == multiset(pending);
    InOrderPermuted(emitted, pending, rest + [f]);
    SameMembers(rest + [f], pending);
    assert forall j :: 0 <= j < |rest| ==> (rest + [f])[j] == rest[j];
    EmitKeepsOrder(emitted, rest, f);
  }

  lemma BumpStep(decoded: seq<Frame>, emitted: seq<Frame>, captures: seq<Capture>, k: nat)
    requires Accounted(decoded, emitted, PendingFrames(captures))
    requires LowestPending(captures) == Some(k)
    ensures var f, after := FrameOf(captures[k]), Emitted(captures, k);
      && Accounted(decoded, emitted + [f], PendingFrames(after))
      && CountAbove(decoded, f.poc - 1) >= |PendingFrames(captures)|
      && (InOrder(emitted, PendingFrames(captures)) <==> InOrder(emitted + [f], PendingFrames(after)))
  {
    hide InOrder, Accounted, CountAbove, LowestPending;
    PendingAtLeast(captures, k);
    HeldCount(decoded, emitted, PendingFrames(captures), captures[k].poc);
    PendingFramesEmitted(captures, k);
    EmissionStep(decoded, emitted, PendingFrames(captures), FrameOf(captures[k]), PendingFrames(Emitted(captures, k)));
  }

  /** The frames that one run of the bumping process sends out. */
  function BumpOut(captures: seq<Capture>, limit: nat): seq<Frame> {
    FramesAt(captures, BumpOrder(captures, limit))
  }

  lemma BumpUnfold(captures: seq<Capture>, limit: nat)
    requires |PendingFrames(captures)| > limit
    ensures LowestPending(captures).Some?
    ensures var k := LowestPending(captures).value;
      && |PendingFrames(Emitted(captures, k))| == |PendingFrames(captures)| - 1
      && BumpOut(captures, limit) == [FrameOf(captures[k])] + BumpOut(Emitted(captures, k), limit)
      && Bumped(captures, limit) == Bumped(Emitted(captures, k), limit)
  {
    var k := LowestPending(captures).value;
    PendingFramesEmitted(captures, k);
    FramesAtEmitted(captures, k, BumpOrder(Emitted(captures, k), limit));
  }

  lemma {:induction false} BumpKeepsOrder(decoded: seq<Frame>, emitted: seq<Frame>, captures: seq<Capture>, limit: nat)
    requires Accounted(decoded, emitted, PendingFrames(captures))
    ensures Accounted(decoded, emitted + BumpOut(captures, limit), PendingFrames(Bumped(captures, limit)))
    ensures |PendingFrames(Bumped(captures, limit))| <= limit
    ensures InOrder(emitted, PendingFrames(captures))
      <==> InOrder(emitted + BumpOut(captures, limit), PendingFrames(Bumped(captures, limit)))
    decreases |PendingFrames(captures)|
  {
    if |PendingFrames(captures)| > limit {
      BumpUnfold(captures, limit);
      var k := LowestPending(captures).value;
      BumpStep(decoded, emitted, captures, k);
      var f, after := FrameOf(captures[k]), Emitted(captures, k);
      BumpKeepsOrder(decoded, emitted + [f], after, limit);
      ConcatAssoc(emitted, [f], BumpOut(after, limit));
    } else {
      assert emitted + BumpOut(captures, limit) == emitted;
    }
  }

  lemma LateCons(f: Frame, out: seq<Frame>, decoded: seq<Frame>, depth: nat)
    requires CountAbove(decoded, f.poc - 1) > depth && EmittedLate(out, decoded, depth)
    ensures EmittedLate([f] + out, decoded, depth)
  {
  }

  lemma LateConcat(a: seq<Frame>, b: seq<Frame>, decoded: seq<Frame>, depth: nat)
    requires EmittedLate(a, decoded, depth) && EmittedLate(b, decoded, depth)
    ensures EmittedLate(a + b, decoded, depth)
  {
  }

  lemma {:induction false} BumpIsLate(decoded: seq<Frame>, emitted: seq<Frame>, captures: seq<Capture>, limit: nat)
    requires Accounted(decoded, emitted, PendingFrames(captures))
    ensures EmittedLate(BumpOut(captures, limit), decoded, limit)
    decreases |PendingFrames(captures)|
  {
    hide InOrder, Accounted, CountAbove;
    if |PendingFrames(captures)| > limit {
      BumpUnfold(captures, limit);
      var k := LowestPending(captures).value;
      BumpStep(decoded, emitted, captures, k);
      var f, after := FrameOf(captures[k]), Emitted(captures, k);
      BumpIsLate(decoded, emitted + [f], after, limit);
      LateCons(f, BumpOut(after, limit), decoded, limit);
    }
  }

  // ----- A decode step

  lemma AddedPending(e: Engine, cap: nat, poc: int, tag: nat, timestamp: nat, output: bool)
    requires cap < |e.captures| && !e.captures[cap].pendingOutput
    ensures multiset(PendingFrames(AddPicture(e, cap, poc, tag, timestamp, output).captures))
      == multiset(PendingFrames(e.captures)) + multiset(if output then [Frame(poc, timestamp)] else [])
  {
    var after := AddPicture(e, cap, poc, tag, timestamp, output).captures;
    if output {
      PendingFramesEmitted(after, cap);
      PendingFramesSame(Emitted(after, cap), e.captures);
    } else {
      PendingFramesSame(after, e.captures);
    }
  }

  /** Zero or one picture arrives, then the bumping process runs. */
  lemma ArrivalStep(decoded: seq<Frame>, emitted: seq<Frame>, pending: seq<Frame>, arrived: seq<Frame>,
                    captures: seq<Capture>, depth: nat)
    requires OutputInv(decoded, emitted, pending, depth)
    requires |arrived| <= 1 && multiset(PendingFrames(captures)) == multiset(pending) + multiset(arrived)
    ensures OutputInv(decoded + arrived, emitted + BumpOut(captures, depth),
                      PendingFrames(Bumped(captures, depth)), depth)
  {
    var all, held := decoded + arrived, PendingFrames(captures);
    if arrived != [] {
      assert arrived == [arrived[0]];
      ArrivalKeepsOrder(decoded, emitted, pending, arrived[0], depth);
    } else {
      assert all == decoded && pending + [] == pending;
    }
    assert multiset(pending + arrived) == multiset(held);
    InOrderPermuted(emitted, pending + arrived, held);
    BumpKeepsOrder(all, emitted, captures, depth);
    LateGrows(emitted, decoded, arrived, depth);
    BumpIsLate(all, emitted, captures, depth);
    LateConcat(emitted, BumpOut(captures, depth), all, depth);
  }

  /** How a call looks to the output queue: nothing changes, or at most one picture arrives. */
  ghost predicate Quiet(e: Engine, step: Effect) {
    && step.decoded == [] && step.emitted == []
    && PendingFrames(step.next.captures) == PendingFrames(e.captures)
  }

  ghost predicate Arrives(e: Engine, step: Effect, captures: seq<Capture>) {
    && |step.decoded| <= 1
    && multiset(PendingFrames(captures)) == multiset(PendingFrames(e.captures)) + multiset(step.decoded)
    && step.emitted == BumpOut(captures, e.reorderDepth)
    && PendingFrames(step.next.captures) == PendingFrames(Bumped(captures, e.reorderDepth))
  }

  lemma DecodeShape(e: Engine, pic: Picture, timestamp: nat, outcome: DriverOutcome, accepts: set<nat>)
    returns (captures: seq<Capture>)
    requires LegalOutcome(e, outcome)
    requires outcome.Dequeued? ==> !e.captures[outcome.index].pendingOutput
    ensures var step := DecodeEffect(e, pic, timestamp, outcome, accepts);
      Quiet(e, step) || Arrives(e, step, captures)
  {
    hide PendingFrames, Bumped, BumpOrder, DpbKept, CurrentPoc, Unreferenced, NextAnchor;
    var step := DecodeEffect(e, pic, timestamp, outcome, accepts);
    var started := StartPicture(e, pic);
    PendingFramesSame(started.captures, e.captures);
    captures := e.captures;
    if step.ok {
      var sent := started.(nextTag := e.nextTag + 1);
      var added := AddPicture(sent, outcome.index, CurrentPoc(e, pic), e.nextTag, timestamp, pic.output);
      AddedPending(sent, outcome.index, CurrentPoc(e, pic), e.nextTag, timestamp, pic.output);
      captures := added.captures;
      PendingFramesSame(step.next.captures, Bumped(captures, e.reorderDepth));
    } else {
      PendingFramesSame(step.next.captures, e.captures);
    }
  }

  lemma OtherShape(e: Engine, ev: Event)
    requires Legal(e, ev) && WithinSequence(ev) && !ev.Decode?
    ensures Quiet(e, Step(e, ev)) && Step(e, ev).next.reorderDepth == e.reorderDepth
  {
    hide PendingFrames, DecodeEffect, FlushEngine, BumpEngine;
    PendingFramesSame(Step(e, ev).next.captures, e.captures);
  }

  lemma DecodeDepth(e: Engine, pic: Picture, timestamp: nat, outcome: DriverOutcome, accepts: set<nat>)
    requires LegalOutcome(e, outcome)
    ensures DecodeEffect(e, pic, timestamp, outcome, accepts).next.reorderDepth == e.reorderDepth
  {
    hide DpbKept, CurrentPoc, Bumped, BumpOrder, Unreferenced, Trim, QueueIdle;
  }

  lemma StepShape(e: Engine, ev: Event) returns (captures: seq<Capture>)
    requires Legal(e, ev) && WithinSequence(ev)
    requires forall i :: 0 <= i < |e.captures| && e.captures[i].queued ==> !e.captures[i].pendingOutput
    ensures Quiet(e, Step(e, ev)) || Arrives(e, Step(e, ev), captures)
    ensures Step(e, ev).next.reorderDepth == e.reorderDepth
  {
    hide DecodeEffect, Quiet, Arrives, AcquireEffect, ReleaseEngine;
    captures := e.captures;
    if ev.Decode? {
      captures := DecodeShape(e, ev.pic, ev.timestamp, ev.outcome, ev.accepts);
      DecodeDepth(e, ev.pic, ev.timestamp, ev.outcome, ev.accepts);
    } else {
      OtherShape(e, ev);
    }
  }

  // ----- Whole runs

  /** Calls that belong to one coded video sequence. */
  predicate WithinSequence(ev: Event) {
    !ev.Flush? && !ev.Drain?
  }

  lemma StepKeepsOutput(decoded: seq<Frame>, emitted: seq<Frame>, e: Engine, ev: Event)
    requires Inv(e) && Legal(e, ev) && WithinSequence(ev)
    requires OutputInv(decoded, emitted, PendingFrames(e.captures), e.reorderDepth)
    ensures var step := Step(e, ev);
      && step.next.reorderDepth == e.reorderDepth
      && OutputInv(decoded + step.decoded, emitted + step.emitted, PendingFrames(step.next.captures), e.reorderDepth)
  {
    hide Step;
    var step := Step(e, ev);
    var captures := StepShape(e, ev);
    if Quiet(e, step) {
      assert decoded + [] == decoded && emitted + [] == emitted;
    } else {
      ArrivalStep(decoded, emitted, PendingFrames(e.captures), step.decoded, captures, e.reorderDepth);
    }
  }

  ghost function RunDecoded(e: Engine, events: seq<Event>): seq<Frame>
    requires IsRun(e, events)
    decreases |events|
  {
    if events == [] then []
    else Step(e, events[0]).decoded + RunDecoded(Step(e, events[0]).next, events[1..])
  }

  ghost function RunEmitted(e: Engine, events: seq<Event>): seq<Frame>
    requires IsRun(e, events)
    decreases |events|
  {
    if events == [] then []
    else Step(e, events[0]).emitted + RunEmitted(Step(e, events[0]).next, events[1..])
  }

  ghost function RunTaken(e: Engine, events: seq<Event>): seq<Frame>
    requires IsRun(e, events)
    decreases |events|
  {
    if events == [] then []
    else Step(e, events[0]).taken + RunTaken(Step(e, events[0]).next, events[1..])
  }

  lemma {:induction false} RunKeepsOutput(decoded: seq<Frame>, emitted: seq<Frame>, e: Engine, events: seq<Event>)
    requires Inv(e) && IsRun(e, events) && (forall k :: 0 <= k < |events| ==> WithinSequence(events[k]))
    requires OutputInv(decoded, emitted, PendingFrames(e.captures), e.reorderDepth)
    ensures OutputInv(decoded + RunDecoded(e, events), emitted + RunEmitted(e, events),
                      PendingFrames(RunEngine(e, events).captures), e.reorderDepth)
    ensures RunEngine(e, events).reorderDepth == e.reorderDepth
    decreases |events|
  {
    hide Step, OutputInv;
    if events == [] {
      assert decoded + [] == decoded && emitted + [] == emitted;
    } else {
      var step := Step(e, events[0]);
      StepKeepsInv(e, events[0]);
      StepKeepsOutput(decoded, emitted, e, events[0]);
      RunKeepsOutput(decoded + step.decoded, emitted + step.emitted, step.next, events[1..]);
      ConcatAssoc(decoded, step.decoded, RunDecoded(step.next, events[1..]));
      ConcatAssoc(emitted, step.emitted, RunEmitted(step.next, events[1..]));
    }
  }

  lemma EmptyOutput(depth: nat)
    ensures OutputInv([], [], [], depth)
  {
  }

  lemma InOrderAlone(emitted: seq<Frame>)
    ensures InOrder(emitted, []) <==> Sorted(emitted)
  {
  }

  lemma DrainShape(e: Engine)
    ensures Step(e, Drain).emitted == BumpOut(e.captures, 0)
  {
  }

  /**
   * Reorder output, over any run of one sequence that starts with nothing held
   * back and ends in Drain: every picture decoded for output is emitted exactly
   * once, and they come out in POC order if and only if no picture had more than
   * `reorderDepth` earlier-decoded ones of higher POC.
   */
  lemma DrainedRunSorted(e: Engine, events: seq<Event>)
    requires Inv(e) && PendingFrames(e.captures) == []
    requires IsRun(e, events) && (forall k :: 0 <= k < |events| ==> WithinSequence(events[k]))
    ensures var last := RunEngine(e, events);
      var decoded, emitted := RunDecoded(e, events), RunEmitted(e, events) + Step(last, Drain).emitted;
      && multiset(emitted) == multiset(decoded)
      && (Sorted(emitted) <==> ReorderBounded(decoded, e.reorderDepth))
  {
    hide Step, InOrder, Inv, ReorderBounded, EmittedLate;
    var last := RunEngine(e, events);
    EmptyOutput(e.reorderDepth);
    RunKeepsOutput([], [], e, events);
    DrainShape(last);
    var decoded, emitted := RunDecoded(e, events), RunEmitted(e, events);
    assert [] + decoded == decoded && [] + emitted == emitted;
    BumpKeepsOrder(decoded, emitted, last.captures, 0);
    assert PendingFrames(Bumped(last.captures, 0)) == [];
    InOrderAlone(emitted + BumpOut(last.captures, 0));
  }

  // ----- The ready queue is a FIFO

  ghost predicate ReadyInRange(e: Engine) {
    forall k :: 0 <= k < |e.ready| ==> e.ready[k] < |e.captures|
  }

  ghost function ReadyFrames(e: Engine): seq<Frame>
    requires ReadyInRange(e)
  {
    FramesAt(e.captures, e.ready)
  }

  /** Calls that leave the waiting frames' buffers alone. */
  lemma ReadyFramesSame(e: Engine, after: Engine)
    requires ReadyInRange(e) && after.ready == e.ready && |after.captures| == |e.captures|
    requires forall i :: 0 <= i < |e.captures| ==> FrameOf(after.captures[i]) == FrameOf(e.captures[i])
    ensures ReadyInRange(after) && ReadyFrames(after) == ReadyFrames(e)
  {
  }

  lemma FramesAtSame(a: seq<Capture>, b: seq<Capture>, order: seq<nat>)
    requires |a| == |b| && forall k :: 0 <= k < |order| ==> order[k] < |a|
    requires forall k :: 0 <= k < |order| ==> FrameOf(a[order[k]]) == FrameOf(b[order[k]])
    ensures FramesAt(a, order) == FramesAt(b, order)
  {
  }

  lemma FramesAtConcat(captures: seq<Capture>, a: seq<nat>, b: seq<nat>)
    requires forall k :: 0 <= k < |a| ==> a[k] < |captures|
    requires forall k :: 0 <= k < |b| ==> b[k] < |captures|
    ensures FramesAt(captures, a + b) == FramesAt(captures, a) + FramesAt(captures, b)
  {
  }

  lemma FramesAtHead(captures: seq<Capture>, order: seq<nat>)
    requires order != [] && forall k :: 0 <= k < |order| ==> order[k] < |captures|
    ensures FramesAt(captures, order) == [FrameOf(captures[order[0]])] + FramesAt(captures, order[1..])
  {
  }

  lemma {:induction false} BumpedFrames(captures: seq<Capture>, limit: nat, i: nat)
    requires i < |captures|
    ensures FrameOf(Bumped(captures, limit)[i]) == FrameOf(captures[i])
    decreases |PendingFrames(captures)|
  {
    if |PendingFrames(captures)| > limit {
      var k := LowestPending(captures).value;
      PendingFramesEmitted(captures, k);
      BumpedFrames(Emitted(captures, k), limit, i);
    }
  }

  lemma BumpIsFifo(e: Engine, flush: bool)
    requires ReadyInRange(e)
    ensures ReadyInRange(BumpEngine(e, flush))
    ensures ReadyFrames(BumpEngine(e, flush)) == ReadyFrames(e) + BumpFrames(e, flush)
  {
    var limit := if flush then 0 else e.reorderDepth;
    var after := BumpEngine(e, flush);
    forall i | 0 <= i < |e.captures|
      ensures FrameOf(after.captures[i]) == FrameOf(e.captures[i])
    {
      BumpedFrames(e.captures, limit, i);
    }
    FramesAtSame(after.captures, e.captures, after.ready);
    FramesAtConcat(e.captures, e.ready, BumpOrder(e.captures, limit));
  }

  /** A buffer that comes back from the driver was not waiting in the ready queue. */
  lemma AddIsFifo(e: Engine, cap: nat, poc: int, tag: nat, timestamp: nat, output: bool)
    requires ReadyInRange(e) && cap < |e.captures| && cap !in e.ready
    ensures var added := AddPicture(e, cap, poc, tag, timestamp, output);
      ReadyInRange(added) && ReadyFrames(added) == ReadyFrames(e)
  {
    hide Trim;
    var added := AddPicture(e, cap, poc, tag, timestamp, output);
    assert forall k :: 0 <= k < |e.ready| ==> e.ready[k] != cap;
    FramesAtSame(added.captures, e.captures, e.ready);
  }

  lemma FinishIsFifo(e: Engine, cap: nat, poc: int, tag: nat, error: bool, timestamp: nat, output: bool,
                     accepts: set<nat>)
    requires ReadyInRange(e) && cap < |e.captures| && cap !in e.ready
    ensures var next := FinishPicture(e, cap, poc, tag, error, timestamp, output, accepts);
      && ReadyInRange(next)
      && ReadyFrames(next) == ReadyFrames(e)
        + (if error then [] else BumpFrames(AddPicture(e, cap, poc, tag, timestamp, output), false))
  {
    var next := FinishPicture(e, cap, poc, tag, error, timestamp, output, accepts);
    if error {
      ReadyFramesSame(e, next);
    } else {
      AddIsFifo(e, cap, poc, tag, timestamp, output);
      hide AddPicture, Bumped, BumpOrder;
      var added := AddPicture(e, cap, poc, tag, timestamp, output);
      BumpIsFifo(added, false);
      ReadyFramesSame(BumpEngine(added, false), next);
    }
  }

  lemma DecodeIsFifo(e: Engine, pic: Picture, timestamp: nat, outcome: DriverOutcome, accepts: set<nat>)
    requires LegalOutcome(e, outcome) && ReadyInRange(e)
    requires outcome.Dequeued? ==> outcome.index !in e.ready
    ensures var step := DecodeEffect(e, pic, timestamp, outcome, accepts);
      ReadyInRange(step.next) && ReadyFrames(step.next) == ReadyFrames(e) + step.emitted
  {
    hide DpbKept, CurrentPoc;
    var started := StartPicture(e, pic);
    ReadyFramesSame(e, started);
    hide AddPicture, BumpFrames, FinishPicture, StartPicture;
    if outcome.Dequeued? {
      FinishIsFifo(started.(nextTag := e.nextTag + 1), outcome.index, CurrentPoc(e, pic), e.nextTag, outcome.error,
        timestamp, pic.output, accepts);
    }
  }

  lemma AcquireIsFifo(e: Engine, exported: bool, accepts: set<nat>)
    requires ReadyInRange(e)
    ensures var step := AcquireEffect(e, exported, accepts);
      ReadyInRange(step.next) && step.taken + ReadyFrames(step.next) == ReadyFrames(e)
  {
    var step := AcquireEffect(e, exported, accepts);
    if e.ready != [] {
      var rest := e.ready[1..];
      FramesAtSame(step.next.captures, e.captures, rest);
      FramesAtHead(e.captures, e.ready);
    }
  }

  lemma ReleaseIsFifo(e: Engine, index: nat, accepts: set<nat>)
    requires ReadyInRange(e)
    ensures var next := ReleaseEngine(e, index, accepts);
      ReadyInRange(next) && ReadyFrames(next) == ReadyFrames(e)
  {
    ReadyFramesSame(e, ReleaseEngine(e, index, accepts));
  }

  lemma QueuedNotReady(e: Engine, outcome: DriverOutcome)
    requires Inv(e) && LegalOutcome(e, outcome)
    ensures outcome.Dequeued? ==> outcome.index !in e.ready
  {
  }

  lemma StepIsFifo(e: Engine, ev: Event)
    requires Inv(e) && Legal(e, ev) && !ev.Flush?
    ensures ReadyInRange(e)
    ensures var step := Step(e, ev);
      ReadyInRange(step.next) && step.taken + ReadyFrames(step.next) == ReadyFrames(e) + step.emitted
  {
    InvReady(e);
    if ev.Decode? {
      QueuedNotReady(e, ev.outcome);
    }
    hide Inv, DecodeEffect, BumpEngine, BumpFrames, AcquireEffect, ReleaseEngine;
    match ev
    case Decode(pic, timestamp, outcome, accepts) => DecodeIsFifo(e, pic, timestamp, outcome, accepts);
    case Drain => BumpIsFifo(e, true);
    case Acquire(exported, accepts) => AcquireIsFifo(e, exported, accepts);
    case Release(index, accepts) => ReleaseIsFifo(e, index, accepts);
    case EndOfSequence =>
    case NewSps(_) =>
  }

  lemma InvReady(e: Engine)
    requires Inv(e)
    ensures ReadyInRange(e)
  {
  }

  /** Acquire hands frames out in the order they were emitted, skipping none. */
  lemma {:induction false} RunIsFifo(e: Engine, events: seq<Event>)
    requires Inv(e) && IsRun(e, events) && forall k :: 0 <= k < |events| ==> !events[k].Flush?
    ensures ReadyInRange(e) && ReadyInRange(RunEngine(e, events))
    ensures RunTaken(e, events) + ReadyFrames(RunEngine(e, events)) == ReadyFrames(e) + RunEmitted(e, events)
    decreases |events|
  {
    hide Step, Inv;
    InvReady(e);
    if events != [] {
      var step := Step(e, events[0]);
      StepIsFifo(e, events[0]);
      StepKeepsInv(e, events[0]);
      RunIsFifo(step.next, events[1..]);
      var last, rest := RunEngine(e, events), events[1..];
      ConcatAssoc(step.taken, RunTaken(step.next, rest), ReadyFrames(last));
      ConcatAssoc(step.taken, ReadyFrames(step.next), RunEmitted(step.next, rest));
      ConcatAssoc(ReadyFrames(e), step.emitted, RunEmitted(step.next, rest));
    }
  }

  // ----- What the consumer gets

  /** The frames that Acquire hands out; one whose export fails is dropped. */
  ghost function RunHanded(e: Engine, events: seq<Event>): seq<Frame>
    requires IsRun(e, events)
    decreases |events|
  {
    if events == [] then []
    else
      var step := Step(e, events[0]);
      (if step.ok then step.taken else []) + RunHanded(step.next, events[1..])
  }

  ghost predicate AllExport(events: seq<Event>) {
    forall k :: 0 <= k < |events| && events[k].Acquire? ==> events[k].exported
  }

  lemma NoneDropped(e: Engine, ev: Event)
    requires Legal(e, ev) && (ev.Acquire? ==> ev.exported)
    ensures Step(e, ev).ok || Step(e, ev).taken == []
  {
    hide DecodeEffect, FlushEngine, BumpEngine, BumpFrames, ReleaseEngine;
    if ev.Decode? {
      DecodeTakesNone(e, ev);
    }
  }

  lemma DecodeTakesNone(e: Engine, ev: Event)
    requires ev.Decode? && Legal(e, ev)
    ensures Step(e, ev).taken == []
  {
    hide StartPicture, FinishPicture, AddPicture, CurrentPoc, BumpFrames;
  }

  lemma {:induction false} HandedIsTaken(e: Engine, events: seq<Event>)
    requires IsRun(e, events) && AllExport(events)
    ensures RunHanded(e, events) == RunTaken(e, events)
    decreases |events|
  {
    hide Step;
    if events != [] {
      NoneDropped(e, events[0]);
      HandedIsTaken(Step(e, events[0]).next, events[1..]);
    }
  }

  /** Enough calls of Acquire empty the ready queue and emit nothing. */
  lemma {:induction false} AcquiresEmpty(e: Engine, acquires: seq<Event>)
    requires Inv(e) && IsRun(e, acquires) && |acquires| >= |e.ready|
    requires forall k :: 0 <= k < |acquires| ==> acquires[k].Acquire?
    ensures RunEngine(e, acquires).ready == [] && RunEmitted(e, acquires) == []
    decreases |acquires|
  {
    hide Inv, Step;
    if acquires != [] {
      StepKeepsInv(e, acquires[0]);
      AcquireShortens(e, acquires[0]);
      AcquiresEmpty(Step(e, acquires[0]).next, acquires[1..]);
    }
  }

  lemma AcquireShortens(e: Engine, ev: Event)
    requires Inv(e) && ev.Acquire?
    ensures Legal(e, ev) && Step(e, ev).emitted == []
    ensures |Step(e, ev).next.ready| == if e.ready == [] then 0 else |e.ready| - 1
  {
    InvReady(e);
    hide Inv;
  }

  /**
   * What the consumer sees of a sequence that starts with nothing held back and
   * ends in Drain and enough calls of Acquire, each of which can export: every
   * picture decoded for output exactly once, and in POC order if and only if no
   * picture had more than `reorderDepth` earlier-decoded ones of higher POC.
   */
  lemma ConsumerSeesSorted(e: Engine, events: seq<Event>, acquires: seq<Event>)
    requires Inv(e) && PendingFrames(e.captures) == [] && e.ready == []
    requires IsRun(e, events) && AllExport(events) && AllExport(acquires)
    requires forall k :: 0 <= k < |events| ==> WithinSequence(events[k])
    requires forall k :: 0 <= k < |acquires| ==> acquires[k].Acquire?
    requires var drained := Step(RunEngine(e, events), Drain).next;
      IsRun(drained, acquires) && |acquires| >= |drained.ready|
    ensures var drained := Step(RunEngine(e, events), Drain).next;
      var decoded, seen := RunDecoded(e, events), RunHanded(e, events) + RunHanded(drained, acquires);
      && multiset(seen) == multiset(decoded)
      && (Sorted(seen) <==> ReorderBounded(decoded, e.reorderDepth))
  {
    hide Step, Inv, ReorderBounded, Sorted, PendingFrames, FramesAt, AllExport;
    var last := RunEngine(e, events);
    var drain := Step(last, Drain);
    RunKeepsInv(e, events);
    StepKeepsInv(last, Drain);
    DrainedRunSorted(e, events);
    HandedIsTaken(e, events);
    HandedIsTaken(drain.next, acquires);
    AcquiresEmpty(drain.next, acquires);
    RunIsFifo(e, events);
    StepIsFifo(last, Drain);
    RunIsFifo(drain.next, acquires);
    DrainTakesNone(last);
    NoReadyFrames(e);
    NoReadyFrames(RunEngine(drain.next, acquires));
    Joined(RunTaken(e, events), ReadyFrames(last), RunEmitted(e, events), drain.emitted,
           ReadyFrames(drain.next), RunTaken(drain.next, acquires));
  }

  lemma DrainTakesNone(e: Engine)
    ensures Step(e, Drain).taken == []
  {
  }

  lemma NoReadyFrames(e: Engine)
    requires e.ready == []
    ensures ReadyInRange(e) && ReadyFrames(e) == []
  {
  }

  lemma Joined(taken: seq<Frame>, waiting: seq<Frame>, emitted: seq<Frame>, drained: seq<Frame>,
               ready: seq<Frame>, rest: seq<Frame>)
    requires taken + waiting == [] + emitted
    requires [] + ready == waiting + drained && rest + [] == ready + []
    ensures taken + rest == emitted + drained
  {
    assert [] + emitted == emitted && [] + ready == ready && rest + [] == rest && ready + [] == ready;
    ConcatAssoc(taken, waiting, drained);
  }
}
