/**
 * The state of V4l2StatelessH265Decoder and what each of its operations does
 * to it, as functions of the state, the operation's input and the answers of
 * the driver. The class in V4l2StatelessH265Decoder.dfy is proved to compute
 * these functions; the run-long properties are proved about them.
 */
module StatelessEngine {
  import opened Wrappers
  import opened DpbMachine
  import opened DpbBuffers

  /** A CAPTURE buffer. `queued` means it is with the driver. */
  datatype Capture = Capture(
    queued: bool,
    isReference: bool,
    checkedOut: bool,
    pendingOutput: bool,
    poc: int,
    timestamp: nat)

  datatype Engine = Engine(
    captures: seq<Capture>,
    dpb: seq<RefPic>,
    ready: seq<nat>,
    reorderDepth: nat,
    anchor: Anchor,
    seenFirst: bool,
    eosSeen: bool,
    nextTag: nat,
    sps: SpsParams)

  /** A decoded picture as the consumer sees it. */
  datatype Frame = Frame(poc: int, timestamp: nat)

  /**
   * How the driver answers one picture's request: no mapped OUTPUT buffer,
   * some ioctl refused or timed out, or a CAPTURE buffer dequeued.
   */
  datatype DriverOutcome = NoOutputBuffer | RequestFailed | Dequeued(index: nat, error: bool)

  /** One call; `accepts` holds the buffers whose QBUF would succeed during it. */
  datatype Event =
    | Decode(pic: Picture, timestamp: nat, outcome: DriverOutcome, accepts: set<nat>)
    | Acquire(exported: bool, accepts: set<nat>)
    | Release(index: nat, accepts: set<nat>)
    | Flush(accepts: set<nat>)
    | Drain
    | EndOfSequence
    | NewSps(sps: SpsParams)

  /**
   * The state after a call, and what it did: the picture decoded for output,
   * the frames moved to the ready queue, the frame taken off it.
   */
  datatype Effect = Effect(next: Engine, ok: bool, decoded: seq<Frame>, emitted: seq<Frame>, taken: seq<Frame>)

  function FrameOf(c: Capture): Frame {
    Frame(c.poc, c.timestamp)
  }

  function FramesAt(captures: seq<Capture>, order: seq<nat>): (fs: seq<Frame>)
    requires forall k :: 0 <= k < |order| ==> order[k] < |captures|
    ensures |fs| == |order|
    ensures forall k :: 0 <= k < |fs| ==> fs[k] == FrameOf(captures[order[k]])
  {
    seq(|order|, k requires 0 <= k < |order| => FrameOf(captures[order[k]]))
  }

  // ----- Handing buffers to the driver

  /** RequeueCapture on one buffer. */
  function Queued(c: Capture, accepted: bool): Capture {
    if accepted then c.(queued := true) else c
  }

  /** The test of MaybeRequeue. */
  predicate InUse(c: Capture, inReady: bool) {
    c.queued || c.isReference || c.checkedOut || c.pendingOutput || inReady
  }

  function MaybeQueued(c: Capture, inReady: bool, accepted: bool): Capture {
    if InUse(c, inReady) then c else Queued(c, accepted)
  }

  /** MaybeRequeue on every buffer. */
  function QueueIdle(captures: seq<Capture>, ready: seq<nat>, accepts: set<nat>): (r: seq<Capture>)
    ensures |r| == |captures|
    ensures forall i :: 0 <= i < |r| ==> r[i] == MaybeQueued(captures[i], i in ready, i in accepts)
  {
    seq(|captures|, i requires 0 <= i < |captures| => MaybeQueued(captures[i], i in ready, i in accepts))
  }

  function Unreferenced(captures: seq<Capture>, gone: set<nat>): (r: seq<Capture>)
    ensures |r| == |captures|
    ensures forall i :: 0 <= i < |r| ==>
      r[i] == if i in gone then captures[i].(isReference := false) else captures[i]
  {
    seq(|captures|, i requires 0 <= i < |captures| =>
      if i in gone then captures[i].(isReference := false) else captures[i])
  }

  // ----- Output order

  /** The frames held back for reordering, in buffer order. */
  function PendingFrames(captures: seq<Capture>): seq<Frame> {
    if captures == [] then []
    else
      var last := captures[|captures| - 1];
      PendingFrames(captures[..|captures| - 1]) + (if last.pendingOutput then [FrameOf(last)] else [])
  }

  /** The first buffer of lowest POC among those pending. */
  function LowestPending(captures: seq<Capture>): (r: Option<nat>)
    ensures r.Some? ==> r.value < |captures| && captures[r.value].pendingOutput
    ensures r.Some? ==> forall i :: 0 <= i < |captures| && captures[i].pendingOutput ==>
      captures[r.value].poc <= captures[i].poc
    ensures r.None? <==> forall i :: 0 <= i < |captures| ==> !captures[i].pendingOutput
    ensures r.None? <==> PendingFrames(captures) == []
  {
    if captures == [] then None
    else
      var init, last := captures[..|captures| - 1], captures[|captures| - 1];
      assert captures == init + [last];
      var k := LowestPending(init);
      if last.pendingOutput && (k.None? || last.poc < captures[k.value].poc) then Some(|captures| - 1) else k
  }

  function Emitted(captures: seq<Capture>, k: nat): seq<Capture>
    requires k < |captures|
  {
    captures[k := captures[k].(pendingOutput := false)]
  }

  lemma {:induction false} PendingFramesEmitted(captures: seq<Capture>, k: nat)
    requires k < |captures| && captures[k].pendingOutput
    ensures multiset(PendingFrames(captures))
      == multiset(PendingFrames(Emitted(captures, k))) + multiset{FrameOf(captures[k])}
    ensures |PendingFrames(Emitted(captures, k))| == |PendingFrames(captures)| - 1
  {
    hide PendingFrames, Emitted;
    var init, after := captures[..|captures| - 1], Emitted(captures, k);
    EmittedParts(captures, k);
    PendingSnoc(captures);
    PendingSnoc(after);
    if k < |init| {
      PendingFramesEmitted(init, k);
      var tail := if captures[|init|].pendingOutput then [FrameOf(captures[|init|])] else [];
      SameTail(PendingFrames(init), PendingFrames(Emitted(init, k)), FrameOf(captures[k]), tail);
    } else {
      assert PendingFrames(init) + [] == PendingFrames(init);
    }
  }

  lemma EmittedParts(captures: seq<Capture>, k: nat)
    requires k < |captures|
    ensures var init, last, after := captures[..|captures| - 1], captures[|captures| - 1], Emitted(captures, k);
      && |after| == |captures|
      && (k < |init| ==> after[..|init|] == Emitted(init, k) && after[|init|] == last)
      && (k == |init| ==> after[..|init|] == init && !after[|init|].pendingOutput)
  {
  }

  lemma PendingSnoc(captures: seq<Capture>)
    requires captures != []
    ensures var init, last := captures[..|captures| - 1], captures[|captures| - 1];
      PendingFrames(captures) == PendingFrames(init) + (if last.pendingOutput then [FrameOf(last)] else [])
  {
  }

  lemma SameTail(a: seq<Frame>, b: seq<Frame>, f: Frame, tail: seq<Frame>)
    requires multiset(a) == multiset(b) + multiset{f}
    ensures multiset(a + tail) == multiset(b + tail) + multiset{f} && |b| == |a| - 1
  {
    assert |multiset(a)| == |multiset(b)| + 1;
  }

  /** The bumping process of section C.5.2.2: what is emitted, and in which order. */
  function BumpOrder(captures: seq<Capture>, limit: nat): (order: seq<nat>)
    ensures forall k :: 0 <= k < |order| ==> order[k] < |captures|
    decreases |PendingFrames(captures)|
  {
    if |PendingFrames(captures)| <= limit then []
    else
      var k := LowestPending(captures).value;
      PendingFramesEmitted(captures, k);
      [k] + BumpOrder(Emitted(captures, k), limit)
  }

  function Bumped(captures: seq<Capture>, limit: nat): (r: seq<Capture>)
    ensures |r| == |captures|
    decreases |PendingFrames(captures)|
  {
    if |PendingFrames(captures)| <= limit then captures
    else
      var k := LowestPending(captures).value;
      PendingFramesEmitted(captures, k);
      Bumped(Emitted(captures, k), limit)
  }

  /** One emission of the bumping process. */
  lemma BumpOnce(ready: seq<nat>, captures: seq<Capture>, limit: nat)
    requires |PendingFrames(captures)| > limit
    ensures LowestPending(captures).Some?
    ensures var k := LowestPending(captures).value;
      && Bumped(captures, limit) == Bumped(Emitted(captures, k), limit)
      && ready + BumpOrder(captures, limit) == ready + [k] + BumpOrder(Emitted(captures, k), limit)
      && |PendingFrames(Emitted(captures, k))| < |PendingFrames(captures)|
  {
    hide LowestPending, PendingFrames, Emitted;
    PendingFramesEmitted(captures, LowestPending(captures).value);
  }

  function BumpEngine(e: Engine, flush: bool): Engine {
    var limit := if flush then 0 else e.reorderDepth;
    e.(captures := Bumped(e.captures, limit), ready := e.ready + BumpOrder(e.captures, limit))
  }

  function BumpFrames(e: Engine, flush: bool): seq<Frame> {
    FramesAt(e.captures, BumpOrder(e.captures, if flush then 0 else e.reorderDepth))
  }

  // ----- Decoding a picture

  function CurrentPoc(e: Engine, pic: Picture): int {
    PocOf(e.anchor, pic, e.sps.MaxPocLsb(), NoRaslOutput(pic, e.seenFirst, e.eosSeen))
  }

  /** The DPB the picture's reference set is resolved against. */
  function DpbAtStart(e: Engine, pic: Picture): seq<RefPic> {
    if StartsSequence(pic, NoRaslOutput(pic, e.seenFirst, e.eosSeen)) then [] else e.dpb
  }

  function RpsAtStart(e: Engine, pic: Picture): RefPicSet {
    DeriveRps(DpbAtStart(e, pic), pic, CurrentPoc(e, pic), e.sps.MaxPocLsb())
  }

  function DpbKept(e: Engine, pic: Picture): seq<RefPic> {
    Evict(DpbAtStart(e, pic), RpsAtStart(e, pic).kept)
  }

  /** Up to and including eviction; this much happens however the driver answers. */
  function StartPicture(e: Engine, pic: Picture): Engine {
    var kept := DpbKept(e, pic);
    e.(
      anchor := NextAnchor(e.anchor, pic, e.sps.MaxPocLsb(), NoRaslOutput(pic, e.seenFirst, e.eosSeen)),
      seenFirst := true,
      eosSeen := false,
      captures := Unreferenced(e.captures, Buffers(e.dpb) - Buffers(kept)),
      dpb := kept)
  }

  function Decoded(c: Capture, poc: int, timestamp: nat, output: bool): Capture {
    c.(queued := false, isReference := true, pendingOutput := output, poc := poc, timestamp := timestamp)
  }

  /** The decoded picture joins the DPB, which is then cut to its bound. */
  function AddPicture(e: Engine, cap: nat, poc: int, tag: nat, timestamp: nat, output: bool): Engine
    requires cap < |e.captures|
  {
    var all := e.dpb + [RefPic(poc, cap, tag)];
    var kept := Trim(all, e.sps.MaxDpb());
    e.(
      captures := Unreferenced(e.captures, Buffers(all) - Buffers(kept) - {cap})
        [cap := Decoded(e.captures[cap], poc, timestamp, output)],
      dpb := kept)
  }

  /** After the request went out: error, or the picture is added, bumped and idle buffers requeued. */
  function FinishPicture(e: Engine, cap: nat, poc: int, tag: nat, error: bool, timestamp: nat, output: bool,
                         accepts: set<nat>): Engine
    requires cap < |e.captures|
  {
    if error then
      e.(captures := e.captures[cap := Queued(e.captures[cap].(queued := false), cap in accepts)])
    else
      var bumped := BumpEngine(AddPicture(e, cap, poc, tag, timestamp, output), false);
      bumped.(captures := QueueIdle(bumped.captures, bumped.ready, accepts))
  }

  predicate LegalOutcome(e: Engine, outcome: DriverOutcome) {
    outcome.Dequeued? ==> outcome.index < |e.captures| && e.captures[outcome.index].queued
  }

  function DecodeEffect(e: Engine, pic: Picture, timestamp: nat, outcome: DriverOutcome, accepts: set<nat>): Effect
    requires LegalOutcome(e, outcome)
  {
    var started := StartPicture(e, pic);
    var poc := CurrentPoc(e, pic);
    match outcome
    case NoOutputBuffer => Effect(started, false, [], [], [])
    case RequestFailed => Effect(started.(nextTag := e.nextTag + 1), false, [], [], [])
    case Dequeued(cap, error) =>
      var sent := started.(nextTag := e.nextTag + 1);
      var next := FinishPicture(sent, cap, poc, e.nextTag, error, timestamp, pic.output, accepts);
      if error then Effect(next, false, [], [], [])
      else
        Effect(next, true,
               if pic.output then [Frame(poc, timestamp)] else [],
               BumpFrames(AddPicture(sent, cap, poc, e.nextTag, timestamp, pic.output), false), [])
  }

  // ----- The other calls

  function AcquireEffect(e: Engine, exported: bool, accepts: set<nat>): Effect {
    if e.ready == [] || e.ready[0] >= |e.captures| then Effect(e, false, [], [], [])
    else
      var cap := e.ready[0];
      var c := e.captures[cap];
      var popped := e.(ready := e.ready[1..]);
      if exported then
        Effect(popped.(captures := e.captures[cap := c.(checkedOut := true)]), true, [], [], [FrameOf(c)])
      else
        Effect(popped.(captures := e.captures[cap := MaybeQueued(c, cap in popped.ready, cap in accepts)]),
               false, [], [], [FrameOf(c)])
  }

  function ReleaseEngine(e: Engine, index: nat, accepts: set<nat>): Engine {
    if index >= |e.captures| then e
    else
      var c := e.captures[index].(checkedOut := false);
      e.(captures := e.captures[index := MaybeQueued(c, index in e.ready, index in accepts)])
  }

  function Flushed(c: Capture, inDpb: bool, accepted: bool): Capture {
    var d := c.(isReference := c.isReference && !inDpb, pendingOutput := false);
    if d.checkedOut || d.queued then d else Queued(d, accepted)
  }

  function FlushEngine(e: Engine, accepts: set<nat>): Engine {
    e.(
      captures := seq(|e.captures|, i requires 0 <= i < |e.captures| =>
        Flushed(e.captures[i], i in Buffers(e.dpb), i in accepts)),
      dpb := [],
      ready := [],
      anchor := Anchor(0, 0),
      seenFirst := false,
      eosSeen := false)
  }

  /** What callers and the driver may do: the driver returns only a buffer it holds. */
  predicate Legal(e: Engine, ev: Event) {
    (ev.Decode? ==> LegalOutcome(e, ev.outcome)) && (ev.NewSps? ==> ev.sps.Valid())
  }

  function Step(e: Engine, ev: Event): Effect
    requires Legal(e, ev)
  {
    match ev
    case Decode(pic, timestamp, outcome, accepts) => DecodeEffect(e, pic, timestamp, outcome, accepts)
    case Acquire(exported, accepts) => AcquireEffect(e, exported, accepts)
    case Release(index, accepts) => Effect(ReleaseEngine(e, index, accepts), true, [], [], [])
    case Flush(accepts) => Effect(FlushEngine(e, accepts), true, [], [], [])
    case Drain => Effect(BumpEngine(e, true), true, [], BumpFrames(e, true), [])
    case EndOfSequence => Effect(e.(eosSeen := true), true, [], [], [])
    case NewSps(sps) => Effect(e.(sps := sps), true, [], [], [])
  }

  /** EnsureConfigured: every buffer is offered to the driver; the depth is fixed here. */
  function Configured(poolSize: nat, sps: SpsParams, reorderDepth: nat, accepts: set<nat>): Engine {
    Engine(
      seq(poolSize, i requires 0 <= i < poolSize =>
        Queued(Capture(false, false, false, false, 0, 0), i in accepts)),
      [], [], reorderDepth, Anchor(0, 0), false, false, 1, sps)
  }
}
