/**
 * src/v4l2_m2m_decoder.cc: the stateful engine as two buffer queues around a
 * driver. ioctl answers are parameters. The class keeps only what the source
 * keeps; who else holds a buffer is the subject of M2mOwnership.
 */
module V4l2M2mDecoders {
  import opened Wrappers
  import opened Bits

  const MICROS: nat := 1_000_000
  const TOKENS: nat := 0x1_0000_0000_0000_0000

  datatype ReadyFrame = ReadyFrame(index: nat, timestamp: nat)

  /** A dequeued CAPTURE buffer with the timestamp the driver copied to it. */
  datatype Stamp = Stamp(index: nat, sec: nat, usec: nat)

  /** What QBUF hands to the driver for one access unit. */
  datatype Request = Request(index: nat, data: seq<Byte>, sec: nat, usec: nat)

  datatype SubmitResult = Ok | TryAgain | Error

  datatype DriveResult = Pumped | SourceChange | Failed

  /**
   * How SetupCapture fared on one resolution event: G_FMT or REQBUFS refused,
   * or `count` buffers of which the first `queued` reached the driver, and
   * whether STREAMON worked.
   */
  datatype Setup = Refused | Allocated(count: nat, queued: nat, streamOn: bool) {
    predicate Valid() {
      Allocated? ==> queued <= count && 0 < count
    }

    predicate Succeeds() {
      Allocated? && queued == count && streamOn
    }
  }

  datatype M2m = M2m(
    outputLengths: seq<nat>,
    outputFree: seq<nat>,
    outputStreaming: bool,
    captures: seq<bool>,
    captureStreaming: bool,
    ready: seq<ReadyFrame>)

  // ----- Tokens

  function PackSec(token: nat): nat {
    token / MICROS
  }

  function PackUsec(token: nat): nat {
    token % MICROS
  }

  /** The 64-bit sum that Drive forms. */
  function Unpack(sec: nat, usec: nat): nat {
    (sec * MICROS + usec) % TOKENS
  }

  /** Every 64-bit token survives the split; both halves fit their fields. */
  lemma TokenSurvives(token: nat)
    requires token < TOKENS
    ensures Unpack(PackSec(token), PackUsec(token)) == token
    ensures PackSec(token) < 0x8000_0000_0000_0000 && PackUsec(token) < MICROS
  {
  }

  // ----- What each call does

  /** The OUTPUT buffer the next access unit goes into. */
  function NextOutput(m: M2m): nat
    requires m.outputFree != []
  {
    m.outputFree[|m.outputFree| - 1]
  }

  predicate Accepts(m: M2m, size: nat) {
    size > 0 && m.outputFree != [] && NextOutput(m) < |m.outputLengths| && size <= m.outputLengths[NextOutput(m)]
  }

  function SubmitM2m(m: M2m, size: nat, queued: bool): M2m {
    if Accepts(m, size) && queued then m.(outputFree := m.outputFree[..|m.outputFree| - 1]) else m
  }

  function SubmitAnswer(m: M2m, size: nat, queued: bool): SubmitResult {
    if size == 0 then Error
    else if m.outputFree == [] then TryAgain
    else if Accepts(m, size) && queued then Ok
    else Error
  }

  function SetupM2m(m: M2m, setup: Setup): M2m {
    if setup.Refused? then m
    else
      m.(captures := seq(setup.count, i => i < setup.queued), captureStreaming := setup.Succeeds())
  }

  /** The event loop: set CAPTURE up once, stop at a change when it is already up. */
  function EventsM2m(m: M2m, setups: seq<Setup>): (M2m, DriveResult)
    decreases |setups|
  {
    if setups == [] then (m, Pumped)
    else if m.captureStreaming then (m, SourceChange)
    else if !setups[0].Succeeds() then (SetupM2m(m, setups[0]).(captureStreaming := false), Failed)
    else EventsM2m(SetupM2m(m, setups[0]), setups[1..])
  }

  function FrameOf(s: Stamp): ReadyFrame {
    ReadyFrame(s.index, Unpack(s.sec, s.usec))
  }

  function FramesOf(stamps: seq<Stamp>): (fs: seq<ReadyFrame>)
    ensures |fs| == |stamps| && forall i :: 0 <= i < |fs| ==> fs[i] == FrameOf(stamps[i])
  {
    seq(|stamps|, i requires 0 <= i < |stamps| => FrameOf(stamps[i]))
  }

  function Stamped(stamps: seq<Stamp>): set<nat> {
    set s | s in stamps :: s.index
  }

  function Taken(captures: seq<bool>, gone: set<nat>): (r: seq<bool>)
    ensures |r| == |captures| && forall i :: 0 <= i < |r| ==> r[i] == (captures[i] && i !in gone)
  {
    seq(|captures|, i requires 0 <= i < |captures| => captures[i] && i !in gone)
  }

  function DriveM2m(m: M2m, setups: seq<Setup>, outputs: seq<nat>, stamps: seq<Stamp>): M2m {
    var (up, answer) := EventsM2m(m, setups);
    if answer != Pumped then up
    else
      var reclaimed := up.(outputFree := up.outputFree + outputs);
      if !up.captureStreaming then reclaimed
      else reclaimed.(captures := Taken(up.captures, Stamped(stamps)), ready := up.ready + FramesOf(stamps))
  }

  function ReleaseM2m(m: M2m, index: nat, queued: bool): M2m {
    if index >= |m.captures| || m.captures[index] || !queued then m else m.(captures := m.captures[index := true])
  }

  function AcquireM2m(m: M2m): M2m {
    if m.ready == [] then m else m.(ready := m.ready[1..])
  }

  function FlushM2m(m: M2m, accepts: set<nat>, outputOn: bool, captureOn: bool): M2m {
    m.(
      outputFree := seq(|m.outputLengths|, i => i),
      outputStreaming := m.outputLengths != [] && outputOn,
      captures := seq(|m.captures|, i => i in accepts),
      captureStreaming := m.captures != [] && captureOn,
      ready := [])
  }

  class V4l2M2mDecoder {
    const outputLengths: seq<nat>
    var outputFree: seq<nat>
    var outputStreaming: bool
    var captureQueued: seq<bool>
    var captureStreaming: bool
    var ready: seq<ReadyFrame>

    function State(): M2m
      reads this
    {
      M2m(outputLengths, outputFree, outputStreaming, captureQueued, captureStreaming, ready)
    }

    ghost predicate Valid()
      reads this
    {
      forall i :: 0 <= i < |outputFree| ==> outputFree[i] < |outputLengths|
    }

    /** Create: OUTPUT buffers of these lengths, all free; CAPTURE not set up. */
    constructor (outputLengths: seq<nat>)
      ensures Valid()
      ensures State() == M2m(outputLengths, seq(|outputLengths|, i => i), true, [], false, [])
    {
      this.outputLengths := outputLengths;
      this.outputFree := seq(|outputLengths|, i => i);
      this.outputStreaming, this.captureStreaming := true, false;
      this.captureQueued, this.ready := [], [];
    }

    /** `queued` is QBUF's answer; the request is what the driver was handed. */
    method SubmitBitstream(data: seq<Byte>, timestamp: nat, queued: bool)
      returns (result: SubmitResult, request: Option<Request>)
      requires Valid()
      modifies this`outputFree
      ensures Valid()
      ensures State() == SubmitM2m(old(State()), |data|, queued)
      ensures result == SubmitAnswer(old(State()), |data|, queued)
      ensures request == if Accepts(old(State()), |data|)
        then Some(Request(NextOutput(old(State())), data, PackSec(timestamp), PackUsec(timestamp))) else None
    {
      if data == [] {
        return Error, None;
      }
      if outputFree == [] {
        return TryAgain, None;
      }
      var idx := outputFree[|outputFree| - 1];
      if |data| > outputLengths[idx] {
        return Error, None;
      }
      outputFree := outputFree[..|outputFree| - 1];
      request := Some(Request(idx, data, timestamp / MICROS, timestamp % MICROS));
      if !queued {
        outputFree := outputFree + [idx];
        return Error, request;
      }
      result := Ok;
    }

    /** SetupCapture, which leaves what it did when a later step fails. */
    method SetupCapture(setup: Setup) returns (ok: bool)
      requires setup.Valid()
      modifies this`captureQueued, this`captureStreaming
      ensures ok == setup.Succeeds()
      ensures ok ==> State() == SetupM2m(old(State()), setup)
      ensures !ok ==> State() == SetupM2m(old(State()), setup).(captureStreaming := old(captureStreaming))
    {
      if setup.Refused? {
        return false;
      }
      captureQueued := seq(setup.count, _ => false);
      for i := 0 to setup.count
        invariant |captureQueued| == setup.count && i <= setup.queued
        invariant State() == old(State()).(captures := captureQueued)
        invariant forall j :: 0 <= j < setup.count ==> captureQueued[j] == (j < i)
      {
        if i == setup.queued {
          assert captureQueued == SetupM2m(old(State()), setup).captures;
          return false;
        }
        captureQueued := captureQueued[i := true];
      }
      assert captureQueued == SetupM2m(old(State()), setup).captures;
      if !setup.streamOn {
        return false;
      }
      captureStreaming := true;
      return true;
    }

    /**
     * One pump. `setups` answers the resolution events, `outputs` and `stamps`
     * are what the two DQBUF loops return before they would block.
     */
    method Drive(setups: seq<Setup>, outputs: seq<nat>, stamps: seq<Stamp>) returns (result: DriveResult)
      requires Valid() && forall i :: 0 <= i < |setups| ==> setups[i].Valid()
      requires forall i :: 0 <= i < |outputs| ==> outputs[i] < |outputLengths|
      modifies this`captureQueued, this`captureStreaming, this`outputFree, this`ready
      ensures Valid()
      ensures State() == DriveM2m(old(State()), setups, outputs, stamps)
      ensures result == EventsM2m(old(State()), setups).1
    {
      result := HandleEvents(setups);
      if result != Pumped {
        return;
      }
      ghost var up := State();
      for i := 0 to |outputs|
        invariant State() == up.(outputFree := up.outputFree + outputs[..i])
        invariant Valid()
      {
        assert outputs[..i + 1] == outputs[..i] + [outputs[i]];
        outputFree := outputFree + [outputs[i]];
      }
      assert outputs[..|outputs|] == outputs;
      if captureStreaming {
        DequeueFrames(stamps);
      }
    }

    method HandleEvents(setups: seq<Setup>) returns (result: DriveResult)
      requires forall i :: 0 <= i < |setups| ==> setups[i].Valid()
      modifies this`captureQueued, this`captureStreaming
      ensures (State(), result) == EventsM2m(old(State()), setups)
    {
      assert setups[0..] == setups;
      for i := 0 to |setups|
        invariant EventsM2m(State(), setups[i..]) == EventsM2m(old(State()), setups)
      {
        assert setups[i..][1..] == setups[i + 1..];
        if captureStreaming {
          return SourceChange;
        }
        var ok := SetupCapture(setups[i]);
        if !ok {
          return Failed;
        }
      }
      return Pumped;
    }

    /** The CAPTURE loop: every frame joins the ready queue, in the order dequeued. */
    method DequeueFrames(stamps: seq<Stamp>)
      modifies this`captureQueued, this`ready
      ensures captureQueued == Taken(old(captureQueued), Stamped(stamps))
      ensures ready == old(ready) + FramesOf(stamps)
    {
      assert captureQueued == Taken(captureQueued, Stamped(stamps[..0]));
      for i := 0 to |stamps|
        invariant |captureQueued| == |old(captureQueued)|
        invariant captureQueued == Taken(old(captureQueued), Stamped(stamps[..i]))
        invariant ready == old(ready) + FramesOf(stamps[..i])
      {
        var s := stamps[i];
        StampedSnoc(stamps, i);
        if s.index < |captureQueued| {
          captureQueued := captureQueued[s.index := false];
        }
        ready := ready + [ReadyFrame(s.index, (s.sec * MICROS + s.usec) % TOKENS)];
        assert FramesOf(stamps[..i + 1]) == FramesOf(stamps[..i]) + [FrameOf(s)];
      }
      assert stamps[..|stamps|] == stamps;
    }

    /** The oldest ready frame, if its buffer exists. */
    method Acquire() returns (frame: Option<ReadyFrame>)
      modifies this`ready
      ensures State() == AcquireM2m(old(State()))
      ensures frame == if old(ready) != [] && old(ready)[0].index < |captureQueued| then Some(old(ready)[0]) else None
    {
      if ready == [] {
        return None;
      }
      var front := ready[0];
      ready := ready[1..];
      if front.index >= |captureQueued| {
        return None;
      }
      return Some(front);
    }

    method QueueCaptureBuffer(index: nat, accepted: bool)
      requires index < |captureQueued|
      modifies this`captureQueued
      ensures captureQueued == if accepted then old(captureQueued)[index := true] else old(captureQueued)
    {
      if !accepted {
        return;
      }
      captureQueued := captureQueued[index := true];
    }

    method Release(index: nat, accepted: bool)
      modifies this`captureQueued
      ensures State() == ReleaseM2m(old(State()), index, accepted)
    {
      if index >= |captureQueued| {
        return;
      }
      if captureQueued[index] {
        return;
      }
      QueueCaptureBuffer(index, accepted);
    }

    /** Both queues restart empty; every OUTPUT buffer is free, every CAPTURE buffer is offered. */
    method Flush(accepts: set<nat>, outputOn: bool, captureOn: bool)
      modifies this
      ensures State() == FlushM2m(old(State()), accepts, outputOn, captureOn)
    {
      outputStreaming, captureStreaming := false, false;
      ready := [];
      outputFree := [];
      for i := 0 to |outputLengths|
        invariant outputFree == seq(i, k => k)
        invariant State() == old(State()).(
          outputStreaming := false, captureStreaming := false, ready := [], outputFree := outputFree)
      {
        assert seq(i + 1, k => k) == seq(i, k => k) + [i];
        outputFree := outputFree + [i];
      }
      if outputLengths != [] && outputOn {
        outputStreaming := true;
      }
      if captureQueued != [] {
        captureQueued := seq(|captureQueued|, _ => false);
        RequeueAll(accepts);
        if captureOn {
          captureStreaming := true;
        }
      }
    }

    method RequeueAll(accepts: set<nat>)
      requires forall i :: 0 <= i < |captureQueued| ==> !captureQueued[i]
      modifies this`captureQueued
      ensures captureQueued == seq(|old(captureQueued)|, i => i in accepts)
    {
      for i := 0 to |captureQueued|
        invariant |captureQueued| == |old(captureQueued)|
        invariant forall j :: 0 <= j < |captureQueued| ==> captureQueued[j] == (j < i && j in accepts)
      {
        QueueCaptureBuffer(i, i in accepts);
      }
    }
  }

  lemma StampedSnoc(stamps: seq<Stamp>, i: nat)
    requires i < |stamps|
    ensures Stamped(stamps[..i + 1]) == Stamped(stamps[..i]) + {stamps[i].index}
  {
    assert stamps[..i + 1] == stamps[..i] + [stamps[i]];
    assert stamps[i] in stamps[..i + 1];
    forall s | s in stamps[..i]
      ensures s in stamps[..i + 1]
    {
    }
  }
}
