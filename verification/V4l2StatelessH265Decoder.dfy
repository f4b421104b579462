/**
 * src/v4l2_stateless_h265_decoder.cc: the engine as an object whose methods
 * update its fields. Every ioctl's answer is a parameter: `accepts` holds the
 * buffers whose QBUF succeeds, a DriverOutcome what became of a request.
 */
module V4l2StatelessH265Decoders {
  import opened Wrappers
  import opened NalTypes
  import opened DpbMachine
  import opened DpbBuffers
  import opened ReferenceDerivation
  import opened SliceHeaders
  import opened RefLists
  import opened StatelessEngine
  import opened StatelessOwnership

  /** ref_idx_l0 and ref_idx_l1 of one slice. */
  datatype SliceLists = SliceLists(l0: seq<nat>, l1: seq<nat>)

  function ListsOf(dpb: seq<RefPic>, rps: RefPicSet, sh: SliceHeader): SliceLists
    requires ValidActive(sh.active, sh.numPicTotalCurr)
  {
    var none := BuiltList([], false, [], 0);
    if sh.sliceType == I then SliceLists(none, none)
    else
      SliceLists(
        BuiltList(EntryIndices(dpb, Subsets(rps, false)), sh.active.modifiedL0, sh.active.entriesL0,
                  sh.active.l0Minus1),
        if sh.sliceType == B then
          BuiltList(EntryIndices(dpb, Subsets(rps, true)), sh.active.modifiedL1, sh.active.entriesL1,
                    sh.active.l1Minus1)
        else none)
  }

  function DriverEntry(r: RefPic, ltFound: seq<RefPic>): DpbEntry {
    DpbEntry(TagNs(r.tag), r.poc, r.buffer in Buffers(ltFound))
  }

  function ParamsOf(dpb: seq<RefPic>, rps: RefPicSet, poc: int): DecodeParams {
    DecodeParams(
      poc,
      seq(Shown(dpb), j requires 0 <= j < Shown(dpb) => DriverEntry(dpb[j], rps.ltFound)),
      FirstIndices(dpb, rps.before),
      FirstIndices(dpb, rps.after),
      FirstIndices(dpb, rps.longTerm))
  }

  /** The driver's arrays hold 16 indices. */
  function FirstIndices(dpb: seq<RefPic>, entries: seq<RpsEntry>): seq<nat> {
    EntryIndices(dpb, if |entries| <= MAX_DPB then entries else entries[..MAX_DPB])
  }

  class V4l2StatelessH265Decoder {
    var captures: seq<Capture>
    var dpb: seq<RefPic>
    var outputReady: seq<nat>
    var reorderDepth: nat
    var prevPocLsb: int
    var prevPocMsb: int
    var seenFirstPicture: bool
    var eosSeen: bool
    var nextTag: nat
    var sps: SpsParams

    function State(): Engine
      reads this
    {
      Engine(captures, dpb, outputReady, reorderDepth, Anchor(prevPocLsb, prevPocMsb), seenFirstPicture, eosSeen,
             nextTag, sps)
    }

    /** Create and EnsureConfigured: the pool is allocated and handed to the driver. */
    constructor (poolSize: nat, sps: SpsParams, reorderDepth: nat, accepts: set<nat>)
      ensures State() == Configured(poolSize, sps, reorderDepth, accepts)
    {
      this.captures := seq(poolSize, _ => Capture(false, false, false, false, 0, 0));
      this.dpb, this.outputReady := [], [];
      this.reorderDepth := reorderDepth;
      this.prevPocLsb, this.prevPocMsb := 0, 0;
      this.seenFirstPicture, this.eosSeen := false, false;
      this.nextTag := 1;
      this.sps := sps;
      new;
      for i := 0 to poolSize
        invariant |captures| == poolSize
        invariant forall j :: 0 <= j < poolSize ==>
          captures[j] == Queued(Capture(false, false, false, false, 0, 0), j < i && j in accepts)
        invariant State() == Configured(poolSize, sps, reorderDepth, accepts).(captures := captures)
      {
        RequeueCapture(i, accepts);
      }
      assert captures == Configured(poolSize, sps, reorderDepth, accepts).captures;
    }

    // ----- Buffers

    method RequeueCapture(index: nat, accepts: set<nat>)
      requires index < |captures|
      modifies this`captures
      ensures captures == old(captures)[index := Queued(old(captures)[index], index in accepts)]
    {
      if captures[index].queued {
        return;
      }
      if index in accepts {
        captures := captures[index := captures[index].(queued := true)];
      }
    }

    method MaybeRequeue(index: nat, accepts: set<nat>)
      requires index < |captures|
      modifies this`captures
      ensures captures
        == old(captures)[index := MaybeQueued(old(captures)[index], index in outputReady, index in accepts)]
    {
      var c := captures[index];
      if c.queued || c.isReference || c.checkedOut || c.pendingOutput {
        return;
      }
      for k := 0 to |outputReady|
        invariant captures == old(captures)
        invariant index !in outputReady[..k]
      {
        if outputReady[k] == index {
          return;
        }
      }
      assert outputReady[..|outputReady|] == outputReady;
      RequeueCapture(index, accepts);
    }

    method RequeueIdle(accepts: set<nat>)
      modifies this`captures
      ensures captures == QueueIdle(old(captures), outputReady, accepts)
    {
      for i := 0 to |captures|
        invariant |captures| == |old(captures)|
        invariant forall j :: 0 <= j < i ==>
          captures[j] == MaybeQueued(old(captures)[j], j in outputReady, j in accepts)
        invariant forall j :: i <= j < |captures| ==> captures[j] == old(captures)[j]
      {
        MaybeRequeue(i, accepts);
      }
      assert captures == QueueIdle(old(captures), outputReady, accepts);
    }

    /** Clears the reference flag of every buffer that `gone` lists. */
    method ClearReferences(gone: seq<RefPic>)
      requires forall j :: 0 <= j < |gone| ==> gone[j].buffer < |captures|
      modifies this`captures
      ensures captures == Unreferenced(old(captures), Buffers(gone))
    {
      for j := 0 to |gone|
        invariant |captures| == |old(captures)|
        invariant captures == Unreferenced(old(captures), Buffers(gone[..j]))
      {
        BuffersSnoc(gone, j);
        var b := gone[j].buffer;
        captures := captures[b := captures[b].(isReference := false)];
      }
      assert gone[..|gone|] == gone;
    }

    // ----- Picture order count and reference picture set

    method ComputePoc(pic: Picture, noRaslOutput: bool) returns (poc: int)
      modifies this`prevPocLsb, this`prevPocMsb
      ensures poc == PocOf(old(State().anchor), pic, sps.MaxPocLsb(), noRaslOutput)
      ensures State().anchor == NextAnchor(old(State().anchor), pic, sps.MaxPocLsb(), noRaslOutput)
    {
      var maxPocLsb := sps.MaxPocLsb();
      var pocMsb;
      if noRaslOutput {
        pocMsb := 0;
      } else if pic.pocLsb < prevPocLsb && prevPocLsb - pic.pocLsb >= maxPocLsb / 2 {
        pocMsb := prevPocMsb + maxPocLsb;
      } else if pic.pocLsb > prevPocLsb && pic.pocLsb - prevPocLsb > maxPocLsb / 2 {
        pocMsb := prevPocMsb - maxPocLsb;
      } else {
        pocMsb := prevPocMsb;
      }
      poc := pocMsb + pic.pocLsb;
      if pic.temporalIdPlus1 == 1 && !IsRaslOrRadl(pic.nalType) {
        prevPocLsb, prevPocMsb := pic.pocLsb, pocMsb;
      }
    }

    /** Drops the references the set does not keep, clearing their flags. */
    method EvictUnkept(kept: seq<int>)
      requires forall j :: 0 <= j < |dpb| ==> dpb[j].buffer < |captures|
      requires DistinctBuffers(dpb)
      modifies this`captures, this`dpb
      ensures dpb == Evict(old(dpb), kept)
      ensures captures == Unreferenced(old(captures), Buffers(old(dpb)) - Buffers(dpb))
    {
      hide Buffers;
      assert Buffers(dpb[..0]) - Buffers([]) == {} by {
        EmptyBuffers(dpb[..0]);
      }
      assert captures == Unreferenced(captures, {});
      var left: seq<RefPic> := [];
      for j := 0 to |dpb|
        invariant dpb == old(dpb) && |captures| == |old(captures)|
        invariant left == Evict(dpb[..j], kept)
        invariant captures == Unreferenced(old(captures), Buffers(dpb[..j]) - Buffers(left))
      {
        assert dpb[..j + 1][..j] == dpb[..j];
        var keep := false;
        for p := 0 to |kept|
          invariant keep <==> dpb[j].poc in kept[..p]
        {
          if kept[p] == dpb[j].poc {
            keep := true;
          }
        }
        assert kept[..|kept|] == kept;
        EvictStep(dpb, left, kept, j);
        if keep {
          left := left + [dpb[j]];
        } else {
          var b := dpb[j].buffer;
          UnreferencedStep(old(captures), Buffers(dpb[..j]) - Buffers(left), b);
          captures := captures[b := captures[b].(isReference := false)];
        }
      }
      assert dpb[..|dpb|] == dpb;
      dpb := left;
    }

    /** The while loop that cuts the DPB to its bound; the new picture's flag is left alone. */
    method TrimDpb(cap: nat)
      requires forall j :: 0 <= j < |dpb| ==> dpb[j].buffer < |captures|
      requires DistinctBuffers(dpb)
      modifies this`captures, this`dpb
      ensures dpb == Trim(old(dpb), sps.MaxDpb())
      ensures captures == Unreferenced(old(captures), Buffers(old(dpb)) - Buffers(dpb) - {cap})
    {
      hide Buffers, Trim, Without, DistinctBuffers, Lowest;
      var maxDpb := sps.MaxDpb();
      TrimDone(dpb, maxDpb);
      assert captures == Unreferenced(captures, Buffers(dpb) - Buffers(dpb) - {cap});
      while |dpb| > maxDpb
        invariant |captures| == |old(captures)| && DistinctBuffers(dpb)
        invariant forall j :: 0 <= j < |dpb| ==> dpb[j].buffer < |captures|
        invariant Trim(dpb, maxDpb) == Trim(old(dpb), maxDpb) && Buffers(dpb) <= Buffers(old(dpb))
        invariant captures == Unreferenced(old(captures), Buffers(old(dpb)) - Buffers(dpb) - {cap})
        decreases |dpb|
      {
        var oldest := OldestEntry(dpb);
        var b := dpb[oldest].buffer;
        WithoutBuffers(dpb, oldest);
        WithoutInRange(dpb, oldest, |captures|);
        TrimDone(dpb, maxDpb);
        ghost var gone := Buffers(old(dpb)) - Buffers(dpb) - {cap};
        TrimStep(Buffers(old(dpb)), Buffers(dpb), b, cap);
        if b != cap {
          UnreferencedStep(old(captures), gone, b);
          captures := captures[b := captures[b].(isReference := false)];
        }
        dpb := Without(dpb, oldest);
      }
    }

    // ----- Output

    /** The scan inside Bump: how many frames wait, and which has the lowest POC. */
    method ScanPending() returns (pending: nat, lowest: Option<nat>)
      ensures pending == |PendingFrames(captures)| && lowest == LowestPending(captures)
    {
      pending, lowest := 0, None;
      for i := 0 to |captures|
        invariant pending == |PendingFrames(captures[..i])| && lowest == LowestPending(captures[..i])
      {
        assert captures[..i + 1][..i] == captures[..i];
        if captures[i].pendingOutput {
          pending := pending + 1;
          if lowest == None || captures[i].poc < captures[lowest.value].poc {
            lowest := Some(i);
          }
        }
      }
      assert captures[..|captures|] == captures;
    }

    method Bump(flush: bool)
      modifies this`captures, this`outputReady
      ensures State() == BumpEngine(old(State()), flush)
    {
      var limit := if flush then 0 else reorderDepth;
      ghost var start, ready := captures, outputReady;
      assert ready + BumpOrder(start, limit) == outputReady + BumpOrder(captures, limit);
      while true
        invariant Bumped(start, limit) == Bumped(captures, limit)
        invariant ready + BumpOrder(start, limit) == outputReady + BumpOrder(captures, limit)
        decreases |PendingFrames(captures)|
      {
        var pending, lowest := ScanPending();
        if lowest == None || pending <= limit {
          break;
        }
        BumpOnce(outputReady, captures, limit);
        captures := Emitted(captures, lowest.value);
        outputReady := outputReady + [lowest.value];
      }
      assert outputReady + [] == outputReady;
    }

    // ----- What the driver is told

    /** dp: the DPB with its tags, and the current subsets as indices into it. */
    method MarshalReferences(rps: RefPicSet, poc: int) returns (params: DecodeParams)
      ensures params == ParamsOf(dpb, rps, poc)
    {
      hide EntryIndices, TagNs, Buffers;
      var entries: seq<DpbEntry> := [];
      for j := 0 to Shown(dpb)
        invariant |entries| == j
        invariant forall k :: 0 <= k < j ==> entries[k] == DriverEntry(dpb[k], rps.ltFound)
      {
        var longTerm := IsLongTerm(dpb[j], rps.ltFound);
        entries := entries + [DpbEntry(TagNs(dpb[j].tag), dpb[j].poc, longTerm)];
      }
      return DecodeParams(poc, entries, FirstIndices(dpb, rps.before), FirstIndices(dpb, rps.after),
                          FirstIndices(dpb, rps.longTerm));
    }

    method IsLongTerm(r: RefPic, ltFound: seq<RefPic>) returns (longTerm: bool)
      ensures longTerm <==> r.buffer in Buffers(ltFound)
    {
      longTerm := false;
      for k := 0 to |ltFound|
        invariant longTerm <==> r.buffer in Buffers(ltFound[..k])
      {
        BuffersSnoc(ltFound, k);
        if ltFound[k].buffer == r.buffer {
          longTerm := true;
        }
      }
      assert ltFound[..|ltFound|] == ltFound;
    }

    /** build_list: one active list, cycling through the concatenated subsets. */
    method BuildList(temp: seq<nat>, modified: bool, entries: seq<nat>, activeMinus1: nat) returns (out: seq<nat>)
      requires activeMinus1 <= MAX_REF_IDX_DEFAULT && (modified ==> |entries| == activeMinus1 + 1)
      ensures out == BuiltList(temp, modified, entries, activeMinus1)
    {
      out := seq(MAX_DPB, _ => 0);
      if temp == [] {
        return;
      }
      for i := 0 to activeMinus1 + 1
        invariant |out| == MAX_DPB
        invariant forall k :: 0 <= k < i ==> out[k] == BuiltAt(temp, modified, entries, k)
        invariant forall k :: i <= k < MAX_DPB ==> out[k] == 0
      {
        var idx := if modified then entries[i] else i % |temp|;
        out := out[i := temp[idx % |temp|]];
      }
      assert out == BuiltList(temp, modified, entries, activeMinus1);
    }

    method SliceReferenceLists(rps: RefPicSet, sh: SliceHeader) returns (lists: SliceLists)
      requires ValidActive(sh.active, sh.numPicTotalCurr)
      ensures lists == ListsOf(dpb, rps, sh)
    {
      hide BuiltList, EntryIndices, Subsets;
      var l0 := BuiltList([], false, [], 0);
      var l1 := BuiltList([], false, [], 0);
      if sh.sliceType != I {
        l0 := BuildList(EntryIndices(dpb, Subsets(rps, false)), sh.active.modifiedL0, sh.active.entriesL0,
                        sh.active.l0Minus1);
        if sh.sliceType == B {
          l1 := BuildList(EntryIndices(dpb, Subsets(rps, true)), sh.active.modifiedL1, sh.active.entriesL1,
                          sh.active.l1Minus1);
        }
      }
      return SliceLists(l0, l1);
    }

    // ----- Decoding a picture

    /** POC, sequence start, reference set and eviction. */
    method BeginPicture(pic: Picture) returns (poc: int, rps: RefPicSet)
      requires Inv(State())
      modifies this
      ensures State() == StartPicture(old(State()), pic)
      ensures poc == CurrentPoc(old(State()), pic) && rps == RpsAtStart(old(State()), pic)
    {
      hide Inv, DeriveRps, Evict, PocOf, NextAnchor, Buffers, Unreferenced, DistinctBuffers, StartPicture, RpsAtStart,
           CurrentPoc, DpbAtStart;
      ghost var start := State();
      InvDpb(start);
      poc := BeginPoc(pic);
      ghost var cleared, atStart := captures, dpb;
      rps := DeriveReferences(dpb, pic, poc, sps.MaxPocLsb());
      EvictUnkept(rps.kept);
      BeganEngine(start, pic, poc, atStart, rps, cleared, captures);
    }

    /** NoRaslOutputFlag, POC and anchor, and the start of a sequence. */
    method BeginPoc(pic: Picture) returns (poc: int)
      requires DistinctBuffers(dpb) && forall j :: 0 <= j < |dpb| ==> dpb[j].buffer < |captures|
      modifies this
      ensures DistinctBuffers(dpb) && forall j :: 0 <= j < |dpb| ==> dpb[j].buffer < |captures|
      ensures var noRasl := NoRaslOutput(pic, old(seenFirstPicture), old(eosSeen));
        && poc == PocOf(old(State().anchor), pic, old(sps).MaxPocLsb(), noRasl)
        && State() == old(State()).(
          anchor := NextAnchor(old(State().anchor), pic, old(sps).MaxPocLsb(), noRasl),
          seenFirst := true,
          eosSeen := false,
          dpb := if StartsSequence(pic, noRasl) then [] else old(dpb),
          captures := if StartsSequence(pic, noRasl) then Unreferenced(old(captures), Buffers(old(dpb)))
                      else old(captures))
    {
      hide PocOf, NextAnchor, Buffers, Unreferenced, DistinctBuffers;
      var noRaslOutput := IsIdr(pic.nalType) || IsBla(pic.nalType)
        || (IsIrap(pic.nalType) && (!seenFirstPicture || eosSeen));
      eosSeen := false;
      poc := ComputePoc(pic, noRaslOutput);
      seenFirstPicture := true;
      StartSequence(IsIrap(pic.nalType) && noRaslOutput);
    }

    /** An IRAP picture that starts a sequence empties the DPB. */
    method StartSequence(starts: bool)
      requires DistinctBuffers(dpb) && forall j :: 0 <= j < |dpb| ==> dpb[j].buffer < |captures|
      modifies this`captures, this`dpb
      ensures DistinctBuffers(dpb) && forall j :: 0 <= j < |dpb| ==> dpb[j].buffer < |captures|
      ensures dpb == if starts then [] else old(dpb)
      ensures captures == if starts then Unreferenced(old(captures), Buffers(old(dpb))) else old(captures)
    {
      if starts {
        ClearReferences(dpb);
        dpb := [];
      }
    }

    /** The decoded picture joins the DPB, which is then cut to its bound. */
    method AddDecoded(cap: nat, poc: int, tag: nat, timestamp: nat, output: bool)
      requires cap < |captures| && cap !in Buffers(dpb) && DistinctBuffers(dpb)
      requires forall j :: 0 <= j < |dpb| ==> dpb[j].buffer < |captures|
      modifies this`captures, this`dpb
      ensures State() == AddPicture(old(State()), cap, poc, tag, timestamp, output)
    {
      hide Buffers, Trim, DistinctBuffers, AddPicture, Unreferenced;
      ghost var start := State();
      JoinDpb(dpb, RefPic(poc, cap, tag), |captures|);
      captures := captures[cap := captures[cap].(queued := false)];
      captures := captures[cap := captures[cap].(isReference := true, timestamp := timestamp)];
      dpb := dpb + [RefPic(poc, cap, tag)];
      TrimDpb(cap);
      AddParts(start, cap, poc, tag, timestamp, output);
      captures := captures[cap := captures[cap].(pendingOutput := output, poc := poc)];
    }

    /** From the dequeued CAPTURE buffer to the requeued pool. */
    method CompletePicture(cap: nat, poc: int, tag: nat, error: bool, timestamp: nat, output: bool, accepts: set<nat>)
      requires cap < |captures| && cap !in Buffers(dpb) && DistinctBuffers(dpb)
      requires forall j :: 0 <= j < |dpb| ==> dpb[j].buffer < |captures|
      modifies this
      ensures State() == FinishPicture(old(State()), cap, poc, tag, error, timestamp, output, accepts)
    {
      hide Buffers, AddPicture, BumpEngine;
      if error {
        captures := captures[cap := captures[cap].(queued := false)];
        RequeueCapture(cap, accepts);
        return;
      }
      AddDecoded(cap, poc, tag, timestamp, output);
      Bump(false);
      RequeueIdle(accepts);
    }

    method AllReferenceLists(rps: RefPicSet, headers: seq<SliceHeader>) returns (lists: seq<SliceLists>)
      requires forall i :: 0 <= i < |headers| ==> ValidActive(headers[i].active, headers[i].numPicTotalCurr)
      ensures |lists| == |headers|
      ensures forall i :: 0 <= i < |headers| ==> lists[i] == ListsOf(dpb, rps, headers[i])
    {
      hide ListsOf;
      lists := [];
      for i := 0 to |headers|
        invariant |lists| == i
        invariant forall k :: 0 <= k < i ==> lists[k] == ListsOf(dpb, rps, headers[k])
      {
        var slice := SliceReferenceLists(rps, headers[i]);
        lists := lists + [slice];
      }
    }

    /**
     * One picture, from its parsed slice headers; none when its slices could
     * not be parsed. `outcome` says how the driver answered the request,
     * `stamp` is the tag the request's OUTPUT buffer carries.
     */
    method DecodePicture(nalType: nat, temporalIdPlus1: nat, headers: seq<SliceHeader>, timestamp: nat,
                         outcome: DriverOutcome, accepts: set<nat>)
      returns (ok: bool, params: Option<DecodeParams>, lists: seq<SliceLists>, stamp: Option<nat>)
      requires Inv(State()) && LegalOutcome(State(), outcome)
      requires forall i :: 0 <= i < |headers| ==> ValidActive(headers[i].active, headers[i].numPicTotalCurr)
      modifies this
      ensures headers == [] ==> !ok && State() == old(State()) && stamp == None
      ensures headers != [] ==>
        var pic := Picture(nalType, temporalIdPlus1, headers[0].refs.pocLsb, headers[0].picOutput,
                           headers[0].refs.rps, headers[0].refs.longTerm);
        var effect := DecodeEffect(old(State()), pic, timestamp, outcome, accepts);
        var kept, rps := DpbKept(old(State()), pic), RpsAtStart(old(State()), pic);
        && State() == effect.next && ok == effect.ok
        && Inv(State())
        && params == Some(ParamsOf(kept, rps, CurrentPoc(old(State()), pic)))
        && stamp == (if outcome == NoOutputBuffer then None else Some(old(nextTag)))
        && |lists| == |headers|
        && forall i :: 0 <= i < |headers| ==> lists[i] == ListsOf(kept, rps, headers[i])
    {
      hide Inv, StartPicture, DecodeEffect, RpsAtStart, CurrentPoc, ParamsOf, ListsOf, FinishPicture, DpbKept,
           DistinctBuffers, Buffers, ValidActive, Requested;
      if headers == [] {
        return false, None, [], None;
      }
      ghost var start := State();
      var pic := Picture(nalType, temporalIdPlus1, headers[0].refs.pocLsb, headers[0].picOutput,
                         headers[0].refs.rps, headers[0].refs.longTerm);
      DecodeKeepsInv(start, pic, timestamp, outcome, accepts);
      StartKeepsInv(start, pic);
      var poc, rps := BeginPicture(pic);
      ghost var started := State();
      InvDpb(started);
      BeganLegal(start, pic, outcome);
      StartedDpb(start, pic);
      DecodeParts(start, pic, timestamp, outcome, accepts);
      var marshalled := MarshalReferences(rps, poc);
      params := Some(marshalled);
      lists := AllReferenceLists(rps, headers);
      ok, stamp := RunRequest(outcome, poc, timestamp, pic.output, accepts);
    }

    /** Queues the OUTPUT buffer and the request, and completes the picture the driver gives back. */
    method RunRequest(outcome: DriverOutcome, poc: int, timestamp: nat, output: bool, accepts: set<nat>)
      returns (ok: bool, stamp: Option<nat>)
      requires DistinctBuffers(dpb) && forall j :: 0 <= j < |dpb| ==> dpb[j].buffer < |captures|
      requires outcome.Dequeued? ==> outcome.index < |captures| && outcome.index !in Buffers(dpb)
      modifies this
      ensures ok <==> outcome.Dequeued? && !outcome.error
      ensures stamp == if outcome == NoOutputBuffer then None else Some(old(nextTag))
      ensures State() == Requested(old(State()), outcome, poc, timestamp, output, accepts)
    {
      hide FinishPicture, Buffers, DistinctBuffers;
      if outcome == NoOutputBuffer {
        return false, None;
      }
      var tag := nextTag;
      nextTag := nextTag + 1;
      stamp := Some(tag);
      if outcome == RequestFailed {
        return false, stamp;
      }
      CompletePicture(outcome.index, poc, tag, outcome.error, timestamp, output, accepts);
      ok := !outcome.error;
    }

    // ----- The consumer's calls

    /** Hands out the front of the ready queue; `exported` is EXPBUF's answer. */
    method Acquire(exported: bool, accepts: set<nat>) returns (frame: Option<(nat, Frame)>)
      requires Inv(State())
      modifies this`captures, this`outputReady
      ensures State() == AcquireEffect(old(State()), exported, accepts).next
      ensures frame.Some? <==> old(outputReady) != [] && exported
      ensures frame.Some? ==>
        frame.value == (old(outputReady)[0], FrameOf(old(captures)[old(outputReady)[0]]))
    {
      if outputReady == [] {
        return None;
      }
      var cap := outputReady[0];
      outputReady := outputReady[1..];
      if !exported {
        MaybeRequeue(cap, accepts);
        return None;
      }
      captures := captures[cap := captures[cap].(checkedOut := true)];
      return Some((cap, FrameOf(captures[cap])));
    }

    method Release(index: nat, accepts: set<nat>)
      modifies this`captures
      ensures State() == ReleaseEngine(old(State()), index, accepts)
    {
      if index >= |captures| {
        return;
      }
      captures := captures[index := captures[index].(checkedOut := false)];
      MaybeRequeue(index, accepts);
    }

    method Flush(accepts: set<nat>)
      requires Inv(State())
      modifies this
      ensures State() == FlushEngine(old(State()), accepts)
    {
      hide Inv, Buffers, NotPending, FreeQueued, Unreferenced, FlushEngine;
      InvDpb(State());
      FlushParts(State(), accepts);
      ClearReferences(dpb);
      dpb, outputReady := [], [];
      ClearPending();
      prevPocLsb, prevPocMsb := 0, 0;
      seenFirstPicture, eosSeen := false, false;
      RequeueFree(accepts);
    }

    method ClearPending()
      modifies this`captures
      ensures captures == NotPending(old(captures))
    {
      for i := 0 to |captures|
        invariant |captures| == |old(captures)|
        invariant forall j :: 0 <= j < i ==> captures[j] == old(captures)[j].(pendingOutput := false)
        invariant forall j :: i <= j < |captures| ==> captures[j] == old(captures)[j]
      {
        captures := captures[i := captures[i].(pendingOutput := false)];
      }
      assert captures == NotPending(old(captures));
    }

    /** Requeues every buffer the consumer does not hold. */
    method RequeueFree(accepts: set<nat>)
      modifies this`captures
      ensures captures == FreeQueued(old(captures), accepts)
    {
      for i := 0 to |captures|
        invariant |captures| == |old(captures)|
        invariant forall j :: 0 <= j < i ==> captures[j] == QueuedIfFree(old(captures)[j], j in accepts)
        invariant forall j :: i <= j < |captures| ==> captures[j] == old(captures)[j]
      {
        if !captures[i].checkedOut {
          RequeueCapture(i, accepts);
        }
      }
      assert captures == FreeQueued(old(captures), accepts);
    }

    method Drain()
      modifies this`captures, this`outputReady
      ensures State() == BumpEngine(old(State()), true)
    {
      Bump(true);
    }
  }

  function NotPending(captures: seq<Capture>): seq<Capture> {
    seq(|captures|, i requires 0 <= i < |captures| => captures[i].(pendingOutput := false))
  }

  function QueuedIfFree(c: Capture, accepted: bool): Capture {
    if c.checkedOut then c else Queued(c, accepted)
  }

  function FreeQueued(captures: seq<Capture>, accepts: set<nat>): seq<Capture> {
    seq(|captures|, i requires 0 <= i < |captures| => QueuedIfFree(captures[i], i in accepts))
  }

  /** The three passes of Flush, taken together, and the fields it resets. */
  lemma FlushParts(e: Engine, accepts: set<nat>)
    ensures FlushEngine(e, accepts) == e.(
      captures := FreeQueued(NotPending(Unreferenced(e.captures, Buffers(e.dpb))), accepts),
      dpb := [], ready := [], anchor := Anchor(0, 0), seenFirst := false, eosSeen := false)
  {
    hide Buffers;
    assert FlushEngine(e, accepts).captures
      == FreeQueued(NotPending(Unreferenced(e.captures, Buffers(e.dpb))), accepts);
  }

  lemma InvDpb(e: Engine)
    requires Inv(e)
    ensures DistinctBuffers(e.dpb) && forall j :: 0 <= j < |e.dpb| ==> e.dpb[j].buffer < |e.captures|
  {
  }

  /** The new picture's own fields and the flags of evicted buffers are set independently. */
  lemma AddParts(e: Engine, cap: nat, poc: int, tag: nat, timestamp: nat, output: bool)
    requires cap < |e.captures|
    ensures var c := e.captures[cap];
      var first := e.captures[cap := c.(queued := false)]
                             [cap := c.(queued := false, isReference := true, timestamp := timestamp)];
      var all := e.dpb + [RefPic(poc, cap, tag)];
      var kept := Trim(all, e.sps.MaxDpb());
      var cleared := Unreferenced(first, Buffers(all) - Buffers(kept) - {cap});
      AddPicture(e, cap, poc, tag, timestamp, output)
        == e.(captures := cleared[cap := cleared[cap].(pendingOutput := output, poc := poc)], dpb := kept)
  {
    hide Trim, Buffers;
    var c := e.captures[cap];
    var first := e.captures[cap := c.(queued := false, isReference := true, timestamp := timestamp)];
    var all := e.dpb + [RefPic(poc, cap, tag)];
    var cleared := Unreferenced(first, Buffers(all) - Buffers(Trim(all, e.sps.MaxDpb())) - {cap});
    assert e.captures[cap := c.(queued := false)]
                     [cap := c.(queued := false, isReference := true, timestamp := timestamp)] == first;
    assert cleared[cap := cleared[cap].(pendingOutput := output, poc := poc)]
      == AddPicture(e, cap, poc, tag, timestamp, output).captures;
  }

  /** Clearing at a sequence start and evicting clear what eviction alone would. */
  lemma BeginParts(e: Engine, pic: Picture, cleared: seq<Capture>, after: seq<Capture>)
    requires var starts := StartsSequence(pic, NoRaslOutput(pic, e.seenFirst, e.eosSeen));
      cleared == if starts then Unreferenced(e.captures, Buffers(e.dpb)) else e.captures
    requires after == Unreferenced(cleared, Buffers(DpbAtStart(e, pic)) - Buffers(DpbKept(e, pic)))
    ensures StartPicture(e, pic).captures == after
  {
    hide RpsAtStart;
    if StartsSequence(pic, NoRaslOutput(pic, e.seenFirst, e.eosSeen)) {
      assert Buffers([]) == {};
      assert DpbKept(e, pic) == [];
    }
  }

  lemma BeganEngine(e: Engine, pic: Picture, poc: int, atStart: seq<RefPic>, rps: RefPicSet,
                    cleared: seq<Capture>, after: seq<Capture>)
    requires poc == PocOf(e.anchor, pic, e.sps.MaxPocLsb(), NoRaslOutput(pic, e.seenFirst, e.eosSeen))
    requires var starts := StartsSequence(pic, NoRaslOutput(pic, e.seenFirst, e.eosSeen));
      && atStart == (if starts then [] else e.dpb)
      && cleared == (if starts then Unreferenced(e.captures, Buffers(e.dpb)) else e.captures)
    requires rps == DeriveRps(atStart, pic, poc, e.sps.MaxPocLsb())
    requires after == Unreferenced(cleared, Buffers(atStart) - Buffers(Evict(atStart, rps.kept)))
    ensures poc == CurrentPoc(e, pic) && rps == RpsAtStart(e, pic)
    ensures StartPicture(e, pic) == e.(
      captures := after,
      dpb := Evict(atStart, rps.kept),
      anchor := NextAnchor(e.anchor, pic, e.sps.MaxPocLsb(), NoRaslOutput(pic, e.seenFirst, e.eosSeen)),
      seenFirst := true,
      eosSeen := false)
  {
    hide DeriveRps, NextAnchor, PocOf;
    BeginParts(e, pic, cleared, after);
  }

  lemma StartedDpb(e: Engine, pic: Picture)
    ensures StartPicture(e, pic).dpb == DpbKept(e, pic) && StartPicture(e, pic).nextTag == e.nextTag
    ensures |StartPicture(e, pic).captures| == |e.captures|
  {
  }

  /** What the request makes of a started engine, outcome by outcome. */
  function Requested(e: Engine, outcome: DriverOutcome, poc: int, timestamp: nat, output: bool, accepts: set<nat>)
    : Engine
    requires outcome.Dequeued? ==> outcome.index < |e.captures|
  {
    var sent := e.(nextTag := e.nextTag + 1);
    match outcome
    case NoOutputBuffer => e
    case RequestFailed => sent
    case Dequeued(cap, error) => FinishPicture(sent, cap, poc, e.nextTag, error, timestamp, output, accepts)
  }

  lemma DecodeParts(e: Engine, pic: Picture, timestamp: nat, outcome: DriverOutcome, accepts: set<nat>)
    requires LegalOutcome(e, outcome)
    ensures var effect := DecodeEffect(e, pic, timestamp, outcome, accepts);
      && (effect.ok <==> outcome.Dequeued? && !outcome.error)
      && (outcome.Dequeued? ==> outcome.index < |StartPicture(e, pic).captures|)
      && effect.next == Requested(StartPicture(e, pic), outcome, CurrentPoc(e, pic), timestamp, pic.output, accepts)
  {
    hide StartPicture, FinishPicture, CurrentPoc, DpbKept, AddPicture, BumpFrames;
    StartedDpb(e, pic);
  }

  /** The buffer the driver gives back is not in the DPB. */
  lemma BeganLegal(e: Engine, pic: Picture, outcome: DriverOutcome)
    requires Inv(e) && Inv(StartPicture(e, pic)) && LegalOutcome(e, outcome)
    ensures outcome.Dequeued? ==> outcome.index !in Buffers(StartPicture(e, pic).dpb)
  {
    hide DpbKept;
    var started := StartPicture(e, pic);
    if outcome.Dequeued? {
      assert started.captures[outcome.index].queued;
    }
  }

  lemma UnreferencedStep(captures: seq<Capture>, gone: set<nat>, b: nat)
    requires b < |captures|
    ensures var before := Unreferenced(captures, gone);
      before[b := before[b].(isReference := false)] == Unreferenced(captures, gone + {b})
  {
  }

  // ----- What the driver can rely on

  /** Index `k` leads the driver to the reference `r`, by POC and tag, and its timestamp to no other. */
  ghost predicate Resolves(seen: seq<DpbEntry>, dpb: seq<RefPic>, k: nat, r: RefPic) {
    && k < |seen| <= MAX_DPB && k < |dpb| && dpb[k] == r
    && seen[k].poc == r.poc && seen[k].timestampNs == TagNs(r.tag)
    && forall j :: 0 <= j < |seen| && j != k ==> seen[j].timestampNs != seen[k].timestampNs
  }

  /**
   * A current reference found resolves if and only if its buffer has one of the
   * 64 places of the index table, or the index 0 of all others happens to be its
   * own, and no other reference's tag is a multiple of 2^55 away. It is always
   * in the DPB, and its index below 16.
   */
  lemma CurrentReferencesResolve(e: Engine, pic: Picture, entry: RpsEntry)
    requires Inv(e)
    requires entry.Some? && var rps := RpsAtStart(e, pic);
      entry in rps.before || entry in rps.after || entry in rps.longTerm
    ensures var kept := DpbKept(e, pic);
      var seen := ParamsOf(kept, RpsAtStart(e, pic), CurrentPoc(e, pic)).dpb;
      && entry.value in kept && EntryIndex(kept, entry) < |seen| == |kept| <= MAX_DPB
      && (Resolves(seen, kept, EntryIndex(kept, entry), entry.value) <==>
          && (entry.value.buffer < MAX_BUFFERS || kept[0] == entry.value)
          && forall j :: 0 <= j < |kept| && kept[j] != entry.value ==>
            (kept[j].tag - entry.value.tag) % TAG_PERIOD != 0)
  {
    hide Inv, StartPicture, DpbKept, RpsAtStart, CurrentPoc, DpbAtStart, EntryIndex, DistinctBuffers, Resolves,
         DeriveRps, Evict, ParamsOf;
    KeptAtStart(e, pic);
    var kept := DpbKept(e, pic);
    StartKeepsInv(e, pic);
    StartedDpb(e, pic);
    CurrentSurvives(DpbAtStart(e, pic), pic, CurrentPoc(e, pic), e.sps.MaxPocLsb(), entry);
    KeptFacts(StartPicture(e, pic));
    EntryResolves(kept, entry);
    SeenResolves(kept, RpsAtStart(e, pic), CurrentPoc(e, pic), EntryIndex(kept, entry), entry.value);
  }

  lemma SeenResolves(dpb: seq<RefPic>, rps: RefPicSet, poc: int, k: nat, r: RefPic)
    requires k < |dpb| <= MAX_DPB && DistinctBuffers(dpb)
    ensures var seen := ParamsOf(dpb, rps, poc).dpb;
      && |seen| == |dpb|
      && (Resolves(seen, dpb, k, r) <==> dpb[k] == r && forall j :: 0 <= j < |dpb| && dpb[j] != r ==>
            (dpb[j].tag - r.tag) % TAG_PERIOD != 0)
  {
    hide TagNs, FirstIndices, Buffers;
    var seen := ParamsOf(dpb, rps, poc).dpb;
    forall j | 0 <= j < |dpb|
      ensures seen[j].timestampNs == TagNs(r.tag) <==> (dpb[j].tag - r.tag) % TAG_PERIOD == 0
    {
      TagNsEqualIff(dpb[j].tag, r.tag);
    }
    assert forall j :: 0 <= j < |dpb| && j != k ==> dpb[j] != dpb[k];
  }

  /** So with a pool of at most 64 buffers every one does, for 2^55 pictures at least. */
  lemma AllResolve(e: Engine, pic: Picture, entry: RpsEntry)
    requires Inv(e) && |e.captures| <= MAX_BUFFERS && e.nextTag <= TAG_PERIOD
    requires entry.Some? && var rps := RpsAtStart(e, pic);
      entry in rps.before || entry in rps.after || entry in rps.longTerm
    ensures var kept := DpbKept(e, pic);
      Resolves(ParamsOf(kept, RpsAtStart(e, pic), CurrentPoc(e, pic)).dpb, kept, EntryIndex(kept, entry), entry.value)
  {
    hide Inv, StartPicture, DpbKept, RpsAtStart, CurrentPoc, EntryIndex, Resolves, DistinctBuffers, ParamsOf;
    var kept := DpbKept(e, pic);
    StartKeepsInv(e, pic);
    StartedDpb(e, pic);
    KeptFacts(StartPicture(e, pic));
    CurrentReferencesResolve(e, pic, entry);
    var k :| 0 <= k < |kept| && kept[k] == entry.value;
    forall j | 0 <= j < |kept| && kept[j] != entry.value
      ensures (kept[j].tag - entry.value.tag) % TAG_PERIOD != 0
    {
      assert j < k || k < j;
      NotMultiple(kept[j].tag - entry.value.tag);
    }
  }

  lemma NotMultiple(d: int)
    requires d != 0 && -TAG_PERIOD < d < TAG_PERIOD
    ensures d % TAG_PERIOD != 0
  {
  }

  lemma KeptAtStart(e: Engine, pic: Picture)
    ensures DpbKept(e, pic) == Evict(DpbAtStart(e, pic), RpsAtStart(e, pic).kept)
    ensures RpsAtStart(e, pic) == DeriveRps(DpbAtStart(e, pic), pic, CurrentPoc(e, pic), e.sps.MaxPocLsb())
    ensures RpsAtStart(e, pic).kept == KeptPocs(DpbAtStart(e, pic), pic, CurrentPoc(e, pic), e.sps.MaxPocLsb())
  {
  }

  lemma KeptFacts(e: Engine)
    requires Inv(e)
    ensures |e.dpb| <= MAX_DPB && DistinctBuffers(e.dpb)
    ensures forall j :: 0 <= j < |e.dpb| ==> e.dpb[j].tag < e.nextTag
    ensures forall r :: r in e.dpb ==> r.buffer < |e.captures|
    ensures forall j, k :: 0 <= j < k < |e.dpb| ==> e.dpb[j].tag < e.dpb[k].tag
  {
  }

  /** The temporary lists have the size that the header's own parse counted. */
  lemma SubsetsMatchHeader(e: Engine, pic: Picture, sh: SliceHeader)
    requires pic.rps == sh.refs.rps && pic.longTerm == sh.refs.longTerm
    requires sh.numPicTotalCurr == NumPicTotalCurr(sh.refs)
    ensures var rps := RpsAtStart(e, pic);
      |rps.before| + |rps.after| + |rps.longTerm| == sh.numPicTotalCurr
  {
    SubsetsCount(DpbAtStart(e, pic), pic, sh.refs, CurrentPoc(e, pic), e.sps.MaxPocLsb());
  }

  /**
   * List 0 of a P or B slice, entry by entry: the DPB index of the picture that
   * the standard's list has there, its temporary list starting with the
   * pictures before the current one; zero past the active entries.
   */
  lemma List0IsStandard(dpb: seq<RefPic>, rps: RefPicSet, sh: SliceHeader, i: nat)
    requires ValidActive(sh.active, sh.numPicTotalCurr) && sh.sliceType != I && i < 16
    requires |rps.before| + |rps.after| + |rps.longTerm| == sh.numPicTotalCurr > 0
    ensures var temp, active := rps.before + rps.after + rps.longTerm, sh.active.l0Minus1 + 1;
      ListsOf(dpb, rps, sh).l0[i]
        == if i < active then
             EntryIndex(dpb, StandardList(temp, active, sh.active.modifiedL0, sh.active.entriesL0)[i])
           else 0
  {
    hide StandardList, EntryIndices, EntryIndex, BuiltList;
    var temp := rps.before + rps.after + rps.longTerm;
    assert Subsets(rps, false) == temp;
    BuiltPadding(EntryIndices(dpb, temp), sh.active.modifiedL0, sh.active.entriesL0, sh.active.l0Minus1, i);
    if i <= sh.active.l0Minus1 {
      BuiltIsStandard(dpb, temp, sh.active.modifiedL0, sh.active.entriesL0, sh.active.l0Minus1, i);
    }
  }

  /** List 1 of a B slice, its temporary list starting with the pictures after the current one. */
  lemma List1IsStandard(dpb: seq<RefPic>, rps: RefPicSet, sh: SliceHeader, i: nat)
    requires ValidActive(sh.active, sh.numPicTotalCurr) && sh.sliceType == B && i < 16
    requires |rps.before| + |rps.after| + |rps.longTerm| == sh.numPicTotalCurr > 0
    ensures var temp, active := rps.after + rps.before + rps.longTerm, sh.active.l1Minus1 + 1;
      ListsOf(dpb, rps, sh).l1[i]
        == if i < active then
             EntryIndex(dpb, StandardList(temp, active, sh.active.modifiedL1, sh.active.entriesL1)[i])
           else 0
  {
    hide StandardList, EntryIndices, EntryIndex, BuiltList;
    var temp := rps.after + rps.before + rps.longTerm;
    assert Subsets(rps, true) == temp;
    BuiltPadding(EntryIndices(dpb, temp), sh.active.modifiedL1, sh.active.entriesL1, sh.active.l1Minus1, i);
    if i <= sh.active.l1Minus1 {
      BuiltIsStandard(dpb, temp, sh.active.modifiedL1, sh.active.entriesL1, sh.active.l1Minus1, i);
    }
  }

  lemma BuiltPadding(temp: seq<nat>, modified: bool, entries: seq<nat>, activeMinus1: nat, i: nat)
    requires i < MAX_DPB && activeMinus1 < MAX_DPB && (modified ==> |entries| == activeMinus1 + 1)
    ensures i > activeMinus1 ==> BuiltList(temp, modified, entries, activeMinus1)[i] == 0
  {
  }

  /** No list 0 in an I slice, no list 1 outside a B slice, no list without references. */
  lemma ListsElsewhere(dpb: seq<RefPic>, rps: RefPicSet, sh: SliceHeader, i: nat)
    requires ValidActive(sh.active, sh.numPicTotalCurr) && i < 16
    ensures sh.sliceType == I || rps.before + rps.after + rps.longTerm == [] ==> ListsOf(dpb, rps, sh).l0[i] == 0
    ensures sh.sliceType != B || rps.before + rps.after + rps.longTerm == [] ==> ListsOf(dpb, rps, sh).l1[i] == 0
  {
  }
}
