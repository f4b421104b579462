/**
 * src/vaapi_h265_decoder.cc: the VAAPI engine as an object whose methods update
 * its fields. libva's answers are parameters: whether the picture's render
 * sequence succeeded, whether a surface could be exported.
 */
module VaapiH265Decoders {
  import opened Wrappers
  import opened NalTypes
  import opened DpbMachine
  import opened DpbBuffers
  import opened ReferenceDerivation
  import opened SliceHeaders
  import opened RefLists
  import opened Surfaces

  /** ReferenceFrames[] of the VA picture parameters, and each RefPicList, hold 15 entries. */
  const VA_REFS: nat := 15

  /** The list entry that names no reference. */
  const NO_REF: nat := 0xFF

  datatype VaEngine = VaEngine(
    slots: seq<Slot>,
    dpb: seq<RefPic>,
    anchor: Anchor,
    seenFirst: bool,
    eosSeen: bool,
    haveReady: bool,
    readySlot: nat,
    sps: SpsParams)

  /** One call, and what libva answers. `parsed` fails on a malformed header or too many tiles. */
  datatype VaEvent =
    | Decode(pic: Picture, parsed: bool, rendered: bool)
    | Acquire(exports: bool)
    | Release(slot: nat)
    | Flush
    | Drain
    | EndOfSequence
    | NewSps(sps: SpsParams)

  // ----- What each call does

  function VaNoRasl(e: VaEngine, pic: Picture): bool {
    NoRaslOutput(pic, e.seenFirst, e.eosSeen)
  }

  function VaPoc(e: VaEngine, pic: Picture): int {
    PocOf(e.anchor, pic, e.sps.MaxPocLsb(), VaNoRasl(e, pic))
  }

  function VaDpbAtStart(e: VaEngine, pic: Picture): seq<RefPic> {
    if StartsSequence(pic, VaNoRasl(e, pic)) then [] else e.dpb
  }

  function VaRps(e: VaEngine, pic: Picture): RefPicSet {
    DeriveRps(VaDpbAtStart(e, pic), pic, VaPoc(e, pic), e.sps.MaxPocLsb())
  }

  function VaKept(e: VaEngine, pic: Picture): seq<RefPic> {
    Evict(VaDpbAtStart(e, pic), VaRps(e, pic).kept)
  }

  /** Up to and including eviction; this much happens whatever libva answers. */
  function VaStart(e: VaEngine, pic: Picture): VaEngine {
    var kept := VaKept(e, pic);
    e.(
      anchor := NextAnchor(e.anchor, pic, e.sps.MaxPocLsb(), VaNoRasl(e, pic)),
      seenFirst := true,
      eosSeen := false,
      slots := Cleared(e.slots, Buffers(e.dpb) - Buffers(kept)),
      dpb := kept)
  }

  /** The surface the next picture would go into. */
  function VaTarget(e: VaEngine): Option<nat> {
    FreeSlot(e.slots, e.haveReady, e.readySlot, 0)
  }

  predicate VaFree(e: VaEngine, slot: nat) {
    slot < |e.slots| && Free(e.slots, e.haveReady, e.readySlot, slot)
  }

  /** The picture is parked for the consumer and joins the DPB, which is cut to its bound. */
  function VaAdd(e: VaEngine, slot: nat, poc: int): VaEngine
    requires slot < |e.slots|
  {
    var all := e.dpb + [RefPic(poc, slot, 0)];
    var kept := Trim(all, e.sps.MaxDpb());
    e.(
      slots := Cleared(e.slots[slot := e.slots[slot].(isReference := true)], Buffers(all) - Buffers(kept) - {slot}),
      dpb := kept,
      haveReady := true,
      readySlot := slot)
  }

  function VaDecode(e: VaEngine, pic: Picture, parsed: bool, rendered: bool): (VaEngine, bool) {
    if !parsed then (e, false)
    else
      var started := VaStart(e, pic);
      var slot := VaTarget(started);
      if slot.None? || !rendered then (started, false) else (VaAdd(started, slot.value, VaPoc(e, pic)), true)
  }

  function VaAcquire(e: VaEngine, exports: bool): VaEngine {
    if !e.haveReady || e.readySlot >= |e.slots| then e
    else
      e.(haveReady := false, slots := HandedOut(e.slots, e.readySlot, exports))
  }

  function VaRelease(e: VaEngine, slot: nat): VaEngine {
    e.(slots := Released(e.slots, slot))
  }

  function VaFlush(e: VaEngine): VaEngine {
    e.(slots := Cleared(e.slots, Buffers(e.dpb)), dpb := [], anchor := Anchor(0, 0), seenFirst := false,
       eosSeen := false, haveReady := false)
  }

  predicate VaLegal(ev: VaEvent) {
    ev.NewSps? ==> ev.sps.Valid()
  }

  function VaStep(e: VaEngine, ev: VaEvent): VaEngine {
    match ev
    case Decode(pic, parsed, rendered) => VaDecode(e, pic, parsed, rendered).0
    case Acquire(exports) => VaAcquire(e, exports)
    case Release(slot) => VaRelease(e, slot)
    case Flush => VaFlush(e)
    case Drain => e
    case EndOfSequence => e.(eosSeen := true)
    case NewSps(sps) => e.(sps := sps)
  }

  function VaConfigured(poolSize: nat, sps: SpsParams): VaEngine {
    VaEngine(NewPool(poolSize), [], Anchor(0, 0), false, false, false, 0, sps)
  }

  // ----- The invariant

  ghost predicate VaInv(e: VaEngine) {
    && DistinctBuffers(e.dpb)
    && (forall j :: 0 <= j < |e.dpb| ==> e.dpb[j].buffer < |e.slots| && e.slots[e.dpb[j].buffer].isReference)
    && (e.haveReady ==> e.readySlot < |e.slots| && !e.slots[e.readySlot].checkedOut)
    && |e.dpb| <= MAX_DPB
    && e.sps.Valid()
  }

  lemma {:induction false} EvictKeepsDistinct(dpb: seq<RefPic>, kept: seq<int>)
    requires DistinctBuffers(dpb)
    ensures DistinctBuffers(Evict(dpb, kept)) && Subset(Evict(dpb, kept), dpb) && |Evict(dpb, kept)| <= |dpb|
  {
    if dpb != [] {
      var init, last := dpb[..|dpb| - 1], dpb[|dpb| - 1];
      EvictKeepsDistinct(init, kept);
      var left := Evict(init, kept);
      forall j | 0 <= j < |left|
        ensures left[j].buffer != last.buffer
      {
        assert left[j] in init;
      }
    }
  }

  lemma {:induction false} TrimKeepsDistinct(dpb: seq<RefPic>, max: nat)
    requires DistinctBuffers(dpb)
    ensures DistinctBuffers(Trim(dpb, max)) && Subset(Trim(dpb, max), dpb)
    decreases |dpb|
  {
    if |dpb| > max {
      TrimKeepsDistinct(Without(dpb, Lowest(dpb)), max);
    }
  }

  lemma {:induction false} ClearedKeeps(slots: seq<Slot>, dpb: seq<RefPic>, left: seq<RefPic>, gone: set<nat>)
    requires Subset(left, dpb) && gone !! Buffers(left)
    requires forall j :: 0 <= j < |dpb| ==> dpb[j].buffer < |slots| && slots[dpb[j].buffer].isReference
    ensures forall j :: 0 <= j < |left| ==>
      left[j].buffer < |slots| && Cleared(slots, gone)[left[j].buffer].isReference
  {
    forall j | 0 <= j < |left|
      ensures left[j] in dpb && left[j].buffer in Buffers(left)
    {
      assert left[j] in left;
    }
  }

  lemma StartKeepsVaInv(e: VaEngine, pic: Picture)
    requires VaInv(e)
    ensures VaInv(VaStart(e, pic))
  {
    var atStart, kept := VaDpbAtStart(e, pic), VaKept(e, pic);
    EvictKeepsDistinct(atStart, VaRps(e, pic).kept);
    assert Subset(kept, e.dpb);
    ClearedKeeps(e.slots, e.dpb, kept, Buffers(e.dpb) - Buffers(kept));
  }

  lemma AddKeepsVaInv(e: VaEngine, slot: nat, poc: int)
    requires VaInv(e) && VaFree(e, slot)
    ensures VaInv(VaAdd(e, slot, poc))
  {
    var newest := RefPic(poc, slot, 0);
    var all := e.dpb + [newest];
    var kept := Trim(all, e.sps.MaxDpb());
    TrimKeepsDistinct(all, e.sps.MaxDpb());
    ClearedKeeps(e.slots[slot := e.slots[slot].(isReference := true)], all, kept,
                 Buffers(all) - Buffers(kept) - {slot});
  }

  /**
   * Every call keeps the invariant: no surface is referenced twice, every
   * reference's surface is marked, the parked surface is not with the consumer.
   */
  lemma VaStepKeepsInv(e: VaEngine, ev: VaEvent)
    requires VaInv(e) && VaLegal(ev)
    ensures VaInv(VaStep(e, ev))
  {
    if ev.Decode? && ev.parsed {
      var started := VaStart(e, ev.pic);
      StartKeepsVaInv(e, ev.pic);
      if VaTarget(started).Some? && ev.rendered {
        AddKeepsVaInv(started, VaTarget(started).value, VaPoc(e, ev.pic));
      }
    }
  }

  /** The surface decoded into is nobody else's: not a reference's, the consumer's or the parked one. */
  lemma TargetIsFree(e: VaEngine, pic: Picture)
    requires VaInv(e)
    ensures var started := VaStart(e, pic);
      var slot := VaTarget(started);
      slot.Some? ==>
        && slot.value !in Buffers(started.dpb)
        && !started.slots[slot.value].checkedOut
        && !(started.haveReady && started.readySlot == slot.value)
  {
    hide VaStart;
    StartKeepsVaInv(e, pic);
    var started := VaStart(e, pic);
    forall r | r in started.dpb
      ensures started.slots[r.buffer].isReference
    {
    }
  }

  // ----- Runs

  ghost predicate VaIsRun(events: seq<VaEvent>) {
    forall k :: 0 <= k < |events| ==> VaLegal(events[k])
  }

  function VaRun(e: VaEngine, events: seq<VaEvent>): VaEngine
    decreases |events|
  {
    if events == [] then e else VaRun(VaStep(e, events[0]), events[1..])
  }

  // ----- Reference lists

  /** The place among the first 15 DPB entries of a current reference, or 0xFF. */
  function VaIndex(dpb: seq<RefPic>, e: RpsEntry): nat {
    if e.Some? && e.value.buffer < MAX_BUFFERS then
      var k := DpbIndex(dpb, if |dpb| < VA_REFS then |dpb| else VA_REFS, e.value.buffer);
      if k.Some? then k.value else NO_REF
    else NO_REF
  }

  function VaIndices(dpb: seq<RefPic>, entries: seq<RpsEntry>): (r: seq<nat>)
    ensures |r| == |entries|
    ensures forall i :: 0 <= i < |r| ==> r[i] == VaIndex(dpb, entries[i])
  {
    seq(|entries|, i requires 0 <= i < |entries| => VaIndex(dpb, entries[i]))
  }

  /**
   * A found reference is named by its own entry if and only if it is one of
   * the first 15 and its surface has a place in the table of 64; else it is
   * reported missing.
   */
  lemma VaIndexResolvesIff(dpb: seq<RefPic>, at: nat)
    requires at < |dpb| && DistinctBuffers(dpb)
    ensures VaIndex(dpb, Some(dpb[at])) == if at < VA_REFS && dpb[at].buffer < MAX_BUFFERS then at else NO_REF
  {
    var n := if |dpb| < VA_REFS then |dpb| else VA_REFS;
    var k := DpbIndex(dpb, n, dpb[at].buffer);
    if at < n {
      assert k.Some? by {
        assert dpb[at].buffer == dpb[at].buffer;
      }
    }
  }

  function VaListAt(temp: seq<nat>, modified: bool, entries: seq<nat>, activeMinus1: nat, i: nat): nat
    requires modified ==> |entries| == activeMinus1 + 1
  {
    if temp == [] || i > activeMinus1 then NO_REF else BuiltAt(temp, modified, entries, i)
  }

  function VaList(temp: seq<nat>, modified: bool, entries: seq<nat>, activeMinus1: nat): (r: seq<nat>)
    requires modified ==> |entries| == activeMinus1 + 1
    ensures |r| == VA_REFS
    ensures forall i :: 0 <= i < VA_REFS ==> r[i] == VaListAt(temp, modified, entries, activeMinus1, i)
  {
    seq(VA_REFS, i requires 0 <= i < VA_REFS => VaListAt(temp, modified, entries, activeMinus1, i))
  }

  /** Every active entry of a built list is the index of the picture the standard's list has there. */
  lemma VaListIsStandard(
    dpb: seq<RefPic>, subsets: seq<RpsEntry>, modified: bool, entries: seq<nat>, activeMinus1: nat, i: nat)
    requires subsets != [] && i <= activeMinus1 < VA_REFS
    requires modified ==>
      |entries| == activeMinus1 + 1 && forall k :: 0 <= k <= activeMinus1 ==> entries[k] < |subsets|
    ensures VaList(VaIndices(dpb, subsets), modified, entries, activeMinus1)[i]
      == VaIndex(dpb, StandardList(subsets, activeMinus1 + 1, modified, entries)[i])
  {
    hide WrapTemp, VaIndex;
    var n := |subsets|;
    var at := if modified then entries[i] else i;
    WrapTempAt(subsets, Max(activeMinus1 + 1, n), at);
    ModOfShift(0, if modified then entries[i] else i % n, n);
  }

  datatype VaLists = VaLists(l0: seq<nat>, l1: seq<nat>)

  function VaListsOf(dpb: seq<RefPic>, rps: RefPicSet, sh: SliceHeader): VaLists
    requires ValidActive(sh.active, sh.numPicTotalCurr)
  {
    var none := VaList([], false, [], 0);
    if sh.sliceType == I then VaLists(none, none)
    else
      VaLists(
        VaList(VaIndices(dpb, Subsets(rps, false)), sh.active.modifiedL0, sh.active.entriesL0, sh.active.l0Minus1),
        if sh.sliceType == B then
          VaList(VaIndices(dpb, Subsets(rps, true)), sh.active.modifiedL1, sh.active.entriesL1, sh.active.l1Minus1)
        else none)
  }

  /** List 0 of a P or B slice, entry by entry; 0xFF past the active entries. */
  lemma VaList0IsStandard(dpb: seq<RefPic>, rps: RefPicSet, sh: SliceHeader, i: nat)
    requires ValidActive(sh.active, sh.numPicTotalCurr) && sh.sliceType != I && i < 15
    requires |rps.before| + |rps.after| + |rps.longTerm| == sh.numPicTotalCurr > 0
    ensures var temp, active := rps.before + rps.after + rps.longTerm, sh.active.l0Minus1 + 1;
      VaListsOf(dpb, rps, sh).l0[i]
        == if i < active then
             VaIndex(dpb, StandardList(temp, active, sh.active.modifiedL0, sh.active.entriesL0)[i])
           else 0xFF
  {
    hide StandardList, VaIndices, VaIndex, VaList;
    var temp := rps.before + rps.after + rps.longTerm;
    assert Subsets(rps, false) == temp;
    VaListPadding(VaIndices(dpb, temp), sh.active.modifiedL0, sh.active.entriesL0, sh.active.l0Minus1, i);
    if i <= sh.active.l0Minus1 {
      VaListIsStandard(dpb, temp, sh.active.modifiedL0, sh.active.entriesL0, sh.active.l0Minus1, i);
    }
  }

  /** List 1 of a B slice. */
  lemma VaList1IsStandard(dpb: seq<RefPic>, rps: RefPicSet, sh: SliceHeader, i: nat)
    requires ValidActive(sh.active, sh.numPicTotalCurr) && sh.sliceType == B && i < 15
    requires |rps.before| + |rps.after| + |rps.longTerm| == sh.numPicTotalCurr > 0
    ensures var temp, active := rps.after + rps.before + rps.longTerm, sh.active.l1Minus1 + 1;
      VaListsOf(dpb, rps, sh).l1[i]
        == if i < active then
             VaIndex(dpb, StandardList(temp, active, sh.active.modifiedL1, sh.active.entriesL1)[i])
           else 0xFF
  {
    hide StandardList, VaIndices, VaIndex, VaList;
    var temp := rps.after + rps.before + rps.longTerm;
    assert Subsets(rps, true) == temp;
    VaListPadding(VaIndices(dpb, temp), sh.active.modifiedL1, sh.active.entriesL1, sh.active.l1Minus1, i);
    if i <= sh.active.l1Minus1 {
      VaListIsStandard(dpb, temp, sh.active.modifiedL1, sh.active.entriesL1, sh.active.l1Minus1, i);
    }
  }

  lemma VaListPadding(temp: seq<nat>, modified: bool, entries: seq<nat>, activeMinus1: nat, i: nat)
    requires i < VA_REFS && (modified ==> |entries| == activeMinus1 + 1)
    ensures i > activeMinus1 ==> VaList(temp, modified, entries, activeMinus1)[i] == NO_REF
  {
  }

  /** No list 0 in an I slice, no list 1 outside a B slice, no list without references. */
  lemma VaListsElsewhere(dpb: seq<RefPic>, rps: RefPicSet, sh: SliceHeader, i: nat)
    requires ValidActive(sh.active, sh.numPicTotalCurr) && i < 15
    ensures sh.sliceType == I || rps.before + rps.after + rps.longTerm == [] ==> VaListsOf(dpb, rps, sh).l0[i] == 0xFF
    ensures sh.sliceType != B || rps.before + rps.after + rps.longTerm == [] ==> VaListsOf(dpb, rps, sh).l1[i] == 0xFF
  {
  }

  // ----- The engine

  class VaapiH265Decoder {
    var slots: seq<Slot>
    var dpb: seq<RefPic>
    var prevPocLsb: int
    var prevPocMsb: int
    var seenFirstPicture: bool
    var eosSeen: bool
    var haveReady: bool
    var readySlot: nat
    var sps: SpsParams

    function State(): VaEngine
      reads this
    {
      VaEngine(slots, dpb, Anchor(prevPocLsb, prevPocMsb), seenFirstPicture, eosSeen, haveReady, readySlot, sps)
    }

    constructor (poolSize: nat, sps: SpsParams)
      requires sps.Valid()
      ensures State() == VaConfigured(poolSize, sps) && VaInv(State())
    {
      this.slots := NewPool(poolSize);
      this.dpb := [];
      this.prevPocLsb, this.prevPocMsb := 0, 0;
      this.seenFirstPicture, this.eosSeen, this.haveReady, this.readySlot := false, false, false, 0;
      this.sps := sps;
    }

    method ComputePoc(pic: Picture, noRaslOutput: bool) returns (poc: int)
      modifies this`prevPocLsb, this`prevPocMsb, this`seenFirstPicture
      ensures poc == PocOf(old(State().anchor), pic, sps.MaxPocLsb(), noRaslOutput)
      ensures State() == old(State()).(
        anchor := NextAnchor(old(State().anchor), pic, sps.MaxPocLsb(), noRaslOutput),
        seenFirst := true)
    {
      var maxPocLsb := sps.MaxPocLsb();
      var pocMsb := 0;
      if !noRaslOutput {
        if pic.pocLsb < prevPocLsb && prevPocLsb - pic.pocLsb >= maxPocLsb / 2 {
          pocMsb := prevPocMsb + maxPocLsb;
        } else if pic.pocLsb > prevPocLsb && pic.pocLsb - prevPocLsb > maxPocLsb / 2 {
          pocMsb := prevPocMsb - maxPocLsb;
        } else {
          pocMsb := prevPocMsb;
        }
      }
      poc := pocMsb + pic.pocLsb;
      if pic.temporalIdPlus1 == 1 && !IsRaslOrRadl(pic.nalType) {
        prevPocLsb, prevPocMsb := pic.pocLsb, pocMsb;
      }
      seenFirstPicture := true;
    }

    method ClearReferences(gone: seq<RefPic>)
      requires forall j :: 0 <= j < |gone| ==> gone[j].buffer < |slots|
      modifies this`slots
      ensures slots == Cleared(old(slots), Buffers(gone))
    {
      for j := 0 to |gone|
        invariant |slots| == |old(slots)|
        invariant slots == Cleared(old(slots), Buffers(gone[..j]))
      {
        BuffersSnoc(gone, j);
        var b := gone[j].buffer;
        slots := slots[b := slots[b].(isReference := false)];
      }
      assert gone[..|gone|] == gone;
    }

    method EvictUnkept(kept: seq<int>)
      requires DistinctBuffers(dpb) && forall j :: 0 <= j < |dpb| ==> dpb[j].buffer < |slots|
      modifies this`slots, this`dpb
      ensures dpb == Evict(old(dpb), kept)
      ensures slots == Cleared(old(slots), Buffers(old(dpb)) - Buffers(dpb))
    {
      hide Buffers;
      EmptyBuffers(dpb[..0]);
      ClearNothing(slots);
      var left: seq<RefPic> := [];
      for j := 0 to |dpb|
        invariant dpb == old(dpb) && |slots| == |old(slots)|
        invariant left == Evict(dpb[..j], kept)
        invariant slots == Cleared(old(slots), Buffers(dpb[..j]) - Buffers(left))
      {
        assert dpb[..j + 1][..j] == dpb[..j];
        var keep := IsKept(dpb[j].poc, kept);
        EvictStep(dpb, left, kept, j);
        if keep {
          left := left + [dpb[j]];
        } else {
          var b := dpb[j].buffer;
          ClearedStep(old(slots), Buffers(dpb[..j]) - Buffers(left), b);
          slots := slots[b := slots[b].(isReference := false)];
        }
      }
      assert dpb[..|dpb|] == dpb;
      dpb := left;
    }

    method IsKept(poc: int, kept: seq<int>) returns (keep: bool)
      ensures keep <==> poc in kept
    {
      for p := 0 to |kept|
        invariant poc !in kept[..p]
      {
        if kept[p] == poc {
          return true;
        }
      }
      assert kept[..|kept|] == kept;
      return false;
    }

    method TrimDpb(slot: nat)
      requires DistinctBuffers(dpb) && forall j :: 0 <= j < |dpb| ==> dpb[j].buffer < |slots|
      modifies this`slots, this`dpb
      ensures dpb == Trim(old(dpb), sps.MaxDpb())
      ensures slots == Cleared(old(slots), Buffers(old(dpb)) - Buffers(dpb) - {slot})
    {
      hide Buffers, Trim, Without, DistinctBuffers, Lowest;
      var maxDpb := sps.MaxDpb();
      TrimDone(dpb, maxDpb);
      assert slots == Cleared(slots, Buffers(dpb) - Buffers(dpb) - {slot});
      while |dpb| > maxDpb
        invariant |slots| == |old(slots)| && DistinctBuffers(dpb)
        invariant forall j :: 0 <= j < |dpb| ==> dpb[j].buffer < |slots|
        invariant Trim(dpb, maxDpb) == Trim(old(dpb), maxDpb) && Buffers(dpb) <= Buffers(old(dpb))
        invariant slots == Cleared(old(slots), Buffers(old(dpb)) - Buffers(dpb) - {slot})
        decreases |dpb|
      {
        var oldest := OldestEntry(dpb);
        var b := dpb[oldest].buffer;
        WithoutBuffers(dpb, oldest);
        WithoutInRange(dpb, oldest, |slots|);
        TrimDone(dpb, maxDpb);
        TrimStep(Buffers(old(dpb)), Buffers(dpb), b, slot);
        if b != slot {
          ClearedStep(old(slots), Buffers(old(dpb)) - Buffers(dpb) - {slot}, b);
          slots := slots[b := slots[b].(isReference := false)];
        }
        dpb := Without(dpb, oldest);
      }
    }

    /** POC, sequence start, reference set and eviction. */
    method BeginPicture(pic: Picture) returns (poc: int, rps: RefPicSet)
      requires VaInv(State())
      modifies this
      ensures State() == VaStart(old(State()), pic)
      ensures poc == VaPoc(old(State()), pic) && rps == VaRps(old(State()), pic)
    {
      hide PocOf, NextAnchor, Buffers, DeriveRps, Evict, Cleared, VaInv, DistinctBuffers, VaStart, VaRps, VaPoc,
           VaDpbAtStart;
      ghost var start := State();
      InvDpb(State());
      poc := BeginPoc(pic);
      ghost var cleared, atStart := slots, dpb;
      rps := DeriveReferences(dpb, pic, poc, sps.MaxPocLsb());
      EvictUnkept(rps.kept);
      BeganEngine(start, pic, poc, atStart, rps, cleared, slots);
    }

    /** NoRaslOutputFlag, POC and anchor, and the start of a sequence. */
    method BeginPoc(pic: Picture) returns (poc: int)
      requires DistinctBuffers(dpb) && forall j :: 0 <= j < |dpb| ==> dpb[j].buffer < |slots|
      modifies this
      ensures DistinctBuffers(dpb) && forall j :: 0 <= j < |dpb| ==> dpb[j].buffer < |slots|
      ensures var noRasl := NoRaslOutput(pic, old(seenFirstPicture), old(eosSeen));
        && poc == PocOf(old(State().anchor), pic, old(sps).MaxPocLsb(), noRasl)
        && State() == old(State()).(
          anchor := NextAnchor(old(State().anchor), pic, old(sps).MaxPocLsb(), noRasl),
          seenFirst := true,
          eosSeen := false,
          dpb := if StartsSequence(pic, noRasl) then [] else old(dpb),
          slots := if StartsSequence(pic, noRasl) then Cleared(old(slots), Buffers(old(dpb))) else old(slots))
    {
      hide PocOf, NextAnchor, Buffers, Cleared, DistinctBuffers;
      var noRaslOutput := IsIdr(pic.nalType) || IsBla(pic.nalType)
        || (IsIrap(pic.nalType) && (!seenFirstPicture || eosSeen));
      eosSeen := false;
      poc := ComputePoc(pic, noRaslOutput);
      StartSequence(IsIrap(pic.nalType) && noRaslOutput);
    }

    /** An IRAP picture that starts a sequence empties the DPB. */
    method StartSequence(starts: bool)
      requires DistinctBuffers(dpb) && forall j :: 0 <= j < |dpb| ==> dpb[j].buffer < |slots|
      modifies this`slots, this`dpb
      ensures DistinctBuffers(dpb) && forall j :: 0 <= j < |dpb| ==> dpb[j].buffer < |slots|
      ensures dpb == if starts then [] else old(dpb)
      ensures slots == if starts then Cleared(old(slots), Buffers(old(dpb))) else old(slots)
    {
      if starts {
        ClearReferences(dpb);
        dpb := [];
      }
    }

    method BuildList(temp: seq<nat>, modified: bool, entries: seq<nat>, activeMinus1: nat) returns (out: seq<nat>)
      requires modified ==> |entries| == activeMinus1 + 1
      ensures out == VaList(temp, modified, entries, activeMinus1)
    {
      out := seq(VA_REFS, _ => NO_REF);
      if temp == [] {
        return;
      }
      var i: nat := 0;
      while i <= activeMinus1 && i < VA_REFS
        invariant |out| == VA_REFS && i <= VA_REFS
        invariant forall k :: 0 <= k < i ==> out[k] == VaListAt(temp, modified, entries, activeMinus1, k)
        invariant forall k :: i <= k < VA_REFS ==> out[k] == NO_REF
        decreases VA_REFS - i
      {
        var idx := if modified then entries[i] else i % |temp|;
        out := out[i := temp[idx % |temp|]];
        i := i + 1;
      }
    }

    method SliceReferenceLists(rps: RefPicSet, sh: SliceHeader) returns (lists: VaLists)
      requires ValidActive(sh.active, sh.numPicTotalCurr)
      ensures lists == VaListsOf(dpb, rps, sh)
    {
      hide VaList, VaIndices, Subsets;
      var l0 := BuildList([], false, [], 0);
      var l1 := BuildList([], false, [], 0);
      if sh.sliceType != I {
        l0 := BuildList(VaIndices(dpb, Subsets(rps, false)), sh.active.modifiedL0, sh.active.entriesL0,
                        sh.active.l0Minus1);
        if sh.sliceType == B {
          l1 := BuildList(VaIndices(dpb, Subsets(rps, true)), sh.active.modifiedL1, sh.active.entriesL1,
                          sh.active.l1Minus1);
        }
      }
      return VaLists(l0, l1);
    }

    /** Parks the picture, marks its surface and adds it to the DPB. */
    method AddDecoded(slot: nat, poc: int)
      requires VaInv(State()) && VaFree(State(), slot)
      modifies this
      ensures State() == VaAdd(old(State()), slot, poc)
    {
      hide Buffers, Trim, DistinctBuffers, VaInv, VaFree, Cleared;
      NewSurface(State(), slot);
      InvDpb(State());
      JoinDpb(dpb, RefPic(poc, slot, 0), |slots|);
      readySlot := slot;
      haveReady := true;
      slots := slots[slot := slots[slot].(isReference := true)];
      dpb := dpb + [RefPic(poc, slot, 0)];
      TrimDpb(slot);
    }

    method AllReferenceLists(rps: RefPicSet, headers: seq<SliceHeader>) returns (lists: seq<VaLists>)
      requires forall i :: 0 <= i < |headers| ==> ValidActive(headers[i].active, headers[i].numPicTotalCurr)
      ensures |lists| == |headers|
      ensures forall i :: 0 <= i < |headers| ==> lists[i] == VaListsOf(dpb, rps, headers[i])
    {
      hide VaListsOf;
      lists := [];
      for i := 0 to |headers|
        invariant |lists| == i
        invariant forall k :: 0 <= k < i ==> lists[k] == VaListsOf(dpb, rps, headers[k])
      {
        var slice := SliceReferenceLists(rps, headers[i]);
        lists := lists + [slice];
      }
    }

    /**
     * One picture, from its parsed slice headers; none when its slices could
     * not be parsed, or its tiles not described. `rendered` is libva's answer
     * to the render sequence.
     */
    method DecodePicture(nalType: nat, temporalIdPlus1: nat, headers: seq<SliceHeader>, rendered: bool)
      returns (ok: bool, target: Option<nat>, lists: seq<VaLists>)
      requires VaInv(State())
      requires forall i :: 0 <= i < |headers| ==> ValidActive(headers[i].active, headers[i].numPicTotalCurr)
      modifies this
      ensures VaInv(State())
      ensures headers == [] ==> !ok && State() == old(State())
      ensures headers != [] ==>
        var pic := Picture(nalType, temporalIdPlus1, headers[0].refs.pocLsb, headers[0].picOutput,
                           headers[0].refs.rps, headers[0].refs.longTerm);
        var started := VaStart(old(State()), pic);
        && (State(), ok) == VaDecode(old(State()), pic, true, rendered)
        && target == VaTarget(started)
        && (target.Some? ==>
            |lists| == |headers| && forall i :: 0 <= i < |headers| ==>
              lists[i] == VaListsOf(started.dpb, VaRps(old(State()), pic), headers[i]))
    {
      hide VaInv, VaStart, VaAdd, VaPoc, VaRps, VaListsOf, ValidActive;
      if headers == [] {
        return false, None, [];
      }
      ghost var start := State();
      var pic := Picture(nalType, temporalIdPlus1, headers[0].refs.pocLsb, headers[0].picOutput,
                         headers[0].refs.rps, headers[0].refs.longTerm);
      VaStepKeepsInv(start, Decode(pic, true, rendered));
      StartKeepsVaInv(start, pic);
      var poc, rps := BeginPicture(pic);
      target := PickFreeSlot(slots, haveReady, readySlot);
      if target == None {
        return false, target, [];
      }
      lists := AllReferenceLists(rps, headers);
      if !rendered {
        return false, target, lists;
      }
      AddDecoded(target.value, poc);
      ok := true;
    }

    /** Hands out the parked frame; `exports` is vaExportSurfaceHandle's answer. */
    method Acquire(exports: bool) returns (slot: Option<nat>)
      requires VaInv(State())
      modifies this
      ensures State() == VaAcquire(old(State()), exports)
      ensures slot
        == if old(haveReady) && (old(slots[readySlot].exported) || exports) then Some(old(readySlot)) else None
    {
      if !haveReady {
        return None;
      }
      if !slots[readySlot].exported {
        slots := slots[readySlot := slots[readySlot].(exported := exports)];
      }
      if !slots[readySlot].exported {
        haveReady := false;
        return None;
      }
      slots := slots[readySlot := slots[readySlot].(checkedOut := true)];
      haveReady := false;
      return Some(readySlot);
    }

    method Release(slot: nat)
      modifies this`slots
      ensures State() == VaRelease(old(State()), slot)
    {
      if slot >= |slots| {
        return;
      }
      slots := slots[slot := slots[slot].(checkedOut := false)];
    }

    method Flush()
      requires VaInv(State())
      modifies this
      ensures State() == VaFlush(old(State()))
    {
      hide VaInv, Buffers, DistinctBuffers;
      InvDpb(State());
      ClearReferences(dpb);
      dpb := [];
      prevPocLsb, prevPocMsb := 0, 0;
      seenFirstPicture, eosSeen, haveReady := false, false, false;
    }

    /** Decoding is synchronous: nothing is held back. */
    method Drain()
      ensures State() == old(State())
    {
    }
  }

  /** Clearing at a sequence start and evicting clear what eviction alone would. */
  lemma BeginParts(e: VaEngine, pic: Picture, cleared: seq<Slot>, after: seq<Slot>)
    requires cleared == if StartsSequence(pic, VaNoRasl(e, pic)) then Cleared(e.slots, Buffers(e.dpb)) else e.slots
    requires after == Cleared(cleared, Buffers(VaDpbAtStart(e, pic)) - Buffers(VaKept(e, pic)))
    ensures VaStart(e, pic).slots == after
  {
    hide VaRps;
    if StartsSequence(pic, VaNoRasl(e, pic)) {
      assert Buffers([]) == {};
      assert VaKept(e, pic) == [];
    }
  }

  lemma BeganEngine(e: VaEngine, pic: Picture, poc: int, atStart: seq<RefPic>, rps: RefPicSet,
                    cleared: seq<Slot>, after: seq<Slot>)
    requires poc == PocOf(e.anchor, pic, e.sps.MaxPocLsb(), VaNoRasl(e, pic))
    requires var starts := StartsSequence(pic, VaNoRasl(e, pic));
      && atStart == (if starts then [] else e.dpb)
      && cleared == (if starts then Cleared(e.slots, Buffers(e.dpb)) else e.slots)
    requires rps == DeriveRps(atStart, pic, poc, e.sps.MaxPocLsb())
    requires after == Cleared(cleared, Buffers(atStart) - Buffers(Evict(atStart, rps.kept)))
    ensures poc == VaPoc(e, pic) && rps == VaRps(e, pic)
    ensures VaStart(e, pic) == e.(
      slots := after,
      dpb := Evict(atStart, rps.kept),
      anchor := NextAnchor(e.anchor, pic, e.sps.MaxPocLsb(), VaNoRasl(e, pic)),
      seenFirst := true,
      eosSeen := false)
  {
    hide DeriveRps, NextAnchor, PocOf;
    BeginParts(e, pic, cleared, after);
  }

  lemma InvDpb(e: VaEngine)
    requires VaInv(e)
    ensures DistinctBuffers(e.dpb) && forall j :: 0 <= j < |e.dpb| ==> e.dpb[j].buffer < |e.slots|
  {
  }

  lemma NewSurface(e: VaEngine, slot: nat)
    requires VaInv(e) && VaFree(e, slot)
    ensures slot < |e.slots| && slot !in Buffers(e.dpb)
  {
  }
}
