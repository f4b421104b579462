/**
 * src/vaapi_h264_decoder.cc: the sliding window of H.264 references, numbered
 * modulo MaxFrameNum (sections 8.2.4.1 and 8.2.5.3 of ITU-T H.264), over the
 * engine's pool of surfaces.
 */
module VaapiH264Decoders {
  import opened Wrappers
  import opened Surfaces
  import Bits

  datatype RefEntry = RefEntry(slot: nat, frameNum: int, picNum: int, poc: int)

  /** What the engine takes from a slice: is it an IDR, its frame_num and nal_ref_idc. */
  datatype SliceInfo = SliceInfo(idr: bool, frameNum: nat, refIdc: nat)

  datatype AvcSps = AvcSps(log2MaxFrameNum: nat, maxNumRefFrames: nat) {
    /** The range that ParseSps enforces; max_num_ref_frames may be any 32-bit number. */
    predicate Valid() {
      4 <= log2MaxFrameNum <= 16 && maxNumRefFrames < 0x1_0000_0000
    }

    function MaxFrameNum(): (m: nat)
      requires Valid()
      ensures m >= 16
    {
      Bits.Pow2Monotone(4, log2MaxFrameNum);
      Bits.Pow2(log2MaxFrameNum)
    }

    /** The window always holds at least one reference; from 2^31 on the number turns negative as an int. */
    function Window(): (n: nat)
      ensures 1 <= n < 0x8000_0000
    {
      if 1 < maxNumRefFrames < 0x8000_0000 then maxNumRefFrames else 1
    }
  }

  datatype AvcEngine = AvcEngine(
    slots: seq<Slot>,
    dpb: seq<RefEntry>,
    prevFrameNum: int,
    prevFrameNumOffset: int,
    haveReady: bool,
    readySlot: nat,
    sps: AvcSps)

  /** One call; `rendered` and `exports` are libva's answers. */
  datatype AvcEvent =
    | Decode(slice: SliceInfo, rendered: bool)
    | Acquire(exports: bool)
    | Release(slot: nat)
    | Flush

  // ----- What each call does

  function SlotsOf(dpb: seq<RefEntry>): set<nat> {
    set r | r in dpb :: r.slot
  }

  function FrameNumOffset(idr: bool, frameNum: nat, prevFrameNum: int, prevOffset: int, maxFrameNum: nat): int {
    if idr then 0 else if prevFrameNum > frameNum then prevOffset + maxFrameNum else prevOffset
  }

  /** Picture order count type 2. */
  function AvcPocOf(offset: int, slice: SliceInfo): int {
    2 * (offset + slice.frameNum) - (if slice.refIdc == 0 then 1 else 0)
  }

  /** An IDR empties the window; frame_num is unwrapped. This happens however the decode ends. */
  function AvcBegin(e: AvcEngine, slice: SliceInfo): AvcEngine
    requires e.sps.Valid()
  {
    var prev, offset := if slice.idr then 0 else e.prevFrameNum, if slice.idr then 0 else e.prevFrameNumOffset;
    e.(
      slots := if slice.idr then Cleared(e.slots, SlotsOf(e.dpb)) else e.slots,
      dpb := if slice.idr then [] else e.dpb,
      prevFrameNum := slice.frameNum,
      prevFrameNumOffset := FrameNumOffset(slice.idr, slice.frameNum, prev, offset, e.sps.MaxFrameNum()))
  }

  /** The surface the next picture would go into. */
  function AvcTarget(e: AvcEngine): Option<nat> {
    FreeSlot(e.slots, e.haveReady, e.readySlot, 0)
  }

  predicate AvcFree(e: AvcEngine, slot: nat) {
    slot < |e.slots| && Free(e.slots, e.haveReady, e.readySlot, slot)
  }

  function PicNumOf(frameNum: int, current: nat, maxFrameNum: nat): int {
    if frameNum > current then frameNum - maxFrameNum else frameNum
  }

  /** Every entry's pic_num relative to the current frame_num. */
  function Numbered(dpb: seq<RefEntry>, current: nat, maxFrameNum: nat): (r: seq<RefEntry>)
    ensures |r| == |dpb|
    ensures forall i :: 0 <= i < |r| ==> r[i] == dpb[i].(picNum := PicNumOf(dpb[i].frameNum, current, maxFrameNum))
  {
    seq(|dpb|, i requires 0 <= i < |dpb| => dpb[i].(picNum := PicNumOf(dpb[i].frameNum, current, maxFrameNum)))
  }

  /** The first entry of lowest pic_num. */
  function Victim(dpb: seq<RefEntry>): (k: nat)
    requires dpb != []
    ensures k < |dpb|
    ensures forall j :: 0 <= j < |dpb| ==> dpb[k].picNum <= dpb[j].picNum
    ensures forall j :: 0 <= j < k ==> dpb[k].picNum < dpb[j].picNum
  {
    if |dpb| == 1 then 0
    else
      var k := Victim(dpb[..|dpb| - 1]);
      if dpb[|dpb| - 1].picNum < dpb[k].picNum then |dpb| - 1 else k
  }

  function Without(dpb: seq<RefEntry>, k: nat): (r: seq<RefEntry>)
    requires k < |dpb|
    ensures |r| == |dpb| - 1
  {
    dpb[..k] + dpb[k + 1..]
  }

  /** The window with room for one more. */
  function Slid(dpb: seq<RefEntry>, window: nat): seq<RefEntry>
    requires window >= 1
  {
    if |dpb| >= window then Without(dpb, Victim(dpb)) else dpb
  }

  /** The picture is parked; a reference slides the window and joins it. */
  function AvcMark(e: AvcEngine, slot: nat, slice: SliceInfo, poc: int): AvcEngine
    requires slot < |e.slots|
  {
    var parked := e.(haveReady := true, readySlot := slot);
    if slice.refIdc == 0 then parked
    else
      var left := Slid(e.dpb, e.sps.Window());
      var slots := Cleared(e.slots, SlotsOf(e.dpb) - SlotsOf(left));
      parked.(slots := slots[slot := slots[slot].(isReference := true)],
              dpb := left + [RefEntry(slot, slice.frameNum, slice.frameNum, poc)])
  }

  /** The engine when the slice has a surface to decode into. */
  function AvcReady(e: AvcEngine, slice: SliceInfo): AvcEngine
    requires e.sps.Valid()
  {
    var begun := AvcBegin(e, slice);
    begun.(dpb := Numbered(begun.dpb, slice.frameNum, e.sps.MaxFrameNum()))
  }

  function AvcPoc(e: AvcEngine, slice: SliceInfo): int
    requires e.sps.Valid()
  {
    AvcPocOf(AvcBegin(e, slice).prevFrameNumOffset, slice)
  }

  function AvcDecode(e: AvcEngine, slice: SliceInfo, rendered: bool): (AvcEngine, bool)
    requires e.sps.Valid()
  {
    var slot := AvcTarget(AvcBegin(e, slice));
    if slot.None? then (AvcBegin(e, slice), false)
    else if !rendered then (AvcReady(e, slice), false)
    else (AvcMark(AvcReady(e, slice), slot.value, slice, AvcPoc(e, slice)), true)
  }

  function AvcAcquire(e: AvcEngine, exports: bool): AvcEngine {
    if !e.haveReady || e.readySlot >= |e.slots| then e
    else
      e.(haveReady := false, slots := HandedOut(e.slots, e.readySlot, exports))
  }

  function AvcRelease(e: AvcEngine, slot: nat): AvcEngine {
    e.(slots := Released(e.slots, slot))
  }

  function AvcFlush(e: AvcEngine): AvcEngine {
    e.(slots := Cleared(e.slots, SlotsOf(e.dpb)), dpb := [], haveReady := false)
  }

  function AvcStep(e: AvcEngine, ev: AvcEvent): AvcEngine
    requires e.sps.Valid()
  {
    match ev
    case Decode(slice, rendered) => AvcDecode(e, slice, rendered).0
    case Acquire(exports) => AvcAcquire(e, exports)
    case Release(slot) => AvcRelease(e, slot)
    case Flush => AvcFlush(e)
  }

  function AvcConfigured(poolSize: nat, sps: AvcSps): AvcEngine {
    AvcEngine(NewPool(poolSize), [], 0, 0, false, 0, sps)
  }

  // ----- Surfaces

  ghost predicate DistinctSlots(dpb: seq<RefEntry>) {
    forall i, j :: 0 <= i < j < |dpb| ==> dpb[i].slot != dpb[j].slot
  }

  /** The reference flags mark exactly the surfaces in the window, none twice. */
  ghost predicate AvcInv(e: AvcEngine) {
    && DistinctSlots(e.dpb)
    && (forall j :: 0 <= j < |e.dpb| ==> e.dpb[j].slot < |e.slots|)
    && (forall i :: 0 <= i < |e.slots| ==> (e.slots[i].isReference <==> i in SlotsOf(e.dpb)))
    && (e.haveReady ==> e.readySlot < |e.slots| && !e.slots[e.readySlot].checkedOut)
    && e.sps.Valid()
  }

  lemma SlotsMember(dpb: seq<RefEntry>, j: nat)
    requires j < |dpb|
    ensures dpb[j].slot in SlotsOf(dpb)
  {
    assert dpb[j] in dpb;
  }

  lemma NumberedSlots(dpb: seq<RefEntry>, current: nat, maxFrameNum: nat)
    ensures SlotsOf(Numbered(dpb, current, maxFrameNum)) == SlotsOf(dpb)
  {
    var numbered := Numbered(dpb, current, maxFrameNum);
    forall r | r in dpb
      ensures r.slot in SlotsOf(numbered)
    {
      var j :| 0 <= j < |dpb| && dpb[j] == r;
      SlotsMember(numbered, j);
    }
    forall r | r in numbered
      ensures r.slot in SlotsOf(dpb)
    {
      var j :| 0 <= j < |numbered| && numbered[j] == r;
      SlotsMember(dpb, j);
    }
  }

  lemma WithoutSlots(dpb: seq<RefEntry>, k: nat)
    requires k < |dpb| && DistinctSlots(dpb)
    ensures SlotsOf(Without(dpb, k)) == SlotsOf(dpb) - {dpb[k].slot}
    ensures dpb[k].slot in SlotsOf(dpb) && DistinctSlots(Without(dpb, k))
  {
    SlotsMember(dpb, k);
    forall r | r in dpb && r != dpb[k]
      ensures r in Without(dpb, k)
    {
      var j :| 0 <= j < |dpb| && dpb[j] == r;
      assert Without(dpb, k)[if j < k then j else j - 1] == r;
    }
    forall r | r in Without(dpb, k)
      ensures r in dpb && r.slot != dpb[k].slot
    {
    }
  }

  lemma AppendSlots(dpb: seq<RefEntry>, r: RefEntry)
    ensures SlotsOf(dpb + [r]) == SlotsOf(dpb) + {r.slot}
  {
    assert r in dpb + [r];
    forall x | x in dpb
      ensures x in dpb + [r]
    {
    }
  }

  lemma BeginKeepsInv(e: AvcEngine, slice: SliceInfo)
    requires AvcInv(e)
    ensures AvcInv(AvcBegin(e, slice))
  {
  }

  lemma ReadyKeepsInv(e: AvcEngine, slice: SliceInfo)
    requires AvcInv(e)
    ensures AvcInv(AvcReady(e, slice))
  {
    hide AvcBegin, SlotsOf;
    BeginKeepsInv(e, slice);
    NumberedSlots(AvcBegin(e, slice).dpb, slice.frameNum, e.sps.MaxFrameNum());
  }

  lemma SlidKeeps(dpb: seq<RefEntry>, window: nat)
    requires window >= 1 && DistinctSlots(dpb)
    ensures DistinctSlots(Slid(dpb, window)) && SlotsOf(Slid(dpb, window)) <= SlotsOf(dpb)
    ensures forall r :: r in Slid(dpb, window) ==> r in dpb
  {
    if |dpb| >= window {
      WithoutSlots(dpb, Victim(dpb));
    }
  }

  /** A new reference in a free surface, after some others left. */
  lemma JoinKeepsFlags(slots: seq<Slot>, dpb: seq<RefEntry>, left: seq<RefEntry>, r: RefEntry)
    requires r.slot < |slots| && r.slot !in SlotsOf(dpb) && SlotsOf(left) <= SlotsOf(dpb)
    requires forall i :: 0 <= i < |slots| ==> (slots[i].isReference <==> i in SlotsOf(dpb))
    ensures var cleared := Cleared(slots, SlotsOf(dpb) - SlotsOf(left));
      var after := cleared[r.slot := cleared[r.slot].(isReference := true)];
      forall i :: 0 <= i < |after| ==> (after[i].isReference <==> i in SlotsOf(left + [r]))
  {
    hide SlotsOf;
    AppendSlots(left, r);
  }

  lemma JoinKeepsDistinct(left: seq<RefEntry>, r: RefEntry, n: nat)
    requires DistinctSlots(left) && r.slot !in SlotsOf(left) && r.slot < n
    requires forall j :: 0 <= j < |left| ==> left[j].slot < n
    ensures DistinctSlots(left + [r]) && forall j :: 0 <= j < |left + [r]| ==> (left + [r])[j].slot < n
  {
    forall j | 0 <= j < |left|
      ensures left[j].slot != r.slot
    {
      SlotsMember(left, j);
    }
  }

  lemma MarkKeepsInv(e: AvcEngine, slot: nat, slice: SliceInfo, poc: int)
    requires AvcInv(e) && AvcFree(e, slot)
    ensures AvcInv(AvcMark(e, slot, slice, poc))
  {
    if slice.refIdc != 0 {
      var left, r := Slid(e.dpb, e.sps.Window()), RefEntry(slot, slice.frameNum, slice.frameNum, poc);
      SlidKeeps(e.dpb, e.sps.Window());
      SlidInRange(e.dpb, e.sps.Window(), |e.slots|);
      hide Slid, SlotsOf, DistinctSlots;
      JoinKeepsFlags(e.slots, e.dpb, left, r);
      JoinKeepsDistinct(left, r, |e.slots|);
    }
  }

  lemma SlidInRange(dpb: seq<RefEntry>, window: nat, n: nat)
    requires window >= 1 && forall j :: 0 <= j < |dpb| ==> dpb[j].slot < n
    ensures forall j :: 0 <= j < |Slid(dpb, window)| ==> Slid(dpb, window)[j].slot < n
  {
  }

  /** Every call keeps the flags exact, whatever libva answers and the consumer does. */
  lemma AvcStepKeepsInv(e: AvcEngine, ev: AvcEvent)
    requires AvcInv(e)
    ensures AvcInv(AvcStep(e, ev))
  {
    match ev
    case Decode(slice, rendered) =>
      BeginKeepsInv(e, slice);
      ReadyKeepsInv(e, slice);
      var slot := AvcTarget(AvcBegin(e, slice));
      if slot.Some? && rendered {
        FreeStaysFree(e, slice, slot.value);
        MarkKeepsInv(AvcReady(e, slice), slot.value, slice, AvcPoc(e, slice));
      }
    case Acquire(_) =>
    case Release(_) =>
    case Flush =>
  }

  lemma FreeStaysFree(e: AvcEngine, slice: SliceInfo, slot: nat)
    requires e.sps.Valid() && AvcFree(AvcBegin(e, slice), slot)
    ensures AvcFree(AvcReady(e, slice), slot)
  {
  }

  lemma {:induction false} SlotsBound(dpb: seq<RefEntry>)
    ensures |SlotsOf(dpb)| <= |dpb|
  {
    if dpb != [] {
      var init, last := dpb[..|dpb| - 1], dpb[|dpb| - 1];
      SlotsBound(init);
      assert dpb == init + [last];
      AppendSlots(init, last);
    }
  }

  /** A surface is free whenever the pool exceeds references, frames out and the parked one. */
  lemma AvcTargetExists(e: AvcEngine)
    requires AvcInv(e) && |e.slots| > |e.dpb| + |CheckedOut(e.slots)| + 1
    ensures AvcTarget(e).Some?
  {
    SlotsBound(e.dpb);
    FreeSlotExists(e.slots, e.haveReady, e.readySlot, SlotsOf(e.dpb));
  }

  // ----- The engine

  class VaapiH264Decoder {
    var slots: seq<Slot>
    var dpb: seq<RefEntry>
    var prevFrameNum: int
    var prevFrameNumOffset: int
    var haveReady: bool
    var readySlot: nat
    const sps: AvcSps

    function State(): AvcEngine
      reads this
    {
      AvcEngine(slots, dpb, prevFrameNum, prevFrameNumOffset, haveReady, readySlot, sps)
    }

    constructor (poolSize: nat, sps: AvcSps)
      requires sps.Valid()
      ensures State() == AvcConfigured(poolSize, sps) && AvcInv(State())
    {
      this.slots := NewPool(poolSize);
      this.dpb := [];
      this.prevFrameNum, this.prevFrameNumOffset := 0, 0;
      this.haveReady, this.readySlot := false, 0;
      this.sps := sps;
    }

    method ComputePoc(slice: SliceInfo) returns (poc: int)
      requires sps.Valid()
      modifies this`prevFrameNum, this`prevFrameNumOffset
      ensures prevFrameNum == slice.frameNum
      ensures prevFrameNumOffset
        == FrameNumOffset(slice.idr, slice.frameNum, old(prevFrameNum), old(prevFrameNumOffset), sps.MaxFrameNum())
      ensures poc == AvcPocOf(prevFrameNumOffset, slice)
    {
      var offset: int;
      if slice.idr {
        offset := 0;
      } else if prevFrameNum > slice.frameNum {
        offset := prevFrameNumOffset + sps.MaxFrameNum();
      } else {
        offset := prevFrameNumOffset;
      }
      poc := 2 * (offset + slice.frameNum) - (if slice.refIdc == 0 then 1 else 0);
      prevFrameNumOffset := offset;
      prevFrameNum := slice.frameNum;
    }

    /** Clears the reference flag of every surface in the window. */
    method ClearReferences()
      requires forall j :: 0 <= j < |dpb| ==> dpb[j].slot < |slots|
      modifies this`slots
      ensures slots == Cleared(old(slots), SlotsOf(dpb))
    {
      for j := 0 to |dpb|
        invariant |slots| == |old(slots)|
        invariant slots == Cleared(old(slots), SlotsOf(dpb[..j]))
      {
        assert dpb[..j + 1] == dpb[..j] + [dpb[j]];
        AppendSlots(dpb[..j], dpb[j]);
        var k := dpb[j].slot;
        slots := slots[k := slots[k].(isReference := false)];
      }
      assert dpb[..|dpb|] == dpb;
    }

    method BeginSlice(slice: SliceInfo) returns (poc: int)
      requires AvcInv(State())
      modifies this
      ensures State() == AvcBegin(old(State()), slice) && poc == AvcPoc(old(State()), slice)
    {
      if slice.idr {
        ClearReferences();
        dpb := [];
        prevFrameNum, prevFrameNumOffset := 0, 0;
      }
      poc := ComputePoc(slice);
    }

    method NumberReferences(current: nat)
      requires sps.Valid()
      modifies this`dpb
      ensures dpb == Numbered(old(dpb), current, sps.MaxFrameNum())
    {
      for i := 0 to |dpb|
        invariant |dpb| == |old(dpb)|
        invariant forall j :: 0 <= j < i ==> dpb[j] == Numbered(old(dpb), current, sps.MaxFrameNum())[j]
        invariant forall j :: i <= j < |dpb| ==> dpb[j] == old(dpb)[j]
      {
        var frameNum := dpb[i].frameNum;
        dpb := dpb[i := dpb[i].(picNum := if frameNum > current then frameNum - sps.MaxFrameNum() else frameNum)];
      }
    }

    /** The order std::sort leaves the copy in; entries of equal pic_num may come either way. */
    method SortedList() returns (list0: seq<RefEntry>)
      ensures IsList0(dpb, list0)
    {
      hide IsList0;
      list0 := [];
      EmptyList0();
      for i := 0 to |dpb|
        invariant IsList0(dpb[..i], list0)
      {
        var k: nat := 0;
        while k < |list0| && list0[k].picNum >= dpb[i].picNum
          invariant k <= |list0|
          invariant forall j :: 0 <= j < k ==> list0[j].picNum >= dpb[i].picNum
        {
          k := k + 1;
        }
        InsertKeepsList0(dpb[..i], list0, dpb[i], k);
        assert dpb[..i] + [dpb[i]] == dpb[..i + 1];
        list0 := list0[..k] + [dpb[i]] + list0[k..];
      }
      assert dpb[..|dpb|] == dpb;
    }

    method LowestPicNum() returns (victim: nat)
      requires dpb != []
      ensures victim == Victim(dpb)
    {
      victim := 0;
      for i := 1 to |dpb|
        invariant victim == Victim(dpb[..i])
      {
        assert dpb[..i + 1][..i] == dpb[..i];
        if dpb[i].picNum < dpb[victim].picNum {
          victim := i;
        }
      }
      assert dpb[..|dpb|] == dpb;
    }

    /** Drops the entry of lowest pic_num when the window is full. */
    method SlideWindow()
      requires DistinctSlots(dpb) && forall j :: 0 <= j < |dpb| ==> dpb[j].slot < |slots|
      modifies this`slots, this`dpb
      ensures dpb == Slid(old(dpb), sps.Window())
      ensures slots == Cleared(old(slots), SlotsOf(old(dpb)) - SlotsOf(dpb))
    {
      hide SlotsOf, DistinctSlots, Victim;
      var active := if 1 < sps.maxNumRefFrames < 0x8000_0000 then sps.maxNumRefFrames else 1;
      if |dpb| < active {
        assert SlotsOf(dpb) - SlotsOf(dpb) == {};
        return;
      }
      var victim := LowestPicNum();
      WithoutSlots(dpb, victim);
      OnlyOne(SlotsOf(dpb), dpb[victim].slot);
      var k := dpb[victim].slot;
      slots := slots[k := slots[k].(isReference := false)];
      dpb := Without(dpb, victim);
    }

    /** One slice NAL, which this engine takes as one picture. */
    method DecodeSlice(slice: SliceInfo, rendered: bool) returns (ok: bool, list0: seq<RefEntry>)
      requires AvcInv(State())
      modifies this
      ensures AvcInv(State())
      ensures (State(), ok) == AvcDecode(old(State()), slice, rendered)
      ensures AvcTarget(AvcBegin(old(State()), slice)).Some? ==> IsList0(AvcReady(old(State()), slice).dpb, list0)
    {
      ghost var start := State();
      AvcStepKeepsInv(start, Decode(slice, rendered));
      BeginKeepsInv(start, slice);
      var poc := BeginSlice(slice);
      var slot := PickFreeSlot(slots, haveReady, readySlot);
      if slot == None {
        return false, [];
      }
      NumberReferences(slice.frameNum);
      list0 := SortedList();
      if !rendered {
        return false, list0;
      }
      ReadyKeepsInv(start, slice);
      hide AvcInv, AvcBegin, Slid, SlotsOf, AvcTarget, Numbered;
      Mark(slot.value, slice, poc);
      ok := true;
    }

    /** Parks the picture and marks a reference. */
    method Mark(slot: nat, slice: SliceInfo, poc: int)
      requires AvcInv(State()) && slot < |slots|
      modifies this
      ensures State() == AvcMark(old(State()), slot, slice, poc)
    {
      readySlot := slot;
      haveReady := true;
      if slice.refIdc != 0 {
        SlideWindow();
        slots := slots[slot := slots[slot].(isReference := true)];
        dpb := dpb + [RefEntry(slot, slice.frameNum, slice.frameNum, poc)];
      }
    }

    method Acquire(exports: bool) returns (slot: Option<nat>)
      requires AvcInv(State())
      modifies this
      ensures State() == AvcAcquire(old(State()), exports)
      ensures slot
        == if old(haveReady) && (old(slots[readySlot].exported) || exports) then Some(old(readySlot)) else None
    {
      if !haveReady {
        return None;
      }
      if !slots[readySlot].exported {
        slots := slots[readySlot := slots[readySlot].(exported := exports)];
      }
      if !slots[readySlot].exported {
        haveReady := false;
        return None;
      }
      slots := slots[readySlot := slots[readySlot].(checkedOut := true)];
      haveReady := false;
      return Some(readySlot);
    }

    method Release(slot: nat)
      modifies this`slots
      ensures State() == AvcRelease(old(State()), slot)
    {
      if slot >= |slots| {
        return;
      }
      slots := slots[slot := slots[slot].(checkedOut := false)];
    }

    method Flush()
      requires AvcInv(State())
      modifies this
      ensures State() == AvcFlush(old(State()))
    {
      ClearReferences();
      dpb := [];
      haveReady := false;
    }
  }

  lemma OnlyOne(all: set<nat>, k: nat)
    requires k in all
    ensures all - (all - {k}) == {k}
  {
  }

  /** A permutation of the window in descending pic_num. */
  predicate IsList0(dpb: seq<RefEntry>, list0: seq<RefEntry>) {
    && multiset(list0) == multiset(dpb)
    && forall i, j :: 0 <= i < j < |list0| ==> list0[i].picNum >= list0[j].picNum
  }

  lemma EmptyList0()
    ensures IsList0([], [])
  {
  }

  lemma InsertKeepsList0(dpb: seq<RefEntry>, list0: seq<RefEntry>, r: RefEntry, k: nat)
    requires IsList0(dpb, list0) && k <= |list0|
    requires forall j :: 0 <= j < k ==> list0[j].picNum >= r.picNum
    requires k < |list0| ==> list0[k].picNum < r.picNum
    ensures IsList0(dpb + [r], list0[..k] + [r] + list0[k..])
  {
    InsertKeepsMembers(dpb, list0, r, k);
    var after := list0[..k] + [r] + list0[k..];
    forall i, j | 0 <= i < j < |after|
      ensures after[i].picNum >= after[j].picNum
    {
      assert after[i] == if i < k then list0[i] else if i == k then r else list0[i - 1];
      assert after[j] == if j < k then list0[j] else if j == k then r else list0[j - 1];
    }
  }

  lemma InsertKeepsMembers(dpb: seq<RefEntry>, list0: seq<RefEntry>, r: RefEntry, k: nat)
    requires multiset(list0) == multiset(dpb) && k <= |list0|
    ensures multiset(list0[..k] + [r] + list0[k..]) == multiset(dpb + [r])
  {
    assert list0 == list0[..k] + list0[k..];
  }
}
