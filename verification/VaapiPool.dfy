/**
 * The VAAPI engine's surfaces as a resource: the one way a surface gets lost,
 * here for good, and when a picture is sure to find one.
 */
module VaapiPool {
  import opened DpbMachine
  import opened DpbBuffers
  import opened Surfaces
  import opened VaapiH265Decoders

  /** The marks are exactly the surfaces in the DPB. */
  ghost predicate VaTight(e: VaEngine) {
    forall i :: 0 <= i < |e.slots| ==> (e.slots[i].isReference <==> i in Buffers(e.dpb))
  }

  /** The surface of a picture that left the DPB as the newest one. */
  ghost predicate VaLost(e: VaEngine, i: nat) {
    i < |e.slots| && e.slots[i].isReference && i !in Buffers(e.dpb)
  }

  lemma StartKeepsVaTight(e: VaEngine, pic: Picture)
    requires VaInv(e) && VaTight(e)
    ensures VaTight(VaStart(e, pic))
  {
    EvictKeepsDistinct(VaDpbAtStart(e, pic), VaRps(e, pic).kept);
    SubsetBuffers(VaKept(e, pic), e.dpb);
  }

  /**
   * A decode from exact marks: they stay exact if and only if fewer than
   * sps_max_dec_pic_buffering_minus1 + 1 kept references have a higher POC than
   * the new picture. Otherwise the new picture is cut from the DPB at once, its
   * mark stays, and its surface is lost.
   */
  lemma VaDecodeTightness(e: VaEngine, pic: Picture)
    requires VaInv(e) && VaTight(e) && VaTarget(VaStart(e, pic)).Some?
    ensures var next := VaDecode(e, pic, true, true).0;
      && (VaTight(next) <==> CountHigher(VaKept(e, pic), VaPoc(e, pic)) <= e.sps.maxDecPicBufferingMinus1)
      && (!VaTight(next) ==> VaLost(next, VaTarget(VaStart(e, pic)).value))
  {
    StartKeepsVaInv(e, pic);
    StartKeepsVaTight(e, pic);
    VaAddTightness(VaStart(e, pic), VaTarget(VaStart(e, pic)).value, VaPoc(e, pic));
    hide VaInv, VaTight, VaLost, VaAdd, CountHigher, VaTarget;
  }

  lemma VaAddTightness(e: VaEngine, slot: nat, poc: int)
    requires VaInv(e) && VaTight(e) && VaFree(e, slot)
    ensures VaTight(VaAdd(e, slot, poc)) <==> CountHigher(e.dpb, poc) <= e.sps.maxDecPicBufferingMinus1
    ensures !VaTight(VaAdd(e, slot, poc)) ==> VaLost(VaAdd(e, slot, poc), slot)
  {
    var newest := RefPic(poc, slot, 0);
    var kept := Trim(e.dpb + [newest], e.sps.MaxDpb());
    NewSurface(e, slot);
    assert newest in e.dpb ==> slot in Buffers(e.dpb);
    TrimBuffers(e.dpb, newest, e.sps.MaxDpb());
    TrimKeepsNewest(e.dpb, newest, e.sps.MaxDpb());
    NewestByBuffer(e.dpb, newest, kept);
    VaAddedTight(e, slot, poc);
    hide VaInv, VaTight, VaLost, Buffers, CountHigher;
  }

  /** Only the newest picture's own mark can come apart from the DPB. */
  lemma VaAddedTight(e: VaEngine, slot: nat, poc: int)
    requires VaTight(e) && VaFree(e, slot)
    ensures var added := VaAdd(e, slot, poc);
      && (VaTight(added) <==> slot in Buffers(added.dpb))
      && (!VaTight(added) ==> VaLost(added, slot))
  {
    hide Trim, Buffers;
    var newest := RefPic(poc, slot, 0);
    TrimBuffers(e.dpb, newest, e.sps.MaxDpb());
    AppendBuffers(e.dpb, newest);
    var added := VaAdd(e, slot, poc);
    assert added.slots[slot].isReference;
    forall i | 0 <= i < |e.slots| && i != slot
      ensures added.slots[i].isReference <==> i in Buffers(added.dpb)
    {
    }
  }

  // ----- A lost surface stays lost

  lemma StartKeepsVaLost(e: VaEngine, pic: Picture, i: nat)
    requires VaInv(e) && VaLost(e, i)
    ensures VaLost(VaStart(e, pic), i)
  {
    EvictKeepsDistinct(VaDpbAtStart(e, pic), VaRps(e, pic).kept);
    SubsetBuffers(VaKept(e, pic), e.dpb);
    hide VaInv, VaKept, VaPoc;
  }

  lemma AddKeepsVaLost(e: VaEngine, slot: nat, poc: int, i: nat)
    requires VaLost(e, i) && VaFree(e, slot)
    ensures VaLost(VaAdd(e, slot, poc), i)
  {
    hide Trim, Buffers;
    var newest := RefPic(poc, slot, 0);
    AppendBuffers(e.dpb, newest);
    TrimBuffers(e.dpb, newest, e.sps.MaxDpb());
  }

  /** No call gives a lost surface back, Flush included: it unmarks only what is in the DPB. */
  lemma VaStepKeepsLost(e: VaEngine, ev: VaEvent, i: nat)
    requires VaInv(e) && VaLost(e, i)
    ensures VaLost(VaStep(e, ev), i)
  {
    if ev.Decode? && ev.parsed {
      var started := VaStart(e, ev.pic);
      StartKeepsVaLost(e, ev.pic, i);
      if VaTarget(started).Some? && ev.rendered {
        AddKeepsVaLost(started, VaTarget(started).value, VaPoc(e, ev.pic), i);
      }
      hide VaLost, VaStart, VaAdd, VaTarget, VaInv;
    }
  }

  /** So it is lost for the life of the decoder: over every run it stays marked and is never decoded into. */
  lemma {:induction false} VaRunKeepsLost(e: VaEngine, events: seq<VaEvent>, i: nat)
    requires VaInv(e) && VaIsRun(events) && VaLost(e, i)
    ensures VaLost(VaRun(e, events), i) && !VaFree(VaRun(e, events), i)
    decreases |events|
  {
    if events != [] {
      VaStepKeepsInv(e, events[0]);
      VaStepKeepsLost(e, events[0], i);
      hide VaStep, VaInv, VaLost, VaFree;
      VaRunKeepsLost(VaStep(e, events[0]), events[1..], i);
    }
  }

  // ----- Enough surfaces

  ghost predicate VaConforming(e: VaEngine, pic: Picture) {
    ConformingSet(VaRps(e, pic).kept, VaPoc(e, pic), e.sps)
  }

  ghost predicate VaPoolInv(e: VaEngine) {
    VaInv(e) && VaTight(e) && DistinctPocs(e.dpb)
  }

  lemma StartKeepsVaPool(e: VaEngine, pic: Picture)
    requires VaPoolInv(e)
    ensures VaPoolInv(VaStart(e, pic))
  {
    hide VaInv, VaTight;
    StartKeepsVaInv(e, pic);
    StartKeepsVaTight(e, pic);
    EvictDistinct(VaDpbAtStart(e, pic), VaRps(e, pic).kept);
  }

  /** A conforming picture leaves room, so the overflow loop has nothing to do. */
  lemma VaOverflowNeverFires(e: VaEngine, pic: Picture)
    requires VaPoolInv(e) && VaConforming(e, pic)
    ensures |VaKept(e, pic)| < e.sps.MaxDpb()
    ensures CountHigher(VaKept(e, pic), VaPoc(e, pic)) < e.sps.MaxDpb()
    ensures forall slot :: var all := VaKept(e, pic) + [RefPic(VaPoc(e, pic), slot, 0)];
      Trim(all, e.sps.MaxDpb()) == all && DistinctPocs(all)
  {
    hide VaInv, VaTight, CountHigher;
    ConformingRoom(VaDpbAtStart(e, pic), VaRps(e, pic).kept, VaPoc(e, pic), e.sps);
    hide VaDpbAtStart, VaRps, VaPoc;
    forall slot: nat
      ensures var all := VaKept(e, pic) + [RefPic(VaPoc(e, pic), slot, 0)];
        Trim(all, e.sps.MaxDpb()) == all && DistinctPocs(all)
    {
      AddedDistinct(VaKept(e, pic), RefPic(VaPoc(e, pic), slot, 0), e.sps.MaxDpb());
    }
  }

  lemma VaDecodeKeepsPool(e: VaEngine, pic: Picture, rendered: bool)
    requires VaPoolInv(e) && VaConforming(e, pic)
    ensures VaPoolInv(VaDecode(e, pic, true, rendered).0)
  {
    hide VaInv, VaTight, VaTarget, VaKept, VaPoc, Trim, DistinctPocs, Buffers, CountHigher;
    StartKeepsVaPool(e, pic);
    VaStepKeepsInv(e, Decode(pic, true, rendered));
    VaOverflowNeverFires(e, pic);
    if VaTarget(VaStart(e, pic)).Some? && rendered {
      VaDecodeTightness(e, pic);
    }
  }

  lemma VaStepKeepsPool(e: VaEngine, ev: VaEvent)
    requires VaPoolInv(e) && VaLegal(ev) && (ev.Decode? && ev.parsed ==> VaConforming(e, ev.pic))
    ensures VaPoolInv(VaStep(e, ev))
  {
    VaStepKeepsInv(e, ev);
    if ev.Decode? {
      if ev.parsed {
        VaDecodeKeepsPool(e, ev.pic, ev.rendered);
      }
      hide VaDecode, VaInv, VaTight;
    }
  }

  /** Every picture of the run conforms when its turn comes. */
  ghost predicate VaConformingRun(e: VaEngine, events: seq<VaEvent>)
    decreases |events|
  {
    events != [] ==>
      && (events[0].Decode? && events[0].parsed ==> VaConforming(e, events[0].pic))
      && VaConformingRun(VaStep(e, events[0]), events[1..])
  }

  lemma {:induction false} VaRunKeepsPool(e: VaEngine, events: seq<VaEvent>)
    requires VaPoolInv(e) && VaIsRun(events) && VaConformingRun(e, events)
    ensures VaPoolInv(VaRun(e, events)) && |VaRun(e, events).slots| == |e.slots|
    decreases |events|
  {
    if events != [] {
      VaStepKeepsPool(e, events[0]);
      VaStepKeepsCount(e, events[0]);
      hide VaStep, VaPoolInv, VaConforming;
      VaRunKeepsPool(VaStep(e, events[0]), events[1..]);
    }
  }

  lemma VaStepKeepsCount(e: VaEngine, ev: VaEvent)
    ensures |VaStep(e, ev).slots| == |e.slots|
  {
    hide VaPoc, VaKept, Trim, FreeSlot;
  }

  lemma VaConfiguredPool(poolSize: nat, sps: SpsParams)
    requires sps.Valid()
    ensures VaPoolInv(VaConfigured(poolSize, sps))
  {
  }

  /**
   * No starvation: after any conforming run from configuration, a conforming
   * picture fails only if libva fails, whenever the pool exceeds the bound on
   * references, the surfaces out for display and the parked one.
   */
  lemma VaNoStarvation(poolSize: nat, sps: SpsParams, events: seq<VaEvent>, pic: Picture, rendered: bool)
    requires sps.Valid() && VaIsRun(events) && VaConformingRun(VaConfigured(poolSize, sps), events)
    requires var e := VaRun(VaConfigured(poolSize, sps), events);
      && VaConforming(e, pic)
      && poolSize > e.sps.maxDecPicBufferingMinus1 + |CheckedOut(e.slots)| + 1
    ensures VaDecode(VaRun(VaConfigured(poolSize, sps), events), pic, true, rendered).1 <==> rendered
  {
    var start := VaConfigured(poolSize, sps);
    var e := VaRun(start, events);
    VaConfiguredPool(poolSize, sps);
    VaRunKeepsPool(start, events);
    VaTargetExists(e, pic);
  }

  lemma VaTargetExists(e: VaEngine, pic: Picture)
    requires VaPoolInv(e) && VaConforming(e, pic)
    requires |e.slots| > e.sps.maxDecPicBufferingMinus1 + |CheckedOut(e.slots)| + 1
    ensures VaTarget(VaStart(e, pic)).Some?
  {
    hide VaConforming, VaKept, VaInv, Buffers, CheckedOut;
    var started := VaStart(e, pic);
    StartKeepsVaPool(e, pic);
    VaOverflowNeverFires(e, pic);
    StartKeepsCheckedOut(e, pic);
    BuffersBound(started.dpb);
    FreeSlotExists(started.slots, started.haveReady, started.readySlot, Buffers(started.dpb));
  }

  lemma StartKeepsCheckedOut(e: VaEngine, pic: Picture)
    ensures var started := VaStart(e, pic);
      CheckedOut(started.slots) == CheckedOut(e.slots) && |started.slots| == |e.slots| && started.dpb == VaKept(e, pic)
  {
    hide VaKept;
  }
}
