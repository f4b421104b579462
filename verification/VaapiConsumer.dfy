/**
 * The consumer's side of the VAAPI HEVC engine, told by the calls alone: which
 * surface waits for it, and which it holds from the Acquire that handed it out
 * to its Release. No picture is decoded into either.
 */
module VaapiConsumer {
  import opened Wrappers
  import opened DpbMachine
  import opened DpbBuffers
  import opened Surfaces
  import opened VaapiH265Decoders

  /** A successful decode parks its surface. */
  function NextTold(e: VaEngine, ev: VaEvent, t: Told): Told {
    match ev
    case Decode(pic, parsed, rendered) =>
      if VaDecode(e, pic, parsed, rendered).1 then t.(parked := VaTarget(VaStart(e, pic))) else t
    case Acquire(exports) => ToldAcquire(t, exports)
    case Release(slot) => t.(held := t.held - {slot})
    case Flush => t.(parked := None)
    case Drain => t
    case EndOfSequence => t
    case NewSps(_) => t
  }

  function RunTold(e: VaEngine, events: seq<VaEvent>, t: Told): Told
    decreases |events|
  {
    if events == [] then t else RunTold(VaStep(e, events[0]), events[1..], NextTold(e, events[0], t))
  }

  /** The engine's own fields say what the calls say. */
  ghost predicate FieldsTell(e: VaEngine, t: Told) {
    Tells(e.slots, e.haveReady, e.readySlot, t)
  }

  lemma StartKeepsFields(e: VaEngine, pic: Picture, t: Told)
    requires FieldsTell(e, t)
    ensures FieldsTell(VaStart(e, pic), t)
  {
    hide VaKept, VaPoc, NextAnchor, Buffers;
  }

  lemma AddTells(e: VaEngine, slot: nat, poc: int, t: Told)
    requires FieldsTell(e, t) && slot < |e.slots|
    ensures FieldsTell(VaAdd(e, slot, poc), t.(parked := Some(slot)))
  {
    hide Trim, Buffers;
  }

  lemma StepFieldsTell(e: VaEngine, ev: VaEvent, t: Told)
    requires VaInv(e) && FieldsTell(e, t)
    ensures FieldsTell(VaStep(e, ev), NextTold(e, ev, t))
  {
    if ev.Decode? {
      hide FieldsTell, VaStart, VaAdd, VaInv;
      if ev.parsed {
        var started := VaStart(e, ev.pic);
        StartKeepsFields(e, ev.pic, t);
        if VaTarget(started).Some? && ev.rendered {
          AddTells(started, VaTarget(started).value, VaPoc(e, ev.pic), t);
        }
      }
    } else {
      OtherFieldsTell(e, ev, t);
    }
  }

  lemma OtherFieldsTell(e: VaEngine, ev: VaEvent, t: Told)
    requires !ev.Decode? && VaInv(e) && FieldsTell(e, t)
    ensures FieldsTell(VaStep(e, ev), NextTold(e, ev, t))
  {
    hide VaDecode, Buffers;
  }

  lemma {:induction false} RunFieldsTell(e: VaEngine, events: seq<VaEvent>, t: Told)
    requires VaInv(e) && VaIsRun(events) && FieldsTell(e, t)
    ensures VaInv(VaRun(e, events)) && FieldsTell(VaRun(e, events), RunTold(e, events, t))
    decreases |events|
  {
    if events != [] {
      StepFieldsTell(e, events[0], t);
      VaStepKeepsInv(e, events[0]);
      hide VaStep, VaInv, FieldsTell, NextTold;
      RunFieldsTell(VaStep(e, events[0]), events[1..], NextTold(e, events[0], t));
    }
  }

  /** A surface without a mark that is neither handed out nor parked. */
  predicate Spare(slots: seq<Slot>, t: Told, i: nat)
    requires i < |slots|
  {
    !slots[i].isReference && i !in t.held && t.parked != Some(i)
  }

  /**
   * Over every run from configuration: the surface that the next picture is
   * decoded into is not one handed out and not released, not the one that
   * waits for the consumer, and no reference's. It is found, and the decode
   * succeeds when libva does, whenever there is such a surface without a mark.
   */
  lemma TargetLeavesConsumerAlone(poolSize: nat, sps: SpsParams, events: seq<VaEvent>, pic: Picture, rendered: bool)
    requires sps.Valid() && VaIsRun(events)
    ensures var start := VaConfigured(poolSize, sps);
      var e, t := VaRun(start, events), RunTold(start, events, NOTHING);
      var started, target := VaStart(e, pic), VaTarget(VaStart(e, pic));
      && (target.Some? ==>
          && target.value !in t.held && t.parked != target
          && (forall j :: 0 <= j < |started.dpb| ==> started.dpb[j].buffer != target.value))
      && (target.Some? <==> exists i :: 0 <= i < |started.slots| && Spare(started.slots, t, i))
      && VaDecode(e, pic, true, rendered).1 == (target.Some? && rendered)
  {
    var start := VaConfigured(poolSize, sps);
    var e, t := VaRun(start, events), RunTold(start, events, NOTHING);
    RunFieldsTell(start, events, NOTHING);
    hide VaRun, RunTold, VaConfigured;
    StartKeepsFields(e, pic, t);
    StartKeepsVaInv(e, pic);
    hide VaStart;
    FreeAsTold(VaStart(e, pic), t);
    TargetIsFree(e, pic);
    assert forall j :: 0 <= j < |VaStart(e, pic).dpb| ==> VaStart(e, pic).dpb[j] in VaStart(e, pic).dpb;
  }

  lemma FreeAsTold(e: VaEngine, t: Told)
    requires FieldsTell(e, t)
    ensures forall i :: 0 <= i < |e.slots| ==>
      (Free(e.slots, e.haveReady, e.readySlot, i) <==> Spare(e.slots, t, i))
  {
  }

  /** Over every run, Acquire hands out what the calls say is parked, if its dma-buf exists or can be made. */
  lemma AcquireHandsParked(poolSize: nat, sps: SpsParams, events: seq<VaEvent>, exports: bool)
    requires sps.Valid() && VaIsRun(events)
    ensures var start := VaConfigured(poolSize, sps);
      var e, t := VaRun(start, events), RunTold(start, events, NOTHING);
      (if e.haveReady && e.readySlot < |e.slots| && (e.slots[e.readySlot].exported || exports)
         then Some(e.readySlot) else None)
      == if t.parked.Some? && (exports || t.parked.value in t.exported) then t.parked else None
  {
    RunFieldsTell(VaConfigured(poolSize, sps), events, NOTHING);
  }

  /** The marks of a decode, and what a flush leaves, field by field. */
  lemma FlushLeaves(e: VaEngine, i: nat)
    requires i < |e.slots|
    ensures var next := VaFlush(e);
      && next.dpb == [] && !next.haveReady && next.anchor == Anchor(0, 0) && !next.seenFirst && !next.eosSeen
      && |next.slots| == |e.slots| && next.sps == e.sps
      && next.slots[i].checkedOut == e.slots[i].checkedOut && next.slots[i].exported == e.slots[i].exported
      && (next.slots[i].isReference
          <==> e.slots[i].isReference && forall j :: 0 <= j < |e.dpb| ==> e.dpb[j].buffer != i)
  {
    if i in Buffers(e.dpb) {
      var r :| r in e.dpb && r.buffer == i;
    }
    assert forall j :: 0 <= j < |e.dpb| ==> e.dpb[j] in e.dpb;
  }
}
