/**
 * The consumer's side of the VAAPI H.264 engine, told by the calls alone, and
 * what a slice's decode leaves for it.
 */
module AvcConsumer {
  import opened Wrappers
  import opened Surfaces
  import opened VaapiH264Decoders
  import opened SlidingWindow

  /** A successful decode, of a reference or not, parks its surface. */
  function NextTold(e: AvcEngine, ev: AvcEvent, t: Told): Told
    requires e.sps.Valid()
  {
    match ev
    case Decode(slice, rendered) =>
      if AvcDecode(e, slice, rendered).1 then t.(parked := AvcTarget(AvcBegin(e, slice))) else t
    case Acquire(exports) => ToldAcquire(t, exports)
    case Release(slot) => t.(held := t.held - {slot})
    case Flush => t.(parked := None)
  }

  function RunTold(e: AvcEngine, events: seq<AvcEvent>, t: Told): Told
    requires e.sps.Valid()
    decreases |events|
  {
    if events == [] then t
    else
      StepKeepsSps(e, events[0]);
      RunTold(AvcStep(e, events[0]), events[1..], NextTold(e, events[0], t))
  }

  /** The engine's own fields say what the calls say. */
  ghost predicate FieldsTell(e: AvcEngine, t: Told) {
    Tells(e.slots, e.haveReady, e.readySlot, t)
  }

  lemma BeginKeepsFields(e: AvcEngine, slice: SliceInfo, t: Told)
    requires e.sps.Valid() && FieldsTell(e, t)
    ensures FieldsTell(AvcBegin(e, slice), t) && FieldsTell(AvcReady(e, slice), t)
  {
    hide SlotsOf, FrameNumOffset, AvcSps.MaxFrameNum, Numbered;
  }

  lemma MarkTells(e: AvcEngine, slot: nat, slice: SliceInfo, poc: int, t: Told)
    requires FieldsTell(e, t) && slot < |e.slots|
    ensures FieldsTell(AvcMark(e, slot, slice, poc), t.(parked := Some(slot)))
  {
    hide Slid, SlotsOf;
  }

  lemma StepFieldsTell(e: AvcEngine, ev: AvcEvent, t: Told)
    requires AvcInv(e) && FieldsTell(e, t)
    ensures FieldsTell(AvcStep(e, ev), NextTold(e, ev, t))
  {
    if ev.Decode? {
      hide FieldsTell, AvcBegin, AvcReady, AvcMark, AvcPoc;
      BeginKeepsFields(e, ev.slice, t);
      var target := AvcTarget(AvcBegin(e, ev.slice));
      if target.Some? && ev.rendered {
        FreeStaysFree(e, ev.slice, target.value);
        MarkTells(AvcReady(e, ev.slice), target.value, ev.slice, AvcPoc(e, ev.slice), t);
      }
    } else {
      OtherFieldsTell(e, ev, t);
    }
  }

  lemma OtherFieldsTell(e: AvcEngine, ev: AvcEvent, t: Told)
    requires !ev.Decode? && AvcInv(e) && FieldsTell(e, t)
    ensures FieldsTell(AvcStep(e, ev), NextTold(e, ev, t))
  {
    hide AvcDecode, SlotsOf;
  }

  lemma {:induction false} RunFieldsTell(e: AvcEngine, events: seq<AvcEvent>, t: Told)
    requires AvcInv(e) && FieldsTell(e, t)
    ensures AvcInv(AvcRun(e, events)) && FieldsTell(AvcRun(e, events), RunTold(e, events, t))
    ensures AvcRun(e, events).sps == e.sps
    decreases |events|
  {
    hide AvcStep, AvcInv, FieldsTell, NextTold, AvcSps.Valid;
    InvSps(e);
    if events != [] {
      StepKeepsSps(e, events[0]);
      StepFieldsTell(e, events[0], t);
      AvcStepKeepsInv(e, events[0]);
      RunFieldsTell(AvcStep(e, events[0]), events[1..], NextTold(e, events[0], t));
    }
  }

  lemma InvSps(e: AvcEngine)
    requires AvcInv(e)
    ensures e.sps.Valid()
  {
  }

  /** A surface that no one has: not handed out, not parked, not in the window. */
  ghost predicate Spare(dpb: seq<RefEntry>, t: Told, i: nat) {
    && i !in t.held && t.parked != Some(i)
    && forall j :: 0 <= j < |dpb| ==> dpb[j].slot != i
  }

  /**
   * Over every run from configuration: the surface that the next slice is
   * decoded into is neither one handed out and not released, nor the one that
   * waits for the consumer, nor one in the window. It is found, and the decode
   * succeeds when libva does, whenever there is such a surface.
   */
  lemma TargetLeavesConsumerAlone(poolSize: nat, sps: AvcSps, events: seq<AvcEvent>, slice: SliceInfo, rendered: bool)
    requires sps.Valid()
    ensures var start := AvcConfigured(poolSize, sps);
      var e, t := AvcRun(start, events), RunTold(start, events, NOTHING);
      && e.sps.Valid()
      && var begun, target := AvcBegin(e, slice), AvcTarget(AvcBegin(e, slice));
      && (target.Some? ==>
          && target.value !in t.held && t.parked != target
          && (forall j :: 0 <= j < |begun.dpb| ==> begun.dpb[j].slot != target.value))
      && (target.Some? <==> exists i :: 0 <= i < |begun.slots| && Spare(begun.dpb, t, i))
      && AvcDecode(e, slice, rendered).1 == (target.Some? && rendered)
  {
    var start := AvcConfigured(poolSize, sps);
    var e, t := AvcRun(start, events), RunTold(start, events, NOTHING);
    RunFieldsTell(start, events, NOTHING);
    InvSps(e);
    hide AvcRun, RunTold, AvcConfigured;
    BeginKeepsFields(e, slice, t);
    BeginKeepsInv(e, slice);
    FreeAsTold(AvcBegin(e, slice), t);
  }

  lemma FreeAsTold(e: AvcEngine, t: Told)
    requires AvcInv(e) && FieldsTell(e, t)
    ensures forall i :: 0 <= i < |e.slots| ==>
      (Free(e.slots, e.haveReady, e.readySlot, i) <==> Spare(e.dpb, t, i))
  {
    forall i | 0 <= i < |e.slots|
      ensures i in SlotsOf(e.dpb) <==> exists j :: 0 <= j < |e.dpb| && e.dpb[j].slot == i
    {
      if i in SlotsOf(e.dpb) {
        var r :| r in e.dpb && r.slot == i;
        var j :| 0 <= j < |e.dpb| && e.dpb[j] == r;
      }
      assert forall j :: 0 <= j < |e.dpb| ==> e.dpb[j] in e.dpb;
    }
  }

  /** Over every run, Acquire hands out what the calls say is parked, if its dma-buf exists or can be made. */
  lemma AcquireHandsParked(poolSize: nat, sps: AvcSps, events: seq<AvcEvent>, exports: bool)
    requires sps.Valid()
    ensures var start := AvcConfigured(poolSize, sps);
      var e, t := AvcRun(start, events), RunTold(start, events, NOTHING);
      (if e.haveReady && e.readySlot < |e.slots| && (e.slots[e.readySlot].exported || exports)
         then Some(e.readySlot) else None)
      == if t.parked.Some? && (exports || t.parked.value in t.exported) then t.parked else None
  {
    RunFieldsTell(AvcConfigured(poolSize, sps), events, NOTHING);
  }
}
