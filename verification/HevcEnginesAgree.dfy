/**
 * Both HEVC engines refine one machine over POCs alone: it has no buffers, no
 * tags and no output, only what sections 8.3.1 and 8.3.2 of ITU-T H.265
 * determine. Fed the same pictures the engines therefore agree.
 */
module HevcEnginesAgree {
  import opened Wrappers
  import opened ShortTermRpsSets
  import opened DpbMachine
  import Stateless = StatelessEngine
  import StatelessOwnership
  import Vaapi = VaapiH265Decoders

  datatype Machine = Machine(pocs: seq<int>, anchor: Anchor, seenFirst: bool, eosSeen: bool, sps: SpsParams)

  /** What happens to the machine; `decoded` says whether the picture came out. */
  datatype Input = Coded(pic: Picture, decoded: bool) | EndOfSequence | NewSps(sps: SpsParams) | Restart

  /** What a picture's decoding is told and what it leaves behind, in POCs. */
  datatype Resolved = Resolved(
    poc: int,
    before: seq<Option<int>>,
    after: seq<Option<int>>,
    longTerm: seq<Option<int>>,
    kept: seq<int>,
    dpb: seq<int>,
    anchor: Anchor)

  function Refs(pocs: seq<int>): (dpb: seq<RefPic>)
    ensures |dpb| == |pocs| && forall i :: 0 <= i < |dpb| ==> dpb[i] == RefPic(pocs[i], 0, 0)
  {
    seq(|pocs|, i requires 0 <= i < |pocs| => RefPic(pocs[i], 0, 0))
  }

  function PocOfEntry(e: RpsEntry): Option<int> {
    if e.Some? then Some(e.value.poc) else None
  }

  function EntryPocs(entries: seq<RpsEntry>): (r: seq<Option<int>>)
    ensures |r| == |entries| && forall i :: 0 <= i < |r| ==> r[i] == PocOfEntry(entries[i])
  {
    seq(|entries|, i requires 0 <= i < |entries| => PocOfEntry(entries[i]))
  }

  /** The picture step over any DPB: what it resolves, and the DPB with the new picture in it. */
  function Resolve(m: Machine, dpb: seq<RefPic>, pic: Picture, newest: RefPic): Resolved {
    var noRasl := NoRaslOutput(pic, m.seenFirst, m.eosSeen);
    var poc := PocOf(m.anchor, pic, m.sps.MaxPocLsb(), noRasl);
    var atStart := if StartsSequence(pic, noRasl) then [] else dpb;
    var rps := DeriveRps(atStart, pic, poc, m.sps.MaxPocLsb());
    var kept := Evict(atStart, rps.kept);
    Resolved(poc, EntryPocs(rps.before), EntryPocs(rps.after), EntryPocs(rps.longTerm), Pocs(kept),
             Pocs(Trim(kept + [newest.(poc := poc)], m.sps.MaxDpb())),
             NextAnchor(m.anchor, pic, m.sps.MaxPocLsb(), noRasl))
  }

  function MachineResolves(m: Machine, pic: Picture): Resolved {
    Resolve(m, Refs(m.pocs), pic, RefPic(0, 0, 0))
  }

  function MachineStep(m: Machine, input: Input): Machine {
    match input
    case Coded(pic, decoded) =>
      var r := MachineResolves(m, pic);
      Machine(if decoded then r.dpb else r.kept, r.anchor, true, false, m.sps)
    case EndOfSequence => m.(eosSeen := true)
    case NewSps(sps) => m.(sps := sps)
    case Restart => Machine([], Anchor(0, 0), false, false, m.sps)
  }

  function MachineRun(m: Machine, inputs: seq<Input>): Machine
    decreases |inputs|
  {
    if inputs == [] then m else MachineRun(MachineStep(m, inputs[0]), inputs[1..])
  }

  function MachineTrace(m: Machine, inputs: seq<Input>): seq<Resolved>
    decreases |inputs|
  {
    if inputs == [] then []
    else
      (if inputs[0].Coded? then [MachineResolves(m, inputs[0].pic)] else [])
        + MachineTrace(MachineStep(m, inputs[0]), inputs[1..])
  }

  // ----- Only the POCs of the DPB matter

  predicate SamePocs(a: seq<RefPic>, b: seq<RefPic>) {
    |a| == |b| && forall i :: 0 <= i < |a| ==> a[i].poc == b[i].poc
  }

  lemma {:induction false} SameFindPoc(a: seq<RefPic>, b: seq<RefPic>, poc: int, i: nat)
    requires SamePocs(a, b) && i <= |a|
    ensures FindPocFrom(a, poc, i) == FindPocFrom(b, poc, i)
    decreases |a| - i
  {
    if i < |a| {
      SameFindPoc(a, b, poc, i + 1);
    }
  }

  lemma {:induction false} SameFindLsb(a: seq<RefPic>, b: seq<RefPic>, lsb: nat, maxLsb: nat, i: nat)
    requires SamePocs(a, b) && i <= |a| && maxLsb > 0
    ensures FindLsbFrom(a, lsb, maxLsb, i) == FindLsbFrom(b, lsb, maxLsb, i)
    decreases |a| - i
  {
    if i < |a| {
      SameFindLsb(a, b, lsb, maxLsb, i + 1);
    }
  }

  lemma SameLtEntry(a: seq<RefPic>, b: seq<RefPic>, lt: LongTermRef, poc: int, maxLsb: nat)
    requires SamePocs(a, b) && maxLsb > 0
    ensures PocOfEntry(LtEntry(a, lt, poc, maxLsb)) == PocOfEntry(LtEntry(b, lt, poc, maxLsb))
  {
    SameFindPoc(a, b, LongTermPoc(lt, poc, maxLsb), 0);
    SameFindLsb(a, b, lt.pocLsb, maxLsb, 0);
  }

  lemma EntryPocsConcat(a: seq<RpsEntry>, b: seq<RpsEntry>)
    ensures EntryPocs(a + b) == EntryPocs(a) + EntryPocs(b)
  {
  }

  lemma {:induction false} SameStCurr(a: seq<RefPic>, b: seq<RefPic>, side: seq<DeltaPoc>, poc: int)
    requires SamePocs(a, b)
    ensures EntryPocs(StCurr(a, side, poc)) == EntryPocs(StCurr(b, side, poc))
  {
    if side != [] {
      var init, last := side[..|side| - 1], side[|side| - 1];
      SameStCurr(a, b, init, poc);
      SameFindPoc(a, b, poc + last.delta, 0);
      var here := (dpb: seq<RefPic>) => if last.used then [Lookup(dpb, FindPoc(dpb, poc + last.delta))] else [];
      EntryPocsConcat(StCurr(a, init, poc), here(a));
      EntryPocsConcat(StCurr(b, init, poc), here(b));
      assert EntryPocs(here(a)) == EntryPocs(here(b));
    }
  }

  lemma {:induction false} SameLtCurr(a: seq<RefPic>, b: seq<RefPic>, lts: seq<LongTermRef>, poc: int, maxLsb: nat)
    requires SamePocs(a, b) && maxLsb > 0
    ensures EntryPocs(LtCurr(a, lts, poc, maxLsb)) == EntryPocs(LtCurr(b, lts, poc, maxLsb))
    ensures Pocs(LtFound(a, lts, poc, maxLsb)) == Pocs(LtFound(b, lts, poc, maxLsb))
  {
    hide LtEntry;
    if lts != [] {
      var init, last := lts[..|lts| - 1], lts[|lts| - 1];
      SameLtCurr(a, b, init, poc, maxLsb);
      SameLtEntry(a, b, last, poc, maxLsb);
      LtSnoc(a, init, last, poc, maxLsb);
      LtSnoc(b, init, last, poc, maxLsb);
      assert lts == init + [last];
    }
  }

  /** The last long-term reference adds its entry to the current ones and its POC to the found ones. */
  lemma LtSnoc(dpb: seq<RefPic>, init: seq<LongTermRef>, last: LongTermRef, poc: int, maxLsb: nat)
    requires maxLsb > 0
    ensures var e := PocOfEntry(LtEntry(dpb, last, poc, maxLsb));
      && EntryPocs(LtCurr(dpb, init + [last], poc, maxLsb))
        == EntryPocs(LtCurr(dpb, init, poc, maxLsb)) + (if last.usedByCurr then [e] else [])
      && Pocs(LtFound(dpb, init + [last], poc, maxLsb))
        == Pocs(LtFound(dpb, init, poc, maxLsb)) + (if e.Some? then [e.value] else [])
  {
    hide LtEntry;
    assert (init + [last])[..|init|] == init;
  }

  lemma {:induction false} SameEvict(a: seq<RefPic>, b: seq<RefPic>, kept: seq<int>)
    requires SamePocs(a, b)
    ensures SamePocs(Evict(a, kept), Evict(b, kept))
  {
    if a != [] {
      SameEvict(a[..|a| - 1], b[..|b| - 1], kept);
    }
  }

  lemma SameLowest(a: seq<RefPic>, b: seq<RefPic>)
    requires SamePocs(a, b) && a != []
    ensures Lowest(a) == Lowest(b)
  {
    var i, j := Lowest(a), Lowest(b);
    assert a[i].poc <= a[j].poc && b[j].poc <= b[i].poc;
  }

  lemma {:induction false} SameTrim(a: seq<RefPic>, b: seq<RefPic>, max: nat)
    requires SamePocs(a, b)
    ensures SamePocs(Trim(a, max), Trim(b, max))
    decreases |a|
  {
    if |a| > max {
      SameLowest(a, b);
      SameTrim(Without(a, Lowest(a)), Without(b, Lowest(b)), max);
    }
  }

  lemma SameRps(a: seq<RefPic>, b: seq<RefPic>, pic: Picture, poc: int, maxLsb: nat)
    requires SamePocs(a, b) && maxLsb > 0
    ensures var x, y := DeriveRps(a, pic, poc, maxLsb), DeriveRps(b, pic, poc, maxLsb);
      && EntryPocs(x.before) == EntryPocs(y.before) && EntryPocs(x.after) == EntryPocs(y.after)
      && EntryPocs(x.longTerm) == EntryPocs(y.longTerm) && x.kept == y.kept
  {
    SameStCurr(a, b, pic.rps.s0, poc);
    SameStCurr(a, b, pic.rps.s1, poc);
    SameLtCurr(a, b, pic.longTerm, poc, maxLsb);
  }

  /** The picture step sees nothing of the DPB but its POCs. */
  lemma SameResolve(m: Machine, a: seq<RefPic>, b: seq<RefPic>, pic: Picture, x: RefPic, y: RefPic)
    requires SamePocs(a, b)
    ensures Resolve(m, a, pic, x) == Resolve(m, b, pic, y)
  {
    hide DeriveRps, PocOf, Evict, NextAnchor, Trim;
    var noRasl := NoRaslOutput(pic, m.seenFirst, m.eosSeen);
    var poc := PocOf(m.anchor, pic, m.sps.MaxPocLsb(), noRasl);
    var starts := StartsSequence(pic, noRasl);
    var sa, sb := if starts then [] else a, if starts then [] else b;
    SameRps(sa, sb, pic, poc, m.sps.MaxPocLsb());
    var kept := DeriveRps(sa, pic, poc, m.sps.MaxPocLsb()).kept;
    SameEvict(sa, sb, kept);
    SameTrim(Evict(sa, kept) + [x.(poc := poc)], Evict(sb, kept) + [y.(poc := poc)], m.sps.MaxDpb());
  }

  // ----- The V4L2 engine

  function OfStateless(e: Stateless.Engine): Machine {
    Machine(Pocs(e.dpb), e.anchor, e.seenFirst, e.eosSeen, e.sps)
  }

  function StatelessInput(ev: Stateless.Event): Option<Input> {
    match ev
    case Decode(pic, _, outcome, _) => Some(Coded(pic, outcome.Dequeued? && !outcome.error))
    case Flush(_) => Some(Restart)
    case EndOfSequence => Some(EndOfSequence)
    case NewSps(sps) => Some(NewSps(sps))
    case Acquire(_, _) => None
    case Release(_, _) => None
    case Drain => None
  }

  function StatelessResolved(e: Stateless.Engine, pic: Picture): Resolved {
    Resolve(OfStateless(e), e.dpb, pic, RefPic(0, 0, e.nextTag))
  }

  lemma RefsSamePocs(dpb: seq<RefPic>)
    ensures SamePocs(Refs(Pocs(dpb)), dpb)
  {
  }

  /** What the engine itself computes is what the function Resolve names. */
  lemma StatelessComputes(e: Stateless.Engine, pic: Picture)
    ensures var r, rps := StatelessResolved(e, pic), Stateless.RpsAtStart(e, pic);
      && r.poc == Stateless.CurrentPoc(e, pic)
      && r.before == EntryPocs(rps.before) && r.after == EntryPocs(rps.after)
      && r.longTerm == EntryPocs(rps.longTerm)
      && r.kept == Pocs(Stateless.StartPicture(e, pic).dpb)
      && r.anchor == Stateless.StartPicture(e, pic).anchor
  {
    hide DeriveRps, Evict, Trim, PocOf, NextAnchor;
  }

  lemma StatelessPictureRefines(e: Stateless.Engine, ev: Stateless.Event)
    requires ev.Decode? && Stateless.Legal(e, ev)
    ensures OfStateless(Stateless.Step(e, ev).next) == MachineStep(OfStateless(e), StatelessInput(ev).value)
    ensures StatelessResolved(e, ev.pic) == MachineResolves(OfStateless(e), ev.pic)
  {
    hide DeriveRps, Evict, Trim, PocOf, NextAnchor, Stateless.Step, Stateless.FinishPicture, Stateless.AddPicture;
    var m := OfStateless(e);
    RefsSamePocs(e.dpb);
    SameResolve(m, Refs(m.pocs), e.dpb, ev.pic, RefPic(0, 0, 0), RefPic(0, 0, e.nextTag));
    StatelessComputes(e, ev.pic);
    var poc := Stateless.CurrentPoc(e, ev.pic);
    var kept := Stateless.DpbKept(e, ev.pic);
    if ev.outcome.Dequeued? && !ev.outcome.error {
      var cap := ev.outcome.index;
      var all, same := kept + [RefPic(poc, cap, e.nextTag)], kept + [RefPic(poc, 0, e.nextTag)];
      SameTrim(all, same, e.sps.MaxDpb());
      AddedDpb(e, ev);
    }
    StatelessParts(e, ev);
  }

  lemma StatelessParts(e: Stateless.Engine, ev: Stateless.Event)
    requires ev.Decode? && Stateless.Legal(e, ev)
    ensures var next, started := Stateless.Step(e, ev).next, Stateless.StartPicture(e, ev.pic);
      && next.anchor == started.anchor && next.seenFirst && !next.eosSeen && next.sps == e.sps
      && (!(ev.outcome.Dequeued? && !ev.outcome.error) ==> next.dpb == started.dpb)
  {
    hide DeriveRps, Evict, Trim, PocOf, NextAnchor, Stateless.Bumped, Stateless.BumpOrder, Stateless.BumpFrames;
  }

  lemma AddedDpb(e: Stateless.Engine, ev: Stateless.Event)
    requires ev.Decode? && Stateless.Legal(e, ev) && ev.outcome.Dequeued? && !ev.outcome.error
    ensures Stateless.Step(e, ev).next.dpb
      == Trim(Stateless.DpbKept(e, ev.pic) + [RefPic(Stateless.CurrentPoc(e, ev.pic), ev.outcome.index, e.nextTag)],
              e.sps.MaxDpb())
  {
    hide DeriveRps, Evict, Trim, PocOf, NextAnchor, Stateless.Bumped, Stateless.BumpOrder, Stateless.BumpFrames;
  }

  /** Every call of the V4L2 engine is one step of the machine, or none. */
  lemma StatelessRefines(e: Stateless.Engine, ev: Stateless.Event)
    requires Stateless.Legal(e, ev)
    ensures var input, next := StatelessInput(ev), OfStateless(Stateless.Step(e, ev).next);
      next == if input.Some? then MachineStep(OfStateless(e), input.value) else OfStateless(e)
  {
    if ev.Decode? {
      StatelessPictureRefines(e, ev);
    } else {
      hide Stateless.Bumped, Stateless.BumpOrder, Stateless.BumpFrames;
    }
  }

  function StatelessInputs(events: seq<Stateless.Event>): seq<Input> {
    if events == [] then []
    else
      var input := StatelessInput(events[0]);
      (if input.Some? then [input.value] else []) + StatelessInputs(events[1..])
  }

  ghost function StatelessTrace(e: Stateless.Engine, events: seq<Stateless.Event>): seq<Resolved>
    requires StatelessOwnership.IsRun(e, events)
    decreases |events|
  {
    if events == [] then []
    else
      (if events[0].Decode? then [StatelessResolved(e, events[0].pic)] else [])
        + StatelessTrace(Stateless.Step(e, events[0]).next, events[1..])
  }

  lemma {:induction false} StatelessRunRefines(e: Stateless.Engine, events: seq<Stateless.Event>)
    requires StatelessOwnership.IsRun(e, events)
    ensures OfStateless(StatelessOwnership.RunEngine(e, events)) == MachineRun(OfStateless(e), StatelessInputs(events))
    ensures StatelessTrace(e, events) == MachineTrace(OfStateless(e), StatelessInputs(events))
    decreases |events|
  {
    hide Stateless.Step, MachineStep, MachineResolves, StatelessResolved, OfStateless;
    if events != [] {
      var next := Stateless.Step(e, events[0]).next;
      StatelessRefines(e, events[0]);
      StatelessRunRefines(next, events[1..]);
      var input, rest := StatelessInput(events[0]), StatelessInputs(events[1..]);
      if events[0].Decode? {
        StatelessPictureRefines(e, events[0]);
      }
      if input.Some? {
        RunHead(OfStateless(e), input.value, rest);
      } else {
        assert [] + rest == rest;
        assert [] + StatelessTrace(next, events[1..]) == StatelessTrace(next, events[1..]);
      }
    }
  }

  lemma RunHead(m: Machine, input: Input, rest: seq<Input>)
    ensures MachineRun(m, [input] + rest) == MachineRun(MachineStep(m, input), rest)
    ensures MachineTrace(m, [input] + rest)
      == (if input.Coded? then [MachineResolves(m, input.pic)] else []) + MachineTrace(MachineStep(m, input), rest)
  {
    hide MachineStep, MachineResolves;
    assert ([input] + rest)[1..] == rest;
  }

  // ----- The VAAPI engine

  function OfVaapi(e: Vaapi.VaEngine): Machine {
    Machine(Pocs(e.dpb), e.anchor, e.seenFirst, e.eosSeen, e.sps)
  }

  function VaapiInput(e: Vaapi.VaEngine, ev: Vaapi.VaEvent): Option<Input> {
    match ev
    case Decode(pic, parsed, rendered) =>
      if parsed then Some(Coded(pic, rendered && Vaapi.VaTarget(Vaapi.VaStart(e, pic)).Some?)) else None
    case Flush => Some(Restart)
    case EndOfSequence => Some(EndOfSequence)
    case NewSps(sps) => Some(NewSps(sps))
    case Acquire(_) => None
    case Release(_) => None
    case Drain => None
  }

  function VaapiResolved(e: Vaapi.VaEngine, pic: Picture): Resolved {
    Resolve(OfVaapi(e), e.dpb, pic, RefPic(0, 0, 0))
  }

  lemma VaapiComputes(e: Vaapi.VaEngine, pic: Picture)
    ensures var r, rps := VaapiResolved(e, pic), Vaapi.VaRps(e, pic);
      && r.poc == Vaapi.VaPoc(e, pic)
      && r.before == EntryPocs(rps.before) && r.after == EntryPocs(rps.after)
      && r.longTerm == EntryPocs(rps.longTerm)
      && r.kept == Pocs(Vaapi.VaStart(e, pic).dpb)
      && r.anchor == Vaapi.VaStart(e, pic).anchor
  {
    hide DeriveRps, Evict, Trim, PocOf, NextAnchor;
  }

  lemma VaapiPictureRefines(e: Vaapi.VaEngine, pic: Picture, rendered: bool)
    ensures OfVaapi(Vaapi.VaDecode(e, pic, true, rendered).0)
      == MachineStep(OfVaapi(e), Coded(pic, rendered && Vaapi.VaTarget(Vaapi.VaStart(e, pic)).Some?))
    ensures VaapiResolved(e, pic) == MachineResolves(OfVaapi(e), pic)
  {
    hide DeriveRps, Evict, Trim, PocOf, NextAnchor, Vaapi.VaTarget;
    var m := OfVaapi(e);
    RefsSamePocs(e.dpb);
    SameResolve(m, Refs(m.pocs), e.dpb, pic, RefPic(0, 0, 0), RefPic(0, 0, 0));
    VaapiComputes(e, pic);
    var poc, kept := Vaapi.VaPoc(e, pic), Vaapi.VaKept(e, pic);
    var slot := Vaapi.VaTarget(Vaapi.VaStart(e, pic));
    if slot.Some? && rendered {
      SameTrim(kept + [RefPic(poc, slot.value, 0)], kept + [RefPic(poc, 0, 0)], e.sps.MaxDpb());
    }
  }

  /** Every call of the VAAPI engine is one step of the same machine, or none. */
  lemma VaapiRefines(e: Vaapi.VaEngine, ev: Vaapi.VaEvent)
    ensures var input, next := VaapiInput(e, ev), OfVaapi(Vaapi.VaStep(e, ev));
      next == if input.Some? then MachineStep(OfVaapi(e), input.value) else OfVaapi(e)
  {
    if ev.Decode? && ev.parsed {
      VaapiPictureRefines(e, ev.pic, ev.rendered);
    }
  }

  function VaapiInputs(e: Vaapi.VaEngine, events: seq<Vaapi.VaEvent>): seq<Input>
    decreases |events|
  {
    if events == [] then []
    else
      var input := VaapiInput(e, events[0]);
      (if input.Some? then [input.value] else []) + VaapiInputs(Vaapi.VaStep(e, events[0]), events[1..])
  }

  function VaapiTrace(e: Vaapi.VaEngine, events: seq<Vaapi.VaEvent>): seq<Resolved>
    decreases |events|
  {
    if events == [] then []
    else
      (if events[0].Decode? && events[0].parsed then [VaapiResolved(e, events[0].pic)] else [])
        + VaapiTrace(Vaapi.VaStep(e, events[0]), events[1..])
  }

  lemma {:induction false} VaapiRunRefines(e: Vaapi.VaEngine, events: seq<Vaapi.VaEvent>)
    ensures OfVaapi(Vaapi.VaRun(e, events)) == MachineRun(OfVaapi(e), VaapiInputs(e, events))
    ensures VaapiTrace(e, events) == MachineTrace(OfVaapi(e), VaapiInputs(e, events))
    decreases |events|
  {
    hide Vaapi.VaStep, MachineStep, MachineResolves, VaapiResolved, OfVaapi, Vaapi.VaTarget;
    if events != [] {
      var ev, next := events[0], Vaapi.VaStep(e, events[0]);
      VaapiRefines(e, ev);
      VaapiRunRefines(next, events[1..]);
      var input, rest := VaapiInput(e, ev), VaapiInputs(next, events[1..]);
      if ev.Decode? && ev.parsed {
        VaapiPictureRefines(e, ev.pic, ev.rendered);
      }
      if input.Some? {
        RunHead(OfVaapi(e), input.value, rest);
      } else {
        assert [] + rest == rest;
        assert [] + VaapiTrace(next, events[1..]) == VaapiTrace(next, events[1..]);
      }
    }
  }

  /**
   * The engines agree: over any two runs that feed them the same pictures with
   * the same successes, whatever else their consumers and drivers do, every
   * picture gets the same POC, anchor, found references per list and DPB, and
   * the runs end in the same abstract state.
   */
  lemma EnginesAgree(poolSize: nat, vaPoolSize: nat, sps: SpsParams, reorderDepth: nat, accepts: set<nat>,
                     events: seq<Stateless.Event>, vaEvents: seq<Vaapi.VaEvent>)
    requires StatelessOwnership.IsRun(Stateless.Configured(poolSize, sps, reorderDepth, accepts), events)
    requires StatelessInputs(events) == VaapiInputs(Vaapi.VaConfigured(vaPoolSize, sps), vaEvents)
    ensures var e, v := Stateless.Configured(poolSize, sps, reorderDepth, accepts), Vaapi.VaConfigured(vaPoolSize, sps);
      && StatelessTrace(e, events) == VaapiTrace(v, vaEvents)
      && OfStateless(StatelessOwnership.RunEngine(e, events)) == OfVaapi(Vaapi.VaRun(v, vaEvents))
  {
    var e, v := Stateless.Configured(poolSize, sps, reorderDepth, accepts), Vaapi.VaConfigured(vaPoolSize, sps);
    StatelessRunRefines(e, events);
    VaapiRunRefines(v, vaEvents);
    assert OfStateless(e) == OfVaapi(v);
  }
}
