/**
 * What the DPB holds after a whole run: the references decoded in it that
 * every later reference set named and no cut to the bound removed.
 */
module DpbHistory {
  import opened DpbMachine
  import opened DpbBuffers
  import opened StatelessEngine
  import opened StatelessOwnership
  import StatelessPool

  // ----- What a cut to the bound keeps

  /** The cut takes r before x: x has the higher POC, or the same and joined later. */
  predicate Outlives(x: RefPic, r: RefPic) {
    x.poc > r.poc || (x.poc == r.poc && x.tag > r.tag)
  }

  function Outliving(dpb: seq<RefPic>, r: RefPic): set<RefPic> {
    set x | x in dpb && Outlives(x, r)
  }

  ghost predicate TagsGrow(dpb: seq<RefPic>) {
    forall j, k :: 0 <= j < k < |dpb| ==> dpb[j].tag < dpb[k].tag
  }

  lemma {:induction false} MembersCount(dpb: seq<RefPic>)
    requires TagsGrow(dpb)
    ensures |set x | x in dpb| == |dpb|
  {
    if dpb != [] {
      var init, last := dpb[..|dpb| - 1], dpb[|dpb| - 1];
      MembersCount(init);
      assert dpb == init + [last];
      assert (set x | x in dpb) == (set x | x in init) + {last};
    }
  }

  lemma OutlivingBound(dpb: seq<RefPic>, r: RefPic)
    requires TagsGrow(dpb) && r in dpb
    ensures |Outliving(dpb, r)| <= |dpb| - 1
    ensures r == dpb[Lowest(dpb)] ==> |Outliving(dpb, r)| == |dpb| - 1
  {
    MembersCount(dpb);
    var all := set x | x in dpb;
    var others := all - {r};
    var apart := others - Outliving(dpb, r);
    assert others == Outliving(dpb, r) + apart;
    if r == dpb[Lowest(dpb)] {
      forall x | x in others
        ensures Outlives(x, r)
      {
        var j :| 0 <= j < |dpb| && dpb[j] == x;
        assert j != Lowest(dpb);
      }
      assert apart == {};
    }
  }

  lemma WithoutMember(dpb: seq<RefPic>, k: nat, x: RefPic)
    requires k < |dpb| && TagsGrow(dpb)
    ensures x in Without(dpb, k) <==> x in dpb && x != dpb[k]
  {
    var left := Without(dpb, k);
    if x in dpb && x != dpb[k] {
      var j :| 0 <= j < |dpb| && dpb[j] == x;
      assert left[if j < k then j else j - 1] == x;
    }
  }

  lemma WithoutGrows(dpb: seq<RefPic>, k: nat)
    requires k < |dpb| && TagsGrow(dpb)
    ensures TagsGrow(Without(dpb, k))
  {
  }

  /** Removing the entry next to go changes nothing for the others. */
  lemma WithoutLowest(dpb: seq<RefPic>, r: RefPic)
    requires dpb != [] && TagsGrow(dpb) && r in dpb && r != dpb[Lowest(dpb)]
    ensures Outliving(Without(dpb, Lowest(dpb)), r) == Outliving(dpb, r)
  {
    var k := Lowest(dpb);
    var j :| 0 <= j < |dpb| && dpb[j] == r;
    assert !Outlives(dpb[k], r);
    hide Without, Lowest, TagsGrow, Outlives;
    forall x
      ensures x in Without(dpb, k) <==> x in dpb && x != dpb[k]
    {
      WithoutMember(dpb, k, x);
    }
  }

  /** An entry outlives the cut if and only if fewer than the bound of the others are taken after it. */
  lemma {:induction false} TrimKeepsIff(dpb: seq<RefPic>, max: nat, r: RefPic)
    requires TagsGrow(dpb)
    ensures r in Trim(dpb, max) <==> r in dpb && |Outliving(dpb, r)| < max
    decreases |dpb|
  {
    hide Outliving, TagsGrow, Without;
    if r in dpb {
      OutlivingBound(dpb, r);
    }
    if |dpb| > max {
      WithoutMember(dpb, Lowest(dpb), r);
      if r == dpb[Lowest(dpb)] {
        if r in Trim(dpb, max) {
          TrimSubset(Without(dpb, Lowest(dpb)), max, r);
        }
      } else {
        if r in dpb {
          WithoutLowest(dpb, r);
        }
        WithoutGrows(dpb, Lowest(dpb));
        TrimKeepsIff(Without(dpb, Lowest(dpb)), max, r);
      }
    }
  }

  // ----- One call

  predicate Succeeds(ev: Event) {
    ev.Decode? && ev.outcome.Dequeued? && !ev.outcome.error
  }

  /** The reference that a successful decode makes of its picture. */
  function Newest(e: Engine, ev: Event): RefPic
    requires Succeeds(ev)
  {
    RefPic(CurrentPoc(e, ev.pic), ev.outcome.index, e.nextTag)
  }

  /** Fewer references than the bound are left that the cut would take after r. */
  ghost predicate WithinBound(e: Engine, ev: Event, r: RefPic)
    requires Succeeds(ev)
  {
    |Outliving(DpbKept(e, ev.pic) + [Newest(e, ev)], r)| <= e.sps.maxDecPicBufferingMinus1
  }

  /** What keeps a reference over a call: no restart, a set that names it, and room. */
  ghost predicate Stays(e: Engine, ev: Event, r: RefPic) {
    && !ev.Flush?
    && (ev.Decode? ==>
        && !StartsSequence(ev.pic, NoRaslOutput(ev.pic, e.seenFirst, e.eosSeen))
        && Named(e.dpb, ev.pic, CurrentPoc(e, ev.pic), e.sps.MaxPocLsb(), r.poc))
    && (Succeeds(ev) ==> WithinBound(e, ev, r))
  }

  ghost predicate Joins(e: Engine, ev: Event, r: RefPic) {
    Succeeds(ev) && r == Newest(e, ev) && WithinBound(e, ev, r)
  }

  lemma KeptIff(e: Engine, pic: Picture, r: RefPic)
    ensures r in DpbKept(e, pic) <==>
      && r in e.dpb && !StartsSequence(pic, NoRaslOutput(pic, e.seenFirst, e.eosSeen))
      && Named(e.dpb, pic, CurrentPoc(e, pic), e.sps.MaxPocLsb(), r.poc)
  {
    hide Named, CurrentPoc, SpsParams.MaxPocLsb, KeptPocs;
    EvictionExact(DpbAtStart(e, pic), pic, CurrentPoc(e, pic), e.sps.MaxPocLsb(), r);
  }

  /** The kept references and the new one are in the order of their tags. */
  lemma NewestTag(e: Engine, ev: Event)
    requires Inv(e) && Succeeds(ev)
    ensures TagsGrow(DpbKept(e, ev.pic) + [Newest(e, ev)])
    ensures forall r :: r in e.dpb ==> r.tag < e.nextTag
  {
    hide CurrentPoc;
    var atStart := DpbAtStart(e, ev.pic);
    assert Ordered(atStart);
    EvictOrdered(atStart, RpsAtStart(e, ev.pic).kept);
    var kept := DpbKept(e, ev.pic);
    assert forall j :: 0 <= j < |kept| ==> kept[j] in e.dpb;
    assert forall r :: r in e.dpb ==> r.tag < e.nextTag;
  }

  lemma FailureDpb(e: Engine, ev: Event)
    requires Legal(e, ev) && ev.Decode? && !Succeeds(ev)
    ensures Step(e, ev).next.dpb == DpbKept(e, ev.pic)
  {
    hide DpbKept, CurrentPoc, AddPicture, BumpEngine, BumpFrames;
  }

  lemma OtherDpb(e: Engine, ev: Event)
    requires Legal(e, ev) && !ev.Decode?
    ensures Step(e, ev).next.dpb == if ev.Flush? then [] else e.dpb
  {
    hide DecodeEffect, Bumped, BumpOrder, BumpFrames;
  }

  lemma StepDpbExact(e: Engine, ev: Event, r: RefPic)
    requires Inv(e) && Legal(e, ev)
    ensures r in Step(e, ev).next.dpb <==> (r in e.dpb && Stays(e, ev, r)) || Joins(e, ev, r)
  {
    hide Inv, Step, DpbKept, CurrentPoc, Named, Outliving, TagsGrow, Trim, SpsParams.MaxPocLsb, LegalOutcome;
    if ev.Decode? {
      KeptIff(e, ev.pic, r);
      if Succeeds(ev) {
        var all := DpbKept(e, ev.pic) + [Newest(e, ev)];
        NewestTag(e, ev);
        DecodedIs(e, ev);
        TrimKeepsIff(all, e.sps.MaxDpb(), r);
      } else {
        FailureDpb(e, ev);
      }
    } else {
      OtherDpb(e, ev);
    }
  }

  lemma DecodedIs(e: Engine, ev: Event)
    requires Legal(e, ev) && Succeeds(ev)
    ensures Step(e, ev).next.dpb == Trim(DpbKept(e, ev.pic) + [Newest(e, ev)], e.sps.MaxDpb())
  {
    hide DpbKept, CurrentPoc, DecodeEffect, Trim;
    StatelessPool.DecodedDpb(e, ev.pic, ev.timestamp, ev.outcome.index, ev.accepts);
  }

  // ----- Runs

  ghost predicate StaysThrough(e: Engine, events: seq<Event>, r: RefPic)
    requires IsRun(e, events)
    decreases |events|
  {
    events != [] ==> Stays(e, events[0], r) && StaysThrough(Step(e, events[0]).next, events[1..], r)
  }

  /** Some call of the run adds the reference, and every later one keeps it. */
  ghost predicate JoinsAndStays(e: Engine, events: seq<Event>, r: RefPic)
    requires IsRun(e, events)
    decreases |events|
  {
    events != [] &&
      var next := Step(e, events[0]).next;
      || (Joins(e, events[0], r) && StaysThrough(next, events[1..], r))
      || JoinsAndStays(next, events[1..], r)
  }

  /**
   * The DPB over every run: an entry is in it at the end exactly when it was in
   * it before, or joined it by a decode of the run, and since then no sequence
   * started and no flush came, every reference set named it, and at every
   * successful decode there was room for it within the bound.
   */
  lemma {:induction false} RunDpbExact(e: Engine, events: seq<Event>, r: RefPic)
    requires Inv(e) && IsRun(e, events)
    ensures r in RunEngine(e, events).dpb
      <==> (r in e.dpb && StaysThrough(e, events, r)) || JoinsAndStays(e, events, r)
    decreases |events|
  {
    hide Inv, Step, Stays, Joins;
    if events != [] {
      StepDpbExact(e, events[0], r);
      StepKeepsInv(e, events[0]);
      RunDpbExact(Step(e, events[0]).next, events[1..], r);
    }
  }

  /** From configuration on only what joined can be there. */
  lemma DpbFromConfiguration(poolSize: nat, sps: SpsParams, reorderDepth: nat, accepts: set<nat>, events: seq<Event>,
                             r: RefPic)
    requires sps.Valid() && IsRun(Configured(poolSize, sps, reorderDepth, accepts), events)
    ensures var start := Configured(poolSize, sps, reorderDepth, accepts);
      r in RunEngine(start, events).dpb <==> JoinsAndStays(start, events, r)
  {
    ConfiguredInv(poolSize, sps, reorderDepth, accepts);
    RunDpbExact(Configured(poolSize, sps, reorderDepth, accepts), events, r);
  }
}
