/**
 * The reference picture set of section 8.3.2 of ITU-T H.265, place by place:
 * where the entry of each delta and of each long-term reference stands in the
 * three current subsets, and which DPB entry it is. Nothing here is said
 * through the functions that derive the set.
 */
module ReferenceSets {
  import opened Wrappers
  import opened ShortTermRpsSets
  import opened DpbMachine
  import opened StatelessEngine
  import opened SliceHeaders
  import Bits
  import Vaapi = VaapiH265Decoders

  /** How many of the first n deltas the current picture uses. */
  function UsedAmong(side: seq<DeltaPoc>, n: nat): nat
    requires n <= |side|
  {
    if n == 0 then 0 else UsedAmong(side, n - 1) + (if side[n - 1].used then 1 else 0)
  }

  function UsedLongTermAmong(lts: seq<LongTermRef>, n: nat): nat
    requires n <= |lts|
  {
    if n == 0 then 0 else UsedLongTermAmong(lts, n - 1) + (if lts[n - 1].usedByCurr then 1 else 0)
  }

  /** The entry is the first of the DPB with this POC; none if there is none. */
  ghost predicate IsPoc(entry: Option<RefPic>, dpb: seq<RefPic>, poc: int) {
    match entry
    case None => forall j :: 0 <= j < |dpb| ==> dpb[j].poc != poc
    case Some(r) =>
      r.poc == poc && exists k :: 0 <= k < |dpb| && dpb[k] == r && forall j :: 0 <= j < k ==> dpb[j].poc != poc
  }

  /** The entry is the first of the DPB whose POC has these LSBs; none if there is none. */
  ghost predicate IsLsb(entry: Option<RefPic>, dpb: seq<RefPic>, lsb: nat, maxLsb: nat)
    requires maxLsb > 0
  {
    match entry
    case None => forall j :: 0 <= j < |dpb| ==> dpb[j].poc % maxLsb != lsb
    case Some(r) =>
      && r.poc % maxLsb == lsb
      && exists k :: 0 <= k < |dpb| && dpb[k] == r && forall j :: 0 <= j < k ==> dpb[j].poc % maxLsb != lsb
  }

  /** A long-term reference is looked up by its full POC when the MSB cycle is coded, by its LSBs otherwise. */
  ghost predicate IsLongTerm(entry: Option<RefPic>, dpb: seq<RefPic>, lt: LongTermRef, poc: int, maxLsb: nat)
    requires maxLsb > 0
  {
    if lt.msbPresent then IsPoc(entry, dpb, poc - poc % maxLsb - lt.msbCycle * maxLsb + lt.pocLsb)
    else IsLsb(entry, dpb, lt.pocLsb, maxLsb)
  }

  // ----- One side

  lemma LookupIsPoc(dpb: seq<RefPic>, poc: int)
    ensures IsPoc(Lookup(dpb, FindPoc(dpb, poc)), dpb, poc)
  {
    var k := FindPocFrom(dpb, poc, 0);
    assert FindPoc(dpb, poc) == k;
  }

  lemma LookupIsLongTerm(dpb: seq<RefPic>, lt: LongTermRef, poc: int, maxLsb: nat)
    requires maxLsb > 0
    ensures IsLongTerm(LtEntry(dpb, lt, poc, maxLsb), dpb, lt, poc, maxLsb)
  {
    if lt.msbPresent {
      assert LongTermPoc(lt, poc, maxLsb) == poc - poc % maxLsb - lt.msbCycle * maxLsb + lt.pocLsb;
      LookupIsPoc(dpb, LongTermPoc(lt, poc, maxLsb));
    } else {
      var k := FindLsbFrom(dpb, lt.pocLsb, maxLsb, 0);
      assert FindLongTerm(dpb, lt, poc, maxLsb) == k;
    }
  }

  lemma {:induction false} SidePlace(dpb: seq<RefPic>, side: seq<DeltaPoc>, poc: int, i: nat)
    requires i < |side| && side[i].used
    ensures |StCurr(dpb, side, poc)| == UsedAmong(side, |side|) > UsedAmong(side, i)
    ensures IsPoc(StCurr(dpb, side, poc)[UsedAmong(side, i)], dpb, poc + side[i].delta)
  {
    hide IsPoc, FindPoc, Lookup;
    var init := side[..|side| - 1];
    SideCount(dpb, init, poc);
    PrefixCount(side, init, |init|);
    if i < |init| {
      SidePlace(dpb, init, poc, i);
      PrefixCount(side, init, i);
    } else {
      LookupIsPoc(dpb, poc + side[i].delta);
    }
  }

  lemma {:induction false} SideCount(dpb: seq<RefPic>, side: seq<DeltaPoc>, poc: int)
    ensures |StCurr(dpb, side, poc)| == UsedAmong(side, |side|)
  {
    if side != [] {
      var init := side[..|side| - 1];
      SideCount(dpb, init, poc);
      PrefixCount(side, init, |init|);
    }
  }

  lemma {:induction false} PrefixCount(side: seq<DeltaPoc>, init: seq<DeltaPoc>, n: nat)
    requires n <= |init| <= |side| && init == side[..|init|]
    ensures UsedAmong(side, n) == UsedAmong(init, n)
  {
    if n > 0 {
      PrefixCount(side, init, n - 1);
    }
  }

  /** Every entry found on a side is at one of the side's deltas. */
  lemma {:induction false} SideFound(dpb: seq<RefPic>, side: seq<DeltaPoc>, poc: int, k: nat)
    requires k < |StCurr(dpb, side, poc)| && StCurr(dpb, side, poc)[k].Some?
    ensures exists i :: 0 <= i < |side| && side[i].used && StCurr(dpb, side, poc)[k].value.poc == poc + side[i].delta
  {
    var init := side[..|side| - 1];
    if k < |StCurr(dpb, init, poc)| {
      SideFound(dpb, init, poc, k);
      var i :| 0 <= i < |init| && init[i].used && StCurr(dpb, init, poc)[k].value.poc == poc + init[i].delta;
      assert side[i] == init[i];
    } else {
      assert side[|side| - 1].used;
    }
  }

  lemma {:induction false} LongTermPlace(dpb: seq<RefPic>, lts: seq<LongTermRef>, poc: int, maxLsb: nat, i: nat)
    requires maxLsb > 0 && i < |lts| && lts[i].usedByCurr
    ensures |LtCurr(dpb, lts, poc, maxLsb)| == UsedLongTermAmong(lts, |lts|) > UsedLongTermAmong(lts, i)
    ensures IsLongTerm(LtCurr(dpb, lts, poc, maxLsb)[UsedLongTermAmong(lts, i)], dpb, lts[i], poc, maxLsb)
  {
    hide IsLongTerm, LtEntry;
    var init := lts[..|lts| - 1];
    LongTermCount(dpb, init, poc, maxLsb);
    PrefixLongTerm(lts, init, |init|);
    if i < |init| {
      LongTermPlace(dpb, init, poc, maxLsb, i);
      PrefixLongTerm(lts, init, i);
    } else {
      LookupIsLongTerm(dpb, lts[i], poc, maxLsb);
    }
  }

  lemma {:induction false} LongTermCount(dpb: seq<RefPic>, lts: seq<LongTermRef>, poc: int, maxLsb: nat)
    requires maxLsb > 0
    ensures |LtCurr(dpb, lts, poc, maxLsb)| == UsedLongTermAmong(lts, |lts|)
  {
    if lts != [] {
      var init := lts[..|lts| - 1];
      LongTermCount(dpb, init, poc, maxLsb);
      PrefixLongTerm(lts, init, |init|);
    }
  }

  lemma {:induction false} PrefixLongTerm(lts: seq<LongTermRef>, init: seq<LongTermRef>, n: nat)
    requires n <= |init| <= |lts| && init == lts[..|init|]
    ensures UsedLongTermAmong(lts, n) == UsedLongTermAmong(init, n)
  {
    if n > 0 {
      PrefixLongTerm(lts, init, n - 1);
    }
  }

  // ----- The set

  /**
   * The set of a picture against a DPB: the k-th used delta of S0 stands at
   * place k of `before`, that of S1 at place k of `after`, the k-th used
   * long-term reference at place k of `longTerm`, each the DPB entry it names
   * or missing; with the deltas of a well-formed set, what is found in `before`
   * lies below the current POC and what is found in `after` above it.
   */
  ghost predicate StandsIn(rps: RefPicSet, dpb: seq<RefPic>, pic: Picture, poc: int, maxLsb: nat)
    requires maxLsb > 0
  {
    && |rps.before| == UsedAmong(pic.rps.s0, |pic.rps.s0|)
    && (forall i :: 0 <= i < |pic.rps.s0| && pic.rps.s0[i].used ==>
        && UsedAmong(pic.rps.s0, i) < |rps.before|
        && IsPoc(rps.before[UsedAmong(pic.rps.s0, i)], dpb, poc + pic.rps.s0[i].delta))
    && |rps.after| == UsedAmong(pic.rps.s1, |pic.rps.s1|)
    && (forall i :: 0 <= i < |pic.rps.s1| && pic.rps.s1[i].used ==>
        && UsedAmong(pic.rps.s1, i) < |rps.after|
        && IsPoc(rps.after[UsedAmong(pic.rps.s1, i)], dpb, poc + pic.rps.s1[i].delta))
    && |rps.longTerm| == UsedLongTermAmong(pic.longTerm, |pic.longTerm|)
    && (forall i :: 0 <= i < |pic.longTerm| && pic.longTerm[i].usedByCurr ==>
        && UsedLongTermAmong(pic.longTerm, i) < |rps.longTerm|
        && IsLongTerm(rps.longTerm[UsedLongTermAmong(pic.longTerm, i)], dpb, pic.longTerm[i], poc, maxLsb))
  }

  ghost predicate ApartFrom(rps: RefPicSet, poc: int) {
    && (forall k :: 0 <= k < |rps.before| && rps.before[k].Some? ==> rps.before[k].value.poc < poc)
    && (forall k :: 0 <= k < |rps.after| && rps.after[k].Some? ==> rps.after[k].value.poc > poc)
  }

  lemma DerivedStands(dpb: seq<RefPic>, pic: Picture, poc: int, maxLsb: nat)
    requires maxLsb > 0
    ensures StandsIn(DeriveRps(dpb, pic, poc, maxLsb), dpb, pic, poc, maxLsb)
    ensures WellFormed(pic.rps) ==> ApartFrom(DeriveRps(dpb, pic, poc, maxLsb), poc)
  {
    hide IsPoc, IsLongTerm, StCurr, LtCurr, KeptPocs, LtFound, UsedAmong, UsedLongTermAmong;
    SideCount(dpb, pic.rps.s0, poc);
    SideCount(dpb, pic.rps.s1, poc);
    LongTermCount(dpb, pic.longTerm, poc, maxLsb);
    forall i | 0 <= i < |pic.rps.s0| && pic.rps.s0[i].used
      ensures UsedAmong(pic.rps.s0, i) < |StCurr(dpb, pic.rps.s0, poc)|
      ensures IsPoc(StCurr(dpb, pic.rps.s0, poc)[UsedAmong(pic.rps.s0, i)], dpb, poc + pic.rps.s0[i].delta)
    {
      SidePlace(dpb, pic.rps.s0, poc, i);
    }
    forall i | 0 <= i < |pic.rps.s1| && pic.rps.s1[i].used
      ensures UsedAmong(pic.rps.s1, i) < |StCurr(dpb, pic.rps.s1, poc)|
      ensures IsPoc(StCurr(dpb, pic.rps.s1, poc)[UsedAmong(pic.rps.s1, i)], dpb, poc + pic.rps.s1[i].delta)
    {
      SidePlace(dpb, pic.rps.s1, poc, i);
    }
    forall i | 0 <= i < |pic.longTerm| && pic.longTerm[i].usedByCurr
      ensures UsedLongTermAmong(pic.longTerm, i) < |LtCurr(dpb, pic.longTerm, poc, maxLsb)|
      ensures IsLongTerm(LtCurr(dpb, pic.longTerm, poc, maxLsb)[UsedLongTermAmong(pic.longTerm, i)], dpb,
                         pic.longTerm[i], poc, maxLsb)
    {
      LongTermPlace(dpb, pic.longTerm, poc, maxLsb, i);
    }
    if WellFormed(pic.rps) {
      DerivedApart(dpb, pic, poc, maxLsb);
    }
  }

  lemma DerivedApart(dpb: seq<RefPic>, pic: Picture, poc: int, maxLsb: nat)
    requires maxLsb > 0 && WellFormed(pic.rps)
    ensures ApartFrom(DeriveRps(dpb, pic, poc, maxLsb), poc)
  {
    hide StCurr, LtCurr, KeptPocs, LtFound;
    var rps := DeriveRps(dpb, pic, poc, maxLsb);
    forall k | 0 <= k < |rps.before| && rps.before[k].Some?
      ensures rps.before[k].value.poc < poc
    {
      SideFound(dpb, pic.rps.s0, poc, k);
    }
    forall k | 0 <= k < |rps.after| && rps.after[k].Some?
      ensures rps.after[k].value.poc > poc
    {
      SideFound(dpb, pic.rps.s1, poc, k);
    }
  }

  /** The long-term entries found, used or not, are those the DPB has for the picture's long-term references. */
  lemma LongTermFound(dpb: seq<RefPic>, pic: Picture, poc: int, maxLsb: nat, r: RefPic)
    requires maxLsb > 0
    ensures r in DeriveRps(dpb, pic, poc, maxLsb).ltFound
      <==> exists i :: 0 <= i < |pic.longTerm| && IsLongTerm(Some(r), dpb, pic.longTerm[i], poc, maxLsb)
  {
    hide IsLongTerm, LtEntry, LtFound, KeptPocs, StCurr, LtCurr;
    LtFoundMember(dpb, pic.longTerm, poc, maxLsb, r);
    forall i | 0 <= i < |pic.longTerm|
      ensures IsLongTerm(Some(r), dpb, pic.longTerm[i], poc, maxLsb)
        <==> LtEntry(dpb, pic.longTerm[i], poc, maxLsb) == Some(r)
    {
      OneEntry(dpb, pic.longTerm[i], poc, maxLsb, r);
    }
  }

  lemma OneEntry(dpb: seq<RefPic>, lt: LongTermRef, poc: int, maxLsb: nat, r: RefPic)
    requires maxLsb > 0
    ensures IsLongTerm(Some(r), dpb, lt, poc, maxLsb) <==> LtEntry(dpb, lt, poc, maxLsb) == Some(r)
  {
    hide LtEntry;
    LookupIsLongTerm(dpb, lt, poc, maxLsb);
  }

  /** The DPB has an entry of this POC for the long-term reference. */
  ghost predicate FoundAt(dpb: seq<RefPic>, lt: LongTermRef, poc: int, maxLsb: nat, p: int)
    requires maxLsb > 0
  {
    exists x :: x in dpb && x.poc == p && IsLongTerm(Some(x), dpb, lt, poc, maxLsb)
  }

  /**
   * What eviction keeps, through both ends: an entry stays if and only if some
   * delta of S0 or S1, used or not, leads from the current POC to its POC, or a
   * long-term reference is found at its POC.
   */
  lemma KeptExactly(dpb: seq<RefPic>, pic: Picture, poc: int, maxLsb: nat, r: RefPic)
    requires maxLsb > 0
    ensures r in Evict(dpb, DeriveRps(dpb, pic, poc, maxLsb).kept) <==>
      && r in dpb
      && (|| (exists i :: 0 <= i < |pic.rps.s0| && r.poc == poc + pic.rps.s0[i].delta)
          || (exists i :: 0 <= i < |pic.rps.s1| && r.poc == poc + pic.rps.s1[i].delta)
          || (exists i :: 0 <= i < |pic.longTerm| && FoundAt(dpb, pic.longTerm[i], poc, maxLsb, r.poc)))
  {
    hide FoundAt, LtNames, KeptPocs, StCurr, LtCurr, LtFound;
    EvictionExact(dpb, pic, poc, maxLsb, r);
    forall i | 0 <= i < |pic.longTerm|
      ensures FoundAt(dpb, pic.longTerm[i], poc, maxLsb, r.poc) <==> LtNames(dpb, pic.longTerm[i], poc, maxLsb, r.poc)
    {
      FoundIsNamed(dpb, pic.longTerm[i], poc, maxLsb, r.poc);
    }
  }

  lemma FoundIsNamed(dpb: seq<RefPic>, lt: LongTermRef, poc: int, maxLsb: nat, p: int)
    requires maxLsb > 0
    ensures FoundAt(dpb, lt, poc, maxLsb, p) <==> LtNames(dpb, lt, poc, maxLsb, p)
  {
    hide IsLongTerm;
    if FoundAt(dpb, lt, poc, maxLsb, p) {
      var x :| x in dpb && x.poc == p && IsLongTerm(Some(x), dpb, lt, poc, maxLsb);
      OneEntry(dpb, lt, poc, maxLsb, x);
    }
    if LtNames(dpb, lt, poc, maxLsb, p) {
      var x := LtEntry(dpb, lt, poc, maxLsb).value;
      OneEntry(dpb, lt, poc, maxLsb, x);
      assert x in dpb;
    }
  }

  // ----- The engines

  /** In the V4L2 engine, against the DPB the picture starts with. */
  lemma EngineSetStands(e: Engine, pic: Picture)
    ensures StandsIn(RpsAtStart(e, pic), DpbAtStart(e, pic), pic, CurrentPoc(e, pic), Bits.Pow2(e.sps.log2MaxPocLsb))
    ensures WellFormed(pic.rps) ==> ApartFrom(RpsAtStart(e, pic), CurrentPoc(e, pic))
  {
    hide StandsIn, ApartFrom, DeriveRps, DpbAtStart, CurrentPoc, WellFormed;
    DerivedStands(DpbAtStart(e, pic), pic, CurrentPoc(e, pic), e.sps.MaxPocLsb());
  }

  lemma VaapiSetStands(e: Vaapi.VaEngine, pic: Picture)
    ensures StandsIn(Vaapi.VaRps(e, pic), Vaapi.VaDpbAtStart(e, pic), pic, Vaapi.VaPoc(e, pic),
                     Bits.Pow2(e.sps.log2MaxPocLsb))
    ensures WellFormed(pic.rps) ==> ApartFrom(Vaapi.VaRps(e, pic), Vaapi.VaPoc(e, pic))
  {
    hide StandsIn, ApartFrom, DeriveRps, Vaapi.VaDpbAtStart, Vaapi.VaPoc, WellFormed;
    DerivedStands(Vaapi.VaDpbAtStart(e, pic), pic, Vaapi.VaPoc(e, pic), e.sps.MaxPocLsb());
  }

  /** The DPB a picture starts with: none at a type 16..23 that restarts the sequence, else the engine's. */
  lemma StartDpb(e: Engine, pic: Picture)
    ensures DpbAtStart(e, pic)
      == if 16 <= pic.nalType <= 23 && (pic.nalType <= 20 || !e.seenFirst || e.eosSeen) then [] else e.dpb
  {
  }

  lemma VaapiStartDpb(e: Vaapi.VaEngine, pic: Picture)
    ensures Vaapi.VaDpbAtStart(e, pic)
      == if 16 <= pic.nalType <= 23 && (pic.nalType <= 20 || !e.seenFirst || e.eosSeen) then [] else e.dpb
  {
  }

  // ----- The header's count

  /** NumPicTotalCurr counts the entries that the current picture uses, in all three places. */
  lemma TotalIsCount(refs: ReferenceInfo)
    ensures NumPicTotalCurr(refs)
      == UsedAmong(refs.rps.s0, |refs.rps.s0|) + UsedAmong(refs.rps.s1, |refs.rps.s1|)
        + UsedLongTermAmong(refs.longTerm, |refs.longTerm|)
  {
    UsedIsCount(refs.rps.s0);
    UsedIsCount(refs.rps.s1);
    UsedLongTermIsCount(refs.longTerm);
  }

  lemma {:induction false} UsedIsCount(side: seq<DeltaPoc>)
    ensures CountUsed(side) == UsedAmong(side, |side|)
  {
    if side != [] {
      var init := side[..|side| - 1];
      UsedIsCount(init);
      PrefixCount(side, init, |init|);
    }
  }

  lemma {:induction false} UsedLongTermIsCount(lts: seq<LongTermRef>)
    ensures CountUsedLongTerm(lts) == UsedLongTermAmong(lts, |lts|)
  {
    if lts != [] {
      var init := lts[..|lts| - 1];
      UsedLongTermIsCount(init);
      PrefixLongTerm(lts, init, |init|);
    }
  }
}
