/**
 * What the drivers are told about references, field by field: the parameters
 * of the V4L2 engine, and where the reference lists of both engines begin.
 */
module DriverView {
  import opened Wrappers
  import opened ShortTermRpsSets
  import opened DpbMachine
  import opened DpbBuffers
  import opened SliceHeaders
  import opened RefLists
  import opened StatelessEngine
  import opened StatelessOwnership
  import opened V4l2StatelessH265Decoders
  import opened ReferenceSets
  import Bits
  import Vaapi = VaapiH265Decoders

  /** An index names a current reference that was found in one of the first 64 buffers; all others get 0. */
  ghost predicate Names(index: nat, entry: RpsEntry, kept: seq<RefPic>) {
    if entry.Some? && entry.value.buffer < 64 then index < |kept| && kept[index] == entry.value else index == 0
  }

  /** At most 16 indices, one for each entry. */
  ghost predicate AllName(indices: seq<nat>, entries: seq<RpsEntry>, kept: seq<RefPic>) {
    && |indices| == (if |entries| <= 16 then |entries| else 16)
    && forall i :: 0 <= i < |indices| ==> Names(indices[i], entries[i], kept)
  }

  lemma IndicesName(e: Engine, pic: Picture, entries: seq<RpsEntry>)
    requires Inv(e) && var rps := RpsAtStart(e, pic);
      entries == rps.before || entries == rps.after || entries == rps.longTerm
    ensures AllName(FirstIndices(DpbKept(e, pic), entries), entries, DpbKept(e, pic))
  {
    hide Inv, StartPicture, DpbKept, RpsAtStart, CurrentPoc, EntryIndex, ParamsOf, Resolves, DistinctBuffers;
    var kept := DpbKept(e, pic);
    StartKeepsInv(e, pic);
    StartedDpb(e, pic);
    KeptFacts(StartPicture(e, pic));
    forall i | 0 <= i < |entries|
      ensures Names(EntryIndex(kept, entries[i]), entries[i], kept)
    {
      if entries[i].Some? {
        CurrentReferencesResolve(e, pic, entries[i]);
        EntryResolves(kept, entries[i]);
      } else {
        NoneIndex(kept, entries[i]);
      }
    }
  }

  lemma NoneIndex(dpb: seq<RefPic>, entry: RpsEntry)
    requires entry.None?
    ensures EntryIndex(dpb, entry) == 0
  {
  }

  /**
   * The decode parameters of a picture: its POC; every reference kept, with its
   * POC, its tag in nanoseconds modulo 2^64 and a long-term mark if and only if
   * a long-term reference of the picture finds it; and for the three current
   * subsets the places of their pictures.
   */
  lemma ParamsSay(e: Engine, pic: Picture)
    requires Inv(e)
    ensures var kept, rps := DpbKept(e, pic), RpsAtStart(e, pic);
      var poc, maxLsb := CurrentPoc(e, pic), Bits.Pow2(e.sps.log2MaxPocLsb);
      var p := ParamsOf(kept, rps, poc);
      && p.poc == poc && |p.dpb| == |kept| <= 16
      && (forall j :: 0 <= j < |kept| ==>
          && p.dpb[j].poc == kept[j].poc
          && p.dpb[j].timestampNs == kept[j].tag * 1_000_000_000 % 0x1_0000_0000_0000_0000
          && (p.dpb[j].longTerm <==>
              exists i :: 0 <= i < |pic.longTerm|
                && IsLongTerm(Some(kept[j]), DpbAtStart(e, pic), pic.longTerm[i], poc, maxLsb)))
      && AllName(p.before, rps.before, kept) && AllName(p.after, rps.after, kept)
      && AllName(p.longTerm, rps.longTerm, kept)
  {
    hide Inv, StartPicture, DpbKept, RpsAtStart, CurrentPoc, DpbAtStart, EntryIndices, IsLongTerm, AllName,
         FirstIndices, DeriveRps, Evict, DistinctBuffers, Buffers;
    var kept, rps := DpbKept(e, pic), RpsAtStart(e, pic);
    StartKeepsInv(e, pic);
    StartedDpb(e, pic);
    KeptFacts(StartPicture(e, pic));
    IndicesName(e, pic, rps.before);
    IndicesName(e, pic, rps.after);
    IndicesName(e, pic, rps.longTerm);
    KeptAtStart(e, pic);
    forall j | 0 <= j < |kept|
      ensures kept[j].buffer in Buffers(rps.ltFound) <==>
        exists i :: 0 <= i < |pic.longTerm| && IsLongTerm(Some(kept[j]), DpbAtStart(e, pic), pic.longTerm[i],
                                                          CurrentPoc(e, pic), Bits.Pow2(e.sps.log2MaxPocLsb))
    {
      LongTermFound(DpbAtStart(e, pic), pic, CurrentPoc(e, pic), e.sps.MaxPocLsb(), kept[j]);
      StartBuffers(e, pic);
      MarkedIsFound(DpbAtStart(e, pic), rps.ltFound, kept[j]);
    }
  }

  /** The DPB at start has distinct buffers, keeps what it keeps, and the long-term entries found are in it. */
  lemma StartBuffers(e: Engine, pic: Picture)
    requires Inv(e)
    ensures DistinctBuffers(DpbAtStart(e, pic)) && Subset(DpbKept(e, pic), DpbAtStart(e, pic))
    ensures Subset(RpsAtStart(e, pic).ltFound, DpbAtStart(e, pic))
  {
    hide CurrentPoc, KeptPocs, StCurr, LtCurr, LtEntry;
    var atStart := DpbAtStart(e, pic);
    InvDpb(e);
    forall r | r in DpbKept(e, pic)
      ensures r in atStart
    {
      EvictMember(atStart, RpsAtStart(e, pic).kept, r);
    }
    forall r | r in RpsAtStart(e, pic).ltFound
      ensures r in atStart
    {
      LtFoundMember(atStart, pic.longTerm, CurrentPoc(e, pic), e.sps.MaxPocLsb(), r);
      var i :| 0 <= i < |pic.longTerm|
        && LtEntry(atStart, pic.longTerm[i], CurrentPoc(e, pic), e.sps.MaxPocLsb()) == Some(r);
      EntryIsThere(atStart, pic.longTerm[i], CurrentPoc(e, pic), e.sps.MaxPocLsb(), r);
    }
  }

  lemma EntryIsThere(dpb: seq<RefPic>, lt: LongTermRef, poc: int, maxLsb: nat, r: RefPic)
    requires maxLsb > 0 && LtEntry(dpb, lt, poc, maxLsb) == Some(r)
    ensures r in dpb
  {
  }

  lemma MarkedIsFound(dpb: seq<RefPic>, found: seq<RefPic>, r: RefPic)
    requires DistinctBuffers(dpb) && Subset(found, dpb) && r in dpb
    ensures r.buffer in Buffers(found) <==> r in found
  {
    if r.buffer in Buffers(found) {
      var x :| x in found && x.buffer == r.buffer;
      var i :| 0 <= i < |dpb| && dpb[i] == x;
      var j :| 0 <= j < |dpb| && dpb[j] == r;
      assert i == j;
    }
  }

  // ----- Where the lists begin

  /** A slice's header and the picture its engine sees. */
  ghost predicate SliceOf(sh: SliceHeader, pic: Picture) {
    && pic.rps == sh.refs.rps && pic.longTerm == sh.refs.longTerm && WellFormed(pic.rps)
    && sh.numPicTotalCurr == NumPicTotalCurr(sh.refs) && ValidActive(sh.active, sh.numPicTotalCurr)
  }

  /**
   * An unmodified list 0 begins with a picture before the current one, an
   * unmodified list 1 with one after it, whenever the slice has such a
   * reference and it is found in one of the first 64 buffers.
   */
  lemma ListsBeginApart(e: Engine, pic: Picture, sh: SliceHeader)
    requires Inv(e) && SliceOf(sh, pic)
    ensures var kept, rps := DpbKept(e, pic), RpsAtStart(e, pic);
      var lists := ListsOf(kept, rps, sh);
      && (sh.sliceType != I && !sh.active.modifiedL0 && rps.before != [] && rps.before[0].Some?
          && rps.before[0].value.buffer < 64 ==>
            lists.l0[0] < |kept| && kept[lists.l0[0]].poc < CurrentPoc(e, pic))
      && (sh.sliceType == B && !sh.active.modifiedL1 && rps.after != [] && rps.after[0].Some?
          && rps.after[0].value.buffer < 64 ==>
            lists.l1[0] < |kept| && kept[lists.l1[0]].poc > CurrentPoc(e, pic))
  {
    hide Inv, DpbKept, RpsAtStart, CurrentPoc, ListsOf, ValidActive, StandsIn, NumPicTotalCurr, WellFormed, EntryIndex;
    var kept, rps := DpbKept(e, pic), RpsAtStart(e, pic);
    EngineSetStands(e, pic);
    SubsetsMatchHeader(e, pic, sh);
    ActiveInRange(sh);
    if sh.sliceType != I && !sh.active.modifiedL0 && rps.before != [] && rps.before[0].Some? {
      List0IsStandard(kept, rps, sh, 0);
      FirstOfList(rps.before + rps.after + rps.longTerm, sh.active.l0Minus1 + 1, sh.active.entriesL0);
      EntryNamed(e, pic, rps.before[0]);
    }
    if sh.sliceType == B && !sh.active.modifiedL1 && rps.after != [] && rps.after[0].Some? {
      List1IsStandard(kept, rps, sh, 0);
      FirstOfList(rps.after + rps.before + rps.longTerm, sh.active.l1Minus1 + 1, sh.active.entriesL1);
      EntryNamed(e, pic, rps.after[0]);
    }
  }

  lemma ActiveInRange(sh: SliceHeader)
    requires ValidActive(sh.active, sh.numPicTotalCurr)
    ensures sh.active.l0Minus1 < 16 && sh.active.l1Minus1 < 16
  {
  }

  lemma FirstOfList(temp: seq<RpsEntry>, active: nat, entries: seq<nat>)
    requires temp != [] && active > 0
    ensures StandardList(temp, active, false, entries)[0] == temp[0]
  {
    WrapTempAt(temp, Max(active, |temp|), 0);
    hide WrapTemp;
    assert 0 % |temp| == 0;
  }

  lemma EntryNamed(e: Engine, pic: Picture, entry: RpsEntry)
    requires Inv(e) && entry.Some? && var rps := RpsAtStart(e, pic);
      entry in rps.before || entry in rps.after || entry in rps.longTerm
    ensures var kept := DpbKept(e, pic);
      entry.value.buffer < 64 ==> EntryIndex(kept, entry) < |kept| && kept[EntryIndex(kept, entry)] == entry.value
  {
    hide Inv, StartPicture, DpbKept, RpsAtStart, CurrentPoc, EntryIndex, ParamsOf, Resolves, DistinctBuffers;
    StartKeepsInv(e, pic);
    StartedDpb(e, pic);
    KeptFacts(StartPicture(e, pic));
    CurrentReferencesResolve(e, pic, entry);
    EntryResolves(DpbKept(e, pic), entry);
  }

  /** The place of an entry among the kept references. */
  ghost predicate At(dpb: seq<RefPic>, at: nat, entry: RpsEntry) {
    at < |dpb| && entry == Some(dpb[at])
  }

  /** In the VAAPI engine: the place of that picture, if among the first 15 and in a surface below 64, else 0xFF. */
  lemma VaListsBeginApart(e: Vaapi.VaEngine, pic: Picture, sh: SliceHeader) returns (at0: nat, at1: nat)
    requires Vaapi.VaInv(e) && SliceOf(sh, pic)
    ensures var kept, rps := Vaapi.VaKept(e, pic), Vaapi.VaRps(e, pic);
      var lists := Vaapi.VaListsOf(kept, rps, sh);
      && (sh.sliceType != I && !sh.active.modifiedL0 && rps.before != [] && rps.before[0].Some? ==>
          && At(kept, at0, rps.before[0]) && kept[at0].poc < Vaapi.VaPoc(e, pic)
          && lists.l0[0] == if at0 < 15 && kept[at0].buffer < 64 then at0 else 0xFF)
      && (sh.sliceType == B && !sh.active.modifiedL1 && rps.after != [] && rps.after[0].Some? ==>
          && At(kept, at1, rps.after[0]) && kept[at1].poc > Vaapi.VaPoc(e, pic)
          && lists.l1[0] == if at1 < 15 && kept[at1].buffer < 64 then at1 else 0xFF)
  {
    hide Vaapi.VaInv, Vaapi.VaKept, Vaapi.VaRps, Vaapi.VaPoc, Vaapi.VaListsOf, ValidActive, StandsIn, NumPicTotalCurr,
         WellFormed, Vaapi.VaIndex;
    var kept, rps := Vaapi.VaKept(e, pic), Vaapi.VaRps(e, pic);
    VaapiSetStands(e, pic);
    VaSubsetsCount(e, pic, sh);
    ActiveInRange(sh);
    at0, at1 := 0, 0;
    if sh.sliceType != I && !sh.active.modifiedL0 && rps.before != [] && rps.before[0].Some? {
      Vaapi.VaList0IsStandard(kept, rps, sh, 0);
      FirstOfList(rps.before + rps.after + rps.longTerm, sh.active.l0Minus1 + 1, sh.active.entriesL0);
      at0 := VaEntryAt(e, pic, rps.before[0]);
    }
    if sh.sliceType == B && !sh.active.modifiedL1 && rps.after != [] && rps.after[0].Some? {
      Vaapi.VaList1IsStandard(kept, rps, sh, 0);
      FirstOfList(rps.after + rps.before + rps.longTerm, sh.active.l1Minus1 + 1, sh.active.entriesL1);
      at1 := VaEntryAt(e, pic, rps.after[0]);
    }
  }

  lemma VaSubsetsCount(e: Vaapi.VaEngine, pic: Picture, sh: SliceHeader)
    requires SliceOf(sh, pic)
    ensures var rps := Vaapi.VaRps(e, pic);
      |rps.before| + |rps.after| + |rps.longTerm| == sh.numPicTotalCurr
  {
    hide NumPicTotalCurr, Vaapi.VaPoc, Vaapi.VaDpbAtStart, DeriveRps;
    SubsetsCount(Vaapi.VaDpbAtStart(e, pic), pic, sh.refs, Vaapi.VaPoc(e, pic), e.sps.MaxPocLsb());
  }

  lemma VaEntryAt(e: Vaapi.VaEngine, pic: Picture, entry: RpsEntry) returns (at: nat)
    requires Vaapi.VaInv(e) && entry.Some? && var rps := Vaapi.VaRps(e, pic);
      entry in rps.before || entry in rps.after || entry in rps.longTerm
    ensures var kept := Vaapi.VaKept(e, pic);
      && At(kept, at, entry)
      && Vaapi.VaIndex(kept, entry) == if at < 15 && kept[at].buffer < 64 then at else 0xFF
  {
    var kept := Vaapi.VaKept(e, pic);
    Vaapi.StartKeepsVaInv(e, pic);
    Vaapi.InvDpb(Vaapi.VaStart(e, pic));
    hide Vaapi.VaInv, Vaapi.VaPoc, Vaapi.VaDpbAtStart, StCurr, LtCurr, LtFound, Vaapi.VaIndex;
    CurrentSurvives(Vaapi.VaDpbAtStart(e, pic), pic, Vaapi.VaPoc(e, pic), e.sps.MaxPocLsb(), entry);
    at :| 0 <= at < |kept| && kept[at] == entry.value;
    Vaapi.VaIndexResolvesIff(kept, at);
  }
}
