/**
 * Slice segment headers are read exactly where a coded header stands: the
 * converse of the read-back lemmas of SliceHeaderRoundTrip, so that the parser
 * neither accepts nor misreads anything else.
 */
module SliceHeaderExact {
  import opened Wrappers
  import opened Bits
  import opened ExpGolomb
  import opened NalTypes
  import opened ShortTermRpsSets
  import opened DpbMachine
  import opened SliceHeaders
  import opened SliceHeaderRoundTrip
  import RpsRoundTrip
  import opened RpsExact

  /** A u(v) field for 0..n-1 has the least number of bits that can hold n values. */
  lemma WidthIsLeast(n: nat, width: nat)
    ensures CeilLog2Of(n) == width <==> n <= Pow2(width) && (width > 0 ==> n > Pow2(width - 1))
  {
    if n <= Pow2(width) && (width > 0 ==> n > Pow2(width - 1)) {
      CeilLog2Unique(n, width, CeilLog2Of(n));
    }
  }

  // ----- Optional fields

  lemma UExact(n: nat, bs: seq<bool>)
    requires TakeU(n, bs).Some?
    ensures var (v, rest) := TakeU(n, bs).value;
      v < Pow2(n) && bs == FromNat(v, n) + rest
  {
    hide ToNat, FromNat;
    BitsDetermine(bs[..n]);
  }

  lemma FlagIfExact(present: bool, absent: bool, bs: seq<bool>)
    requires TakeFlagIf(present, absent, bs).Some?
    ensures var (b, rest) := TakeFlagIf(present, absent, bs).value;
      bs == FlagIf(present, b, rest) && (!present ==> b == absent)
  {
    if present {
      FlagExact(bs);
    }
  }

  lemma UIfExact(present: bool, n: nat, bs: seq<bool>)
    requires TakeUIf(present, n, bs).Some?
    ensures var (v, rest) := TakeUIf(present, n, bs).value;
      bs == UIf(present, n, v, rest) && if present then v < Pow2(n) else v == 0
  {
    hide TakeU, FromNat;
    if present {
      UExact(n, bs);
    }
  }

  lemma UeIfExact(present: bool, absent: nat, bs: seq<bool>)
    requires TakeUeIf(present, absent, bs).Some?
    ensures var (v, rest) := TakeUeIf(present, absent, bs).value;
      bs == UeIf(present, v, rest) && if present then v <= 0xFFFF_FFFE else v == absent
  {
    hide TakeUe, UeBits;
    if present {
      var (v, rest) := TakeUe(bs).value;
      UeExact(bs, v, rest);
    }
  }

  lemma SeIfExact(present: bool, bs: seq<bool>)
    requires TakeSeIf(present, bs).Some?
    ensures var (v, rest) := TakeSeIf(present, bs).value;
      bs == SeIf(present, v, rest) && if present then IsInt32(v) else v == 0
  {
    hide TakeSe, SeBits;
    if present {
      var (v, rest) := TakeSe(bs).value;
      SeExact(bs, v, rest);
    }
  }

  lemma SkipExact(n: nat, bs: seq<bool>) returns (skipped: seq<bool>)
    requires TakeSkip(n, bs).Some?
    ensures |skipped| == n && bs == skipped + TakeSkip(n, bs).value
  {
    skipped := bs[..n];
  }

  // ----- Long-term references

  lemma LtPocExact(ctx: SliceContext, lt: LongTermRef, fromSps: bool, bs: seq<bool>) returns (idx: nat)
    requires |ctx.ltUsedSps| == |ctx.ltPocLsbSps|
    requires TakeLtPoc(ctx, fromSps, bs).Some?
    requires (lt.pocLsb, lt.usedByCurr) == TakeLtPoc(ctx, fromSps, bs).value.0
    ensures bs == LtPocBits(ctx, lt, fromSps, idx, TakeLtPoc(ctx, fromSps, bs).value.1)
    ensures if fromSps then
        idx < |ctx.ltPocLsbSps| && lt.pocLsb == ctx.ltPocLsbSps[idx] && lt.usedByCurr == ctx.ltUsedSps[idx]
      else idx == 0 && lt.pocLsb < Pow2(ctx.log2MaxPocLsb)
  {
    hide TakeU, FromNat, CeilLog2Of;
    var n := |ctx.ltPocLsbSps|;
    idx := 0;
    if fromSps {
      if n > 1 {
        UExact(CeilLog2Of(n), bs);
        idx := TakeU(CeilLog2Of(n), bs).value.0;
      }
    } else {
      UExact(ctx.log2MaxPocLsb, bs);
      FlagExact(TakeU(ctx.log2MaxPocLsb, bs).value.1);
    }
  }

  lemma LastInRange(ctx: SliceContext, acc: seq<LongTermRef>, numSps: nat, idx: seq<nat>)
    requires |ctx.ltUsedSps| == |ctx.ltPocLsbSps| && LtRefsCodable(ctx, acc, numSps, idx)
    ensures LastCycle(acc) <= 0xFFFF
  {
    if acc != [] {
      assert LtRefCodable(ctx, acc, numSps, idx, |acc| - 1);
    }
  }

  lemma LtRefExact(ctx: SliceContext, acc: seq<LongTermRef>, numSps: nat, idx: seq<nat>, bs: seq<bool>)
    returns (next: nat)
    requires |ctx.ltUsedSps| == |ctx.ltPocLsbSps| && |idx| == |acc| && LtRefsCodable(ctx, acc, numSps, idx)
    requires TakeLongTermRef(ctx, |acc|, numSps, LastCycle(acc), bs).Some?
    ensures var (lt, rest) := TakeLongTermRef(ctx, |acc|, numSps, LastCycle(acc), bs).value;
      && LtRefCodable(ctx, acc + [lt], numSps, idx + [next], |acc|)
      && bs == LtRefBits(ctx, acc + [lt], numSps, idx + [next], |acc|, rest)
  {
    hide TakeLtPoc, LtPocBits, TakeUe, UeBits, LtRefsCodable;
    LastInRange(ctx, acc, numSps, idx);
    var i := |acc|;
    var (lt, rest) := TakeLongTermRef(ctx, i, numSps, LastCycle(acc), bs).value;
    next := LtPocExact(ctx, lt, i < numSps, bs);
    var afterPoc := TakeLtPoc(ctx, i < numSps, bs).value.1;
    FlagExact(afterPoc);
    var (present, afterFlag) := TakeFlag(afterPoc).value;
    if present {
      var (delta, tail) := TakeUe(afterFlag).value;
      UeExact(afterFlag, delta, tail);
    }
    assert i > 0 ==> (acc + [lt])[i - 1] == acc[i - 1];
    assert (acc + [lt])[i] == lt && (idx + [next])[i] == next;
  }

  lemma CodableSnoc(ctx: SliceContext, acc: seq<LongTermRef>, lt: LongTermRef, numSps: nat, idx: seq<nat>, next: nat)
    requires |ctx.ltUsedSps| == |ctx.ltPocLsbSps| && |idx| == |acc| && LtRefsCodable(ctx, acc, numSps, idx)
    requires LtRefCodable(ctx, acc + [lt], numSps, idx + [next], |acc|)
    ensures LtRefsCodable(ctx, acc + [lt], numSps, idx + [next])
  {
    forall i | 0 <= i < |acc|
      ensures LtRefCodable(ctx, acc + [lt], numSps, idx + [next], i)
    {
      assert LtRefCodable(ctx, acc, numSps, idx, i);
    }
  }

  lemma SameLtRefBits(ctx: SliceContext, a: seq<LongTermRef>, b: seq<LongTermRef>, numSps: nat, ia: seq<nat>,
                      ib: seq<nat>, i: nat, rest: seq<bool>)
    requires |ctx.ltUsedSps| == |ctx.ltPocLsbSps| && a <= b && ia <= ib && i < |a| == |ia|
    requires LtRefCodable(ctx, a, numSps, ia, i)
    ensures LtRefCodable(ctx, b, numSps, ib, i)
    ensures LtRefBits(ctx, a, numSps, ia, i, rest) == LtRefBits(ctx, b, numSps, ib, i, rest)
  {
    assert a[i] == b[i] && ia[i] == ib[i] && (i > 0 ==> a[i - 1] == b[i - 1]);
  }

  lemma LtRefsStep(ctx: SliceContext, lts: seq<LongTermRef>, numSps: nat, idx: seq<nat>, i: nat, rest: seq<bool>)
    requires |ctx.ltUsedSps| == |ctx.ltPocLsbSps| && i < |lts| && LtRefsCodable(ctx, lts, numSps, idx)
    ensures LtRefCodable(ctx, lts, numSps, idx, i)
    ensures LtRefsBits(ctx, lts, numSps, idx, i, rest)
      == LtRefBits(ctx, lts, numSps, idx, i, LtRefsBits(ctx, lts, numSps, idx, i + 1, rest))
  {
  }

  lemma {:induction false} LtRefsExact(
    ctx: SliceContext, acc: seq<LongTermRef>, numSps: nat, idx: seq<nat>, total: nat, bs: seq<bool>)
    returns (all: seq<nat>)
    requires |ctx.ltUsedSps| == |ctx.ltPocLsbSps| && |idx| == |acc| <= total && LtRefsCodable(ctx, acc, numSps, idx)
    requires TakeLongTermRefs(ctx, acc, numSps, total, bs).Some?
    ensures var (lts, rest) := TakeLongTermRefs(ctx, acc, numSps, total, bs).value;
      && acc <= lts && idx <= all && |all| == |lts| && LtRefsCodable(ctx, lts, numSps, all)
      && bs == LtRefsBits(ctx, lts, numSps, all, |acc|, rest)
    decreases total - |acc|
  {
    hide TakeLongTermRef, LtRefBits, LtRefCodable, LtRefsCodable, LastCycle;
    if |acc| == total {
      all := idx;
    } else {
      var (lt, tail) := TakeLongTermRef(ctx, |acc|, numSps, LastCycle(acc), bs).value;
      var next := LtRefExact(ctx, acc, numSps, idx, bs);
      CodableSnoc(ctx, acc, lt, numSps, idx, next);
      all := LtRefsExact(ctx, acc + [lt], numSps, idx + [next], total, tail);
      var (lts, rest) := TakeLongTermRefs(ctx, acc, numSps, total, bs).value;
      assert acc + [lt] <= lts && idx + [next] <= all;
      SameLtRefBits(ctx, acc + [lt], lts, numSps, idx + [next], all, |acc|, tail);
      LtRefsStep(ctx, lts, numSps, all, |acc|, rest);
    }
  }

  lemma NoLtRefs(ctx: SliceContext, numSps: nat)
    requires |ctx.ltUsedSps| == |ctx.ltPocLsbSps|
    ensures LtRefsCodable(ctx, [], numSps, [])
  {
  }

  lemma LongTermExact(ctx: SliceContext, bs: seq<bool>, before: Choices) returns (ch: Choices)
    requires |ctx.ltUsedSps| == |ctx.ltPocLsbSps| && TakeLongTerm(ctx, bs).Some?
    ensures ch == before.(numLtSps := ch.numLtSps, ltIdx := ch.ltIdx)
    ensures var (lts, rest) := TakeLongTerm(ctx, bs).value;
      LongTermCodable(ctx, lts, ch) && bs == LongTermBits(ctx, lts, ch, rest)
  {
    hide TakeUe, UeBits, TakeLongTermRefs, LtRefsBits, LtRefsCodable, TakeUeIf, UeIf;
    ch := before;
    if ctx.longTermPresent {
      var (numSps, afterSps) := TakeUeIf(|ctx.ltPocLsbSps| > 0, 0, bs).value;
      UeIfExact(|ctx.ltPocLsbSps| > 0, 0, bs);
      var (numPics, afterPics) := TakeUe(afterSps).value;
      UeExact(afterSps, numPics, afterPics);
      NoLtRefs(ctx, numSps);
      var idx := LtRefsExact(ctx, [], numSps, [], numSps + numPics, afterPics);
      ch := before.(numLtSps := numSps, ltIdx := idx);
    }
  }

  // ----- Reference information

  lemma SliceRpsExact(ctx: SliceContext, bs: seq<bool>) returns (coding: RpsCoding)
    requires |ctx.shortTermRps| <= MAX_SHORT_TERM_RPS && TakeSliceRps(ctx, bs).Some?
    ensures var ((rps, rpsBits), rest) := TakeSliceRps(ctx, bs).value;
      SliceRpsCodable(ctx, rps, rpsBits, coding) && bs == SliceRpsBits(ctx, coding, rest)
  {
    hide TakeRps, CeilLog2Of, TakeUIf, UIf, IsForm, RpsRoundTrip.Codes;
    var n := |ctx.shortTermRps|;
    var (fromSps, tail) := TakeFlag(bs).value;
    FlagExact(bs);
    if fromSps {
      UIfExact(n > 1, CeilLog2Of(n), tail);
      coding := FromSps(TakeRpsIdx(n, tail).value.0);
    } else {
      var (rps, rest) := TakeRps(n, n, ctx.shortTermRps, tail).value;
      var bits := FormFound(n, n, ctx.shortTermRps, tail);
      FormCodes(bits, rps, n, n, ctx.shortTermRps);
      coding := Inline(bits);
    }
  }

  lemma ReferencesExact(ctx: SliceContext, idr: bool, bs: seq<bool>, before: Choices) returns (ch: Choices)
    requires ctx.Valid() && TakeReferences(ctx, idr, bs).Some?
    ensures ch == before.(rps := ch.rps, numLtSps := ch.numLtSps, ltIdx := ch.ltIdx)
    ensures var (refs, rest) := TakeReferences(ctx, idr, bs).value;
      ReferencesCodable(ctx, refs, ch, idr) && bs == ReferencesBits(ctx, refs, ch, idr, rest)
  {
    hide TakeU, FromNat, TakeSliceRps, SliceRpsBits, SliceRpsCodable, TakeLongTerm, LongTermBits, LongTermCodable,
         TakeFlagIf, FlagIf, LtRefsBits;
    if idr {
      ch := before.(numLtSps := 0, ltIdx := []);
      NoLongTerm(ctx, ch);
    } else {
      var (pocLsb, afterLsb) := TakeU(ctx.log2MaxPocLsb, bs).value;
      UExact(ctx.log2MaxPocLsb, bs);
      var coding := SliceRpsExact(ctx, afterLsb);
      var afterRps := TakeSliceRps(ctx, afterLsb).value.1;
      ch := LongTermExact(ctx, afterRps, before.(rps := coding));
      var afterLt := TakeLongTerm(ctx, afterRps).value.1;
      FlagIfExact(ctx.temporalMvpEnabled, false, afterLt);
    }
  }

  lemma NoLongTerm(ctx: SliceContext, ch: Choices)
    requires |ctx.ltUsedSps| == |ctx.ltPocLsbSps| && ch.numLtSps == 0
    ensures LongTermCodable(ctx, [], ch)
  {
  }

  // ----- Active references

  lemma {:induction false} EntriesExact(acc: seq<nat>, n: nat, total: nat, bs: seq<bool>)
    requires |acc| <= n && TakeEntries(acc, n, total, bs).Some?
    ensures var (entries, rest) := TakeEntries(acc, n, total, bs).value;
      && acc <= entries && (forall i :: |acc| <= i < n ==> entries[i] < total)
      && bs == EntriesBits(entries[|acc|..], total, rest)
    decreases n - |acc|
  {
    hide TakeU, FromNat, CeilLog2Of;
    var (entries, rest) := TakeEntries(acc, n, total, bs).value;
    if |acc| < n {
      var (entry, tail) := TakeU(CeilLog2Of(total), bs).value;
      UExact(CeilLog2Of(total), bs);
      EntriesExact(acc + [entry], n, total, tail);
      assert entries[|acc|] == (acc + [entry])[|acc|] == entry;
      assert entries[|acc|..][1..] == entries[|acc + [entry]|..];
    } else {
      assert entries[|acc|..] == [];
    }
  }

  lemma ListExact(present: bool, n: nat, total: nat, bs: seq<bool>)
    requires TakeListEntries(present, n, total, bs).Some?
    ensures var ((modified, entries), rest) := TakeListEntries(present, n, total, bs).value;
      ListCodable(present, modified, entries, n, total) && bs == ListBits(present, modified, entries, total, rest)
  {
    hide TakeEntries, EntriesBits, TakeFlagIf, FlagIf;
    var (modified, tail) := TakeFlagIf(present, false, bs).value;
    FlagIfExact(present, false, bs);
    if modified {
      EntriesExact([], n, total, tail);
      var entries := TakeEntries([], n, total, tail).value.0;
      assert entries[0..] == entries;
    }
  }

  lemma ListsExact(present: bool, sliceType: SliceType, l0: nat, l1: nat, total: nat, bs: seq<bool>)
    requires TakeListsModification(present, sliceType, l0, l1, total, bs).Some?
    ensures var (active, rest) := TakeListsModification(present, sliceType, l0, l1, total, bs).value;
      && active.l0Minus1 == l0 && active.l1Minus1 == l1
      && ListCodable(present, active.modifiedL0, active.entriesL0, l0 + 1, total)
      && ListCodable(present && sliceType == B, active.modifiedL1, active.entriesL1, l1 + 1, total)
      && bs == ListsBits(present, sliceType, active, total, rest)
  {
    hide TakeListEntries, ListBits, ListCodable;
    ListExact(present, l0 + 1, total, bs);
    ListExact(present && sliceType == B, l1 + 1, total, TakeListEntries(present, l0 + 1, total, bs).value.1);
  }

  lemma ActiveExact(ctx: SliceContext, sliceType: SliceType, total: nat, bs: seq<bool>) returns (override: bool)
    requires ctx.numRefIdxL0DefaultMinus1 <= MAX_REF_IDX_DEFAULT && ctx.numRefIdxL1DefaultMinus1 <= MAX_REF_IDX_DEFAULT
    requires TakeActive(ctx, sliceType, total, bs).Some?
    ensures var (active, rest) := TakeActive(ctx, sliceType, total, bs).value;
      && ActiveCodable(ctx, sliceType, active, total, override)
      && bs == ActiveBits(ctx, sliceType, active, total, override, rest)
  {
    hide TakeUeIf, UeIf, TakeListsModification, ListsBits, ListCodable;
    override := false;
    if sliceType != I {
      FlagExact(bs);
      var afterFlag: seq<bool>;
      override, afterFlag := TakeFlag(bs).value.0, TakeFlag(bs).value.1;
      var (l0, after0) := TakeUeIf(override, ctx.numRefIdxL0DefaultMinus1, afterFlag).value;
      UeIfExact(override, ctx.numRefIdxL0DefaultMinus1, afterFlag);
      var (l1, after1) := TakeUeIf(override && sliceType == B, ctx.numRefIdxL1DefaultMinus1, after0).value;
      UeIfExact(override && sliceType == B, ctx.numRefIdxL1DefaultMinus1, after0);
      ListsExact(ctx.listsModificationPresent && total > 1, sliceType, l0, l1, total, after1);
    }
  }

  // ----- The P and B fields

  lemma {:induction false} FlagListExact(acc: seq<bool>, n: nat, bs: seq<bool>)
    requires |acc| <= n && TakeFlagList(acc, n, bs).Some?
    ensures var (flags, rest) := TakeFlagList(acc, n, bs).value;
      acc <= flags && bs == flags[|acc|..] + rest
    decreases n - |acc|
  {
    var (flags, rest) := TakeFlagList(acc, n, bs).value;
    if |acc| < n {
      var (flag, tail) := TakeFlag(bs).value;
      FlagExact(bs);
      FlagListExact(acc + [flag], n, tail);
      assert flags[|acc|] == (acc + [flag])[|acc|] == flag;
      assert flags[|acc|..] == [flag] + flags[|acc + [flag]|..];
    }
  }

  lemma WeightExact(present: bool, bs: seq<bool>)
    requires TakeWeight(present, bs).Some?
    ensures var (w, rest) := TakeWeight(present, bs).value;
      && WeightInRange(present, w)
      && bs == if present then SeBits(w.delta) + (SeBits(w.offset) + rest) else rest
  {
    hide TakeSe, SeBits;
    SeIfExact(present, bs);
    SeIfExact(present, TakeSeIf(present, bs).value.1);
  }

  lemma EntryExact(luma: bool, chroma: bool, bs: seq<bool>)
    requires TakeRefWeight(luma, chroma, bs).Some?
    ensures var (w, rest) := TakeRefWeight(luma, chroma, bs).value;
      w.lumaFlag == luma && w.chromaFlag == chroma && WeightCodable(w) && bs == EntryBits(w, rest)
  {
    hide TakeWeight, WeightInRange, SeBits;
    var afterY := TakeWeight(luma, bs).value.1;
    WeightExact(luma, bs);
    var afterCb := TakeWeight(chroma, afterY).value.1;
    WeightExact(chroma, afterY);
    WeightExact(chroma, afterCb);
  }

  lemma {:induction false} WeightsExact(acc: seq<RefWeight>, luma: seq<bool>, chroma: seq<bool>, bs: seq<bool>)
    requires |acc| <= |luma| == |chroma| && TakeWeights(acc, luma, chroma, bs).Some?
    ensures var (ws, rest) := TakeWeights(acc, luma, chroma, bs).value;
      && acc <= ws && bs == WeightsBits(ws, |acc|, rest)
      && forall i :: |acc| <= i < |ws| ==>
           ws[i].lumaFlag == luma[i] && ws[i].chromaFlag == chroma[i] && WeightCodable(ws[i])
    decreases |luma| - |acc|
  {
    hide TakeRefWeight, EntryBits, WeightCodable;
    var i := |acc|;
    if i < |luma| {
      var (w, tail) := TakeRefWeight(luma[i], chroma[i], bs).value;
      EntryExact(luma[i], chroma[i], bs);
      WeightsExact(acc + [w], luma, chroma, tail);
      var ws := TakeWeights(acc, luma, chroma, bs).value.0;
      assert ws[i] == (acc + [w])[i] == w;
    }
  }

  lemma WeightListExact(ctx: SliceContext, n: nat, bs: seq<bool>)
    requires TakeWeightList(ctx, n, bs).Some?
    ensures var (ws, rest) := TakeWeightList(ctx, n, bs).value;
      WeightListCodable(ctx, ws, n) && bs == WeightListBits(ctx, ws, rest)
  {
    hide WeightCodable, TakeWeights, WeightsBits, TakeFlagList;
    var (luma, afterLuma) := TakeFlagList([], n, bs).value;
    FlagListExact([], n, bs);
    assert luma[0..] == luma;
    var chroma, afterFlags := seq(n, _ => false), afterLuma;
    if ctx.chromaArrayType != 0 {
      FlagListExact([], n, afterLuma);
      chroma, afterFlags := TakeFlagList([], n, afterLuma).value.0, TakeFlagList([], n, afterLuma).value.1;
      assert chroma[0..] == chroma;
    }
    WeightsExact([], luma, chroma, afterFlags);
    var ws := TakeWeights([], luma, chroma, afterFlags).value.0;
    assert LumaFlags(ws) == luma && ChromaFlags(ws) == chroma;
  }

  lemma WeightTableExact(ctx: SliceContext, sliceType: SliceType, active: ActiveRefs, bs: seq<bool>)
    requires TakeWeightTable(ctx, sliceType, active, bs).Some?
    ensures var (t, rest) := TakeWeightTable(ctx, sliceType, active, bs).value;
      WeightTableCodable(ctx, sliceType, active, t) && bs == WeightTableBits(ctx, sliceType, t, rest)
  {
    hide TakeUe, UeBits, TakeSeIf, SeIf, TakeWeightList, WeightListBits, WeightListCodable;
    if HasWeights(ctx, sliceType) {
      var (lumaDenom, afterLuma) := TakeUe(bs).value;
      UeExact(bs, lumaDenom, afterLuma);
      var afterChroma := TakeSeIf(ctx.chromaArrayType != 0, afterLuma).value.1;
      SeIfExact(ctx.chromaArrayType != 0, afterLuma);
      var after0 := TakeWeightList(ctx, active.l0Minus1 + 1, afterChroma).value.1;
      WeightListExact(ctx, active.l0Minus1 + 1, afterChroma);
      if sliceType == B {
        WeightListExact(ctx, active.l1Minus1 + 1, after0);
      }
    }
  }

  lemma CollocatedExact(sliceType: SliceType, temporalMvp: bool, active: ActiveRefs, bs: seq<bool>, f: InterFields)
    requires TakeCollocated(sliceType, temporalMvp, active, bs).Some?
    requires (f.collocatedFromL0, f.collocatedRefIdx) == TakeCollocated(sliceType, temporalMvp, active, bs).value.0
    ensures !(temporalMvp && sliceType == B) ==> f.collocatedFromL0
    ensures if RefIdxPresent(temporalMvp, active, f.collocatedFromL0) then f.collocatedRefIdx <= 0xFFFF_FFFE
      else f.collocatedRefIdx == 0
    ensures bs == CollocatedBits(sliceType, temporalMvp, active, f,
                                 TakeCollocated(sliceType, temporalMvp, active, bs).value.1)
  {
    hide TakeFlagIf, FlagIf, TakeUeIf, UeIf;
    FlagIfExact(temporalMvp && sliceType == B, true, bs);
    var (fromL0, tail) := TakeFlagIf(temporalMvp && sliceType == B, true, bs).value;
    UeIfExact(RefIdxPresent(temporalMvp, active, fromL0), 0, tail);
  }

  lemma InterFieldsExact(ctx: SliceContext, sliceType: SliceType, temporalMvp: bool, active: ActiveRefs, bs: seq<bool>)
    requires TakeInterFields(ctx, sliceType, temporalMvp, active, bs).Some?
    ensures var (f, rest) := TakeInterFields(ctx, sliceType, temporalMvp, active, bs).value;
      && InterCodable(ctx, sliceType, temporalMvp, active, f)
      && bs == InterBits(ctx, sliceType, temporalMvp, active, f, rest)
  {
    hide TakeFlagIf, FlagIf, TakeCollocated, CollocatedBits, TakeWeightTable, WeightTableBits, WeightTableCodable,
         TakeUe, UeBits;
    if sliceType != I {
      var f := TakeInterFields(ctx, sliceType, temporalMvp, active, bs).value.0;
      FlagIfExact(sliceType == B, false, bs);
      var afterMvd := TakeFlagIf(sliceType == B, false, bs).value.1;
      FlagIfExact(ctx.cabacInitPresent, false, afterMvd);
      var afterCabac := TakeFlagIf(ctx.cabacInitPresent, false, afterMvd).value.1;
      CollocatedExact(sliceType, temporalMvp, active, afterCabac, f);
      var afterCol := TakeCollocated(sliceType, temporalMvp, active, afterCabac).value.1;
      WeightTableExact(ctx, sliceType, active, afterCol);
      var afterWeights := TakeWeightTable(ctx, sliceType, active, afterCol).value.1;
      var (five, rest) := TakeUe(afterWeights).value;
      UeExact(afterWeights, five, rest);
    }
  }

  // ----- The filter fields

  lemma QpExact(ctx: SliceContext, bs: seq<bool>, f: FilterFields)
    requires TakeQpOffsets(ctx, bs).Some?
    requires (f.qpDelta, f.cbQpOffset, f.crQpOffset, f.cuChromaQpOffset) == TakeQpOffsets(ctx, bs).value.0
    ensures IsInt32(f.qpDelta) && (!ctx.chromaQpOffsetListEnabled ==> !f.cuChromaQpOffset)
    ensures if ctx.chromaQpOffsetsPresent then IsInt32(f.cbQpOffset) && IsInt32(f.crQpOffset)
      else f.cbQpOffset == 0 && f.crQpOffset == 0
    ensures bs == QpBits(ctx, f, TakeQpOffsets(ctx, bs).value.1)
  {
    hide TakeSe, SeBits, TakeSeIf, SeIf, TakeFlagIf, FlagIf;
    var (qpDelta, afterQp) := TakeSe(bs).value;
    SeExact(bs, qpDelta, afterQp);
    SeIfExact(ctx.chromaQpOffsetsPresent, afterQp);
    var afterCb := TakeSeIf(ctx.chromaQpOffsetsPresent, afterQp).value.1;
    SeIfExact(ctx.chromaQpOffsetsPresent, afterCb);
    FlagIfExact(ctx.chromaQpOffsetListEnabled, false, TakeSeIf(ctx.chromaQpOffsetsPresent, afterCb).value.1);
  }

  lemma DeblockingExact(ctx: SliceContext, bs: seq<bool>, f: FilterFields) returns (override: bool)
    requires TakeDeblocking(ctx, bs).Some?
    requires (f.deblockingDisabled, f.betaOffset, f.tcOffset) == TakeDeblocking(ctx, bs).value.0
    ensures (!ctx.deblockingOverrideEnabled ==> !override)
      && (!override ==> f.deblockingDisabled == ctx.ppsDeblockingDisabled)
    ensures if override && !f.deblockingDisabled then IsInt32(f.betaOffset) && IsInt32(f.tcOffset)
      else f.betaOffset == 0 && f.tcOffset == 0
    ensures bs == DeblockingBits(ctx, f, override, TakeDeblocking(ctx, bs).value.1)
  {
    hide TakeSeIf, SeIf, TakeFlagIf, FlagIf;
    override := TakeFlagIf(ctx.deblockingOverrideEnabled, false, bs).value.0;
    FlagIfExact(ctx.deblockingOverrideEnabled, false, bs);
    var afterOverride := TakeFlagIf(ctx.deblockingOverrideEnabled, false, bs).value.1;
    FlagIfExact(override, ctx.ppsDeblockingDisabled, afterOverride);
    var (disabled, afterDisabled) := TakeFlagIf(override, ctx.ppsDeblockingDisabled, afterOverride).value;
    SeIfExact(override && !disabled, afterDisabled);
    SeIfExact(override && !disabled, TakeSeIf(override && !disabled, afterDisabled).value.1);
  }

  lemma FiltersExact(ctx: SliceContext, sao: bool, bs: seq<bool>) returns (override: bool)
    requires TakeFilterFields(ctx, sao, bs).Some?
    ensures var (f, rest) := TakeFilterFields(ctx, sao, bs).value;
      FiltersCodable(ctx, sao, f, override) && bs == FilterBits(ctx, sao, f, override, rest)
  {
    hide TakeQpOffsets, QpBits, TakeDeblocking, DeblockingBits, TakeFlagIf, FlagIf;
    var f := TakeFilterFields(ctx, sao, bs).value.0;
    QpExact(ctx, bs, f);
    var afterQp := TakeQpOffsets(ctx, bs).value.1;
    override := DeblockingExact(ctx, afterQp, f);
    var ((disabled, beta, tc), tail) := TakeDeblocking(ctx, afterQp).value;
    FlagIfExact(ctx.loopFilterAcrossSlices && (sao || !disabled), false, tail);
  }

  // ----- Entry points, extension, alignment

  lemma EntryPointExact(ctx: SliceContext, bs: seq<bool>, before: Choices) returns (ch: Choices)
    requires TakeEntryPoints(ctx, bs).Some?
    ensures ch == before.(entryLenMinus1 := ch.entryLenMinus1, entryBits := ch.entryBits)
    ensures var (n, rest) := TakeEntryPoints(ctx, bs).value;
      && n <= 0x10_0000 && (!(ctx.tilesEnabled || ctx.entropySyncEnabled) ==> n == 0)
      && ch.entryLenMinus1 <= 31 && |ch.entryBits| == (if n > 0 then n * (ch.entryLenMinus1 + 1) else 0)
      && bs == EntryPointBits(ctx, n, ch, rest)
  {
    hide TakeUeIf, UeIf, TakeSkip;
    var present := ctx.tilesEnabled || ctx.entropySyncEnabled;
    var (n, afterN) := TakeUeIf(present, 0, bs).value;
    UeIfExact(present, 0, bs);
    var (len, afterLen) := TakeUeIf(n > 0, 0, afterN).value;
    UeIfExact(n > 0, 0, afterN);
    var skipped := SkipExact(if n > 0 then n * (len + 1) else 0, afterLen);
    ch := before.(entryLenMinus1 := len, entryBits := skipped);
  }

  lemma ExtensionExact(ctx: SliceContext, bs: seq<bool>, before: Choices) returns (ch: Choices)
    requires TakeExtension(ctx, bs).Some?
    ensures ch == before.(extensionLen := ch.extensionLen, extensionBits := ch.extensionBits)
    ensures ch.extensionLen <= 0xFFFF_FFFE && (!ctx.headerExtensionPresent ==> ch.extensionLen == 0)
      && |ch.extensionBits| == ch.extensionLen * 8
    ensures bs == ExtensionBits(ctx, ch, TakeExtension(ctx, bs).value)
  {
    hide TakeUeIf, UeIf, TakeSkip;
    var (n, tail) := TakeUeIf(ctx.headerExtensionPresent, 0, bs).value;
    UeIfExact(ctx.headerExtensionPresent, 0, bs);
    var skipped := SkipExact(n * 8, tail);
    ch := before.(extensionLen := n, extensionBits := skipped);
  }

  lemma AlignmentExact(bs: seq<bool>) returns (pad: nat)
    requires TakeAlignment(bs).Some?
    ensures pad < 8 && |TakeAlignment(bs).value| % 8 == 0
    ensures bs == AlignmentBits(pad, TakeAlignment(bs).value)
  {
    pad := (|bs| - 1) % 8;
    assert bs[1..1 + pad] == Zeros(pad);
    assert bs == [true] + (bs[1..1 + pad] + bs[1 + pad..]);
  }

  lemma EndExact(ctx: SliceContext, sao: bool, bs: seq<bool>, h: SliceHeader, before: Choices)
    returns (ch: Choices, pad: nat)
    requires TakeEnd(ctx, sao, bs).Some? && (h.filters, h.numEntryPoints) == TakeEnd(ctx, sao, bs).value.0
    ensures ch == before.(overrideDeblocking := ch.overrideDeblocking, entryLenMinus1 := ch.entryLenMinus1,
                          entryBits := ch.entryBits, extensionLen := ch.extensionLen,
                          extensionBits := ch.extensionBits)
    ensures FiltersCodable(ctx, sao, h.filters, ch.overrideDeblocking) && EndCodable(ctx, h.numEntryPoints, ch)
    ensures var data := TakeEnd(ctx, sao, bs).value.1;
      pad < 8 && |data| % 8 == 0 && bs == EndBits(ctx, sao, h, ch, pad, data)
  {
    hide TakeFilterFields, FilterBits, FiltersCodable, TakeEntryPoints, TakeExtension, TakeAlignment, AlignmentBits,
         UeIf;
    var override := FiltersExact(ctx, sao, bs);
    var afterFilters := TakeFilterFields(ctx, sao, bs).value.1;
    ch := EntryPointExact(ctx, afterFilters, before.(overrideDeblocking := override));
    var afterEntries := TakeEntryPoints(ctx, afterFilters).value.1;
    ch := ExtensionExact(ctx, afterEntries, ch);
    pad := AlignmentExact(TakeExtension(ctx, afterEntries).value);
  }

  // ----- The header

  lemma TopExact(ctx: SliceContext, bs: seq<bool>, h: SliceHeader, before: Choices) returns (ch: Choices)
    requires TakeTop(ctx, bs).Some? && (h.sliceType, h.picOutput, h.colourPlane) == TakeTop(ctx, bs).value.0
    ensures ch == before.(reserved := ch.reserved)
    ensures |ch.reserved| == ctx.numExtraSliceHeaderBits && (!ctx.outputFlagPresent ==> h.picOutput)
    ensures if ctx.separateColourPlane then h.colourPlane < 4 else h.colourPlane == 0
    ensures bs == TopBits(ctx, h, ch, TakeTop(ctx, bs).value.1)
  {
    hide TakeUe, UeBits, TakeFlagIf, FlagIf, TakeUIf, UIf, TakeSkip;
    var reserved := SkipExact(ctx.numExtraSliceHeaderBits, bs);
    ch := before.(reserved := reserved);
    var afterReserved := TakeSkip(ctx.numExtraSliceHeaderBits, bs).value;
    var (code, afterCode) := TakeUe(afterReserved).value;
    UeExact(afterReserved, code, afterCode);
    FlagIfExact(ctx.outputFlagPresent, true, afterCode);
    assert Pow2(2) == 4;
    UIfExact(ctx.separateColourPlane, 2, TakeFlagIf(ctx.outputFlagPresent, true, afterCode).value.1);
  }

  lemma SaoExact(ctx: SliceContext, bs: seq<bool>, h: SliceHeader)
    requires TakeSao(ctx, bs).Some? && (h.saoLuma, h.saoChroma) == TakeSao(ctx, bs).value.0
    ensures !ctx.saoEnabled ==> !h.saoLuma
    ensures !(ctx.saoEnabled && ctx.chromaArrayType != 0) ==> !h.saoChroma
    ensures bs == SaoBits(ctx, h, TakeSao(ctx, bs).value.1)
  {
    hide TakeFlagIf, FlagIf;
    FlagIfExact(ctx.saoEnabled, false, bs);
    FlagIfExact(ctx.saoEnabled && ctx.chromaArrayType != 0, false, TakeFlagIf(ctx.saoEnabled, false, bs).value.1);
  }

  lemma AddressExact(ctx: SliceContext, bs: seq<bool>, first: bool)
    requires TakeAddress(ctx, first, bs).Some?
    ensures var ((dependent, address), rest) := TakeAddress(ctx, first, bs).value;
      && (if first then address == 0 && !dependent else address < ctx.picSizeInCtbs)
      && (dependent ==> ctx.dependentSlicesEnabled)
      && bs == if first then rest
               else FlagIf(ctx.dependentSlicesEnabled, dependent,
                           FromNat(address, CeilLog2Of(ctx.picSizeInCtbs)) + rest)
  {
    hide TakeFlagIf, FlagIf, TakeU, FromNat, CeilLog2Of;
    if !first {
      var (dependent, tail) := TakeFlagIf(ctx.dependentSlicesEnabled, false, bs).value;
      FlagIfExact(ctx.dependentSlicesEnabled, false, bs);
      UExact(CeilLog2Of(ctx.picSizeInCtbs), tail);
    }
  }

  lemma SameTop(ctx: SliceContext, h: SliceHeader, a: Choices, b: Choices, rest: seq<bool>)
    requires a.reserved == b.reserved
    ensures TopBits(ctx, h, a, rest) == TopBits(ctx, h, b, rest)
  {
    hide FlagIf, UIf, UeBits;
  }

  /** The choices in the reference information have no part in the end of the header. */
  lemma SameEnd(ctx: SliceContext, h: SliceHeader, a: Choices, b: Choices, pad: nat, data: seq<bool>)
    requires b == a.(rps := b.rps, numLtSps := b.numLtSps, ltIdx := b.ltIdx)
    ensures EndBits(ctx, h.saoLuma || h.saoChroma, h, a, pad, data)
      == EndBits(ctx, h.saoLuma || h.saoChroma, h, b, pad, data)
    ensures EndCodable(ctx, h.numEntryPoints, a) <==> EndCodable(ctx, h.numEntryPoints, b)
  {
    hide FilterBits, UeIf, AlignmentBits;
  }

  /** From the slice type to the slice data. */
  lemma BodyExact(ctx: SliceContext, nalType: nat, bs: seq<bool>, h: SliceHeader, before: Choices)
    returns (ch: Choices, pad: nat)
    requires ctx.Valid() && TakeBody(ctx, nalType, bs).Some? && Bare(h) == TakeBody(ctx, nalType, bs).value.0
    ensures BodyCodable(ctx, nalType, h, ch)
    ensures var data := TakeBody(ctx, nalType, bs).value.1;
      && pad < 8 && |data| % 8 == 0
      && bs == BodyBits(ctx, nalType, h, ch, pad, data)
  {
    hide TakeTop, TopBits, TakeReferences, ReferencesBits, LongTermCodable, RpsRoundTrip.Codes, SliceRpsCodable,
         TakeSao, SaoBits, TakeActive, ActiveBits, ActiveCodable, TakeInterFields, InterBits, InterCodable, TakeEnd,
         EndBits, EndCodable, ReferencesCodable, FiltersCodable, IsIdr, NumPicTotalCurr;
    Classes(nalType);
    var afterTop := TakeTop(ctx, bs).value.1;
    var afterRefs := TakeReferences(ctx, IsIdr(nalType), afterTop).value.1;
    var afterSao := TakeSao(ctx, afterRefs).value.1;
    var (active, afterActive) := TakeActive(ctx, h.sliceType, h.numPicTotalCurr, afterSao).value;
    var afterInter := TakeInterFields(ctx, h.sliceType, h.refs.temporalMvp, active, afterActive).value.1;
    var top := TopExact(ctx, bs, h, before);
    SaoExact(ctx, afterRefs, h);
    var override := ActiveExact(ctx, h.sliceType, h.numPicTotalCurr, afterSao);
    InterFieldsExact(ctx, h.sliceType, h.refs.temporalMvp, active, afterActive);
    var end: Choices;
    end, pad := EndExact(ctx, h.saoLuma || h.saoChroma, afterInter, h, top.(overrideActive := override));
    ch := ReferencesExact(ctx, IsIdr(nalType), afterTop, end);
    SameTop(ctx, h, top, ch, afterTop);
    SameEnd(ctx, h, end, ch, pad, TakeEnd(ctx, h.saoLuma || h.saoChroma, afterInter).value.1);
  }

  /** Whether a coded independent header stands at the start of these bits, `data` behind it. */
  ghost predicate Stands(ctx: SliceContext, nalType: nat, bs: seq<bool>, h: SliceHeader, ch: Choices, pad: nat,
                         data: seq<bool>)
    requires |ctx.ltUsedSps| == |ctx.ltPocLsbSps|
  {
    && HeaderCodable(ctx, nalType, h, ch) && pad < 8 && |data| % 8 == 0
    && bs == HeaderBits(ctx, nalType, h, ch, pad, data)
    && h.dataBitOffset == |bs| - |data|
  }

  lemma HeaderFound(ctx: SliceContext, nalType: nat, bs: seq<bool>) returns (ch: Choices, pad: nat, data: seq<bool>)
    requires ctx.Valid()
    requires HeaderOf(ctx, nalType, bs).Some? && !HeaderOf(ctx, nalType, bs).value.dependent
    ensures Stands(ctx, nalType, bs, HeaderOf(ctx, nalType, bs).value, ch, pad, data)
  {
    hide TakeBody, BodyBits, BodyCodable, TakeAddress, TakeFlagIf, FlagIf, TakeUe, UeBits, FromNat, CeilLog2Of,
         IsIrap;
    Classes(nalType);
    var h := HeaderOf(ctx, nalType, bs).value;
    var (first, afterFirst) := TakeFlag(bs).value;
    FlagExact(bs);
    var afterOutput := TakeFlagIf(IsIrap(nalType), false, afterFirst).value.1;
    FlagIfExact(IsIrap(nalType), false, afterFirst);
    var (ppsId, afterId) := TakeUe(afterOutput).value;
    UeExact(afterOutput, ppsId, afterId);
    var body := TakeAddress(ctx, first, afterId).value.1;
    AddressExact(ctx, afterId, first);
    data := TakeBody(ctx, nalType, body).value.1;
    var anyChoices := Choices([], Inline([]), 0, [], false, false, 0, [], 0, []);
    BodyBare(ctx, nalType, body);
    ch, pad := BodyExact(ctx, nalType, body, h, anyChoices);
  }

  lemma BodyBare(ctx: SliceContext, nalType: nat, bs: seq<bool>)
    requires ctx.Valid() && TakeBody(ctx, nalType, bs).Some?
    ensures var h := TakeBody(ctx, nalType, bs).value.0; h == Bare(h) && !h.dependent
  {
    hide TakeTop, TakeReferences, TakeSao, TakeActive, TakeInterFields, TakeEnd, IsIdr, NumPicTotalCurr;
  }

  /**
   * The parser accepts exactly the headers that can be coded: an independent
   * header is the result if and only if its fields, coded with some choices,
   * stand at the start of the bits, with its slice data right behind.
   */
  lemma HeaderExact(ctx: SliceContext, nalType: nat, bs: seq<bool>, h: SliceHeader)
    requires ctx.Valid()
    ensures HeaderOf(ctx, nalType, bs) == Some(h) && !h.dependent
      <==> exists ch, pad, data :: Stands(ctx, nalType, bs, h, ch, pad, data)
  {
    hide HeaderOf, HeaderBits, BodyCodable;
    if HeaderOf(ctx, nalType, bs) == Some(h) && !h.dependent {
      var ch, pad, data := HeaderFound(ctx, nalType, bs);
    }
    if ch, pad, data :| Stands(ctx, nalType, bs, h, ch, pad, data) {
      HeaderReadBack(ctx, nalType, h, ch, pad, data);
    }
  }

  /**
   * A dependent segment is accepted exactly where the PPS allows it: only the
   * flags, the PPS id and the address are read, the rest takes its default.
   */
  lemma DependentExact(ctx: SliceContext, nalType: nat, bs: seq<bool>, h: SliceHeader)
    requires ctx.Valid()
    ensures HeaderOf(ctx, nalType, bs) == Some(h) && h.dependent
      <==> exists rest :: DependentStands(ctx, nalType, bs, h, rest)
  {
    hide TakeBody, TakeFlagIf, FlagIf, TakeU, FromNat, TakeUe, UeBits, CeilLog2Of, IsIrap, DependentHeader;
    if HeaderOf(ctx, nalType, bs) == Some(h) && h.dependent {
      var rest := DependentFound(ctx, nalType, bs);
    }
    if rest :| DependentStands(ctx, nalType, bs, h, rest) {
      DependentReadBack(ctx, nalType, bs, h, rest);
    }
  }

  ghost predicate DependentStands(ctx: SliceContext, nalType: nat, bs: seq<bool>, h: SliceHeader, rest: seq<bool>) {
    && ctx.dependentSlicesEnabled && h.address < ctx.picSizeInCtbs && h.ppsId <= 0xFFFF_FFFE
    && (!(16 <= nalType <= 23) ==> !h.noOutputOfPriorPics)
    && h == DependentHeader(false, h.noOutputOfPriorPics, h.ppsId, h.address)
    && bs == [false] + FlagIf(16 <= nalType <= 23, h.noOutputOfPriorPics,
         UeBits(h.ppsId) + ([true] + (FromNat(h.address, CeilLog2Of(ctx.picSizeInCtbs)) + rest)))
  }

  lemma DependentFound(ctx: SliceContext, nalType: nat, bs: seq<bool>) returns (rest: seq<bool>)
    requires ctx.Valid()
    requires HeaderOf(ctx, nalType, bs).Some? && HeaderOf(ctx, nalType, bs).value.dependent
    ensures DependentStands(ctx, nalType, bs, HeaderOf(ctx, nalType, bs).value, rest)
  {
    hide TakeBody, TakeAddress, TakeFlagIf, TakeUe, UeBits, FromNat, CeilLog2Of, IsIrap;
    Classes(nalType);
    var (first, afterFirst) := TakeFlag(bs).value;
    FlagExact(bs);
    var afterOutput := TakeFlagIf(IsIrap(nalType), false, afterFirst).value.1;
    FlagIfExact(IsIrap(nalType), false, afterFirst);
    var (ppsId, afterId) := TakeUe(afterOutput).value;
    UeExact(afterOutput, ppsId, afterId);
    var ((dependent, address), tail) := TakeAddress(ctx, first, afterId).value;
    AddressExact(ctx, afterId, first);
    if !dependent {
      BodyBare(ctx, nalType, tail);
    }
    rest := tail;
  }

  lemma DependentReadBack(ctx: SliceContext, nalType: nat, bs: seq<bool>, h: SliceHeader, rest: seq<bool>)
    requires ctx.Valid() && DependentStands(ctx, nalType, bs, h, rest)
    ensures HeaderOf(ctx, nalType, bs) == Some(h) && h.dependent
  {
    hide TakeBody, TakeFlagIf, FlagIf, TakeU, FromNat, TakeUe, UeBits, CeilLog2Of, IsIrap;
    Classes(nalType);
    var width := CeilLog2Of(ctx.picSizeInCtbs);
    var addressBits := FromNat(h.address, width) + rest;
    FlagReadBack(false, FlagIf(IsIrap(nalType), h.noOutputOfPriorPics, UeBits(h.ppsId) + ([true] + addressBits)));
    FlagIfReadBack(IsIrap(nalType), false, h.noOutputOfPriorPics, UeBits(h.ppsId) + ([true] + addressBits));
    UeRoundTrip(h.ppsId, [true] + addressBits);
    DependentFlag(addressBits);
    IndexFits(ctx.picSizeInCtbs, h.address);
    TakeUBits(h.address, width, rest);
  }

  lemma DependentFlag(rest: seq<bool>)
    ensures TakeFlagIf(true, false, [true] + rest) == Some((true, rest))
  {
  }
}
