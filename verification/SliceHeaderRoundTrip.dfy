/**
 * Slice segment headers written and read back, section 7.3.6 of ITU-T H.265:
 * whatever choices an encoder has in coding a header, the parser recovers
 * every field of it and finds the slice data right behind it.
 */
module SliceHeaderRoundTrip {
  import opened Wrappers
  import opened Bits
  import opened NalTypes
  import opened ShortTermRpsSets
  import opened DpbMachine
  import opened SliceHeaders
  import opened RpsRoundTrip

  /** The short-term set by SPS index, or inline in any form that codes it. */
  datatype RpsCoding = FromSps(idx: nat) | Inline(bits: seq<bool>)

  /** What the header itself leaves open to its encoder. */
  datatype Choices = Choices(
    reserved: seq<bool>,
    rps: RpsCoding,
    numLtSps: nat,
    ltIdx: seq<nat>,
    overrideActive: bool,
    overrideDeblocking: bool,
    entryLenMinus1: nat,
    entryBits: seq<bool>,
    extensionLen: nat,
    extensionBits: seq<bool>)

  // ----- Optional fields

  function FlagIf(present: bool, b: bool, rest: seq<bool>): seq<bool> {
    if present then [b] + rest else rest
  }

  function UIf(present: bool, n: nat, v: nat, rest: seq<bool>): seq<bool> {
    if present then FromNat(v, n) + rest else rest
  }

  function UeIf(present: bool, v: nat, rest: seq<bool>): seq<bool> {
    if present then UeBits(v) + rest else rest
  }

  function SeIf(present: bool, v: int, rest: seq<bool>): seq<bool> {
    if present then SeBits(v) + rest else rest
  }

  predicate IsInt32(v: int) {
    -0x8000_0000 < v < 0x8000_0000
  }

  lemma FlagReadBack(b: bool, rest: seq<bool>)
    ensures TakeFlag([b] + rest) == Some((b, rest))
  {
  }

  lemma FlagIfReadBack(present: bool, absent: bool, b: bool, rest: seq<bool>)
    requires !present ==> b == absent
    ensures TakeFlagIf(present, absent, FlagIf(present, b, rest)) == Some((b, rest))
  {
    FlagReadBack(b, rest);
  }

  lemma UIfReadBack(present: bool, n: nat, v: nat, rest: seq<bool>)
    requires if present then v < Pow2(n) else v == 0
    ensures TakeUIf(present, n, UIf(present, n, v, rest)) == Some((v, rest))
  {
    if present {
      TakeUBits(v, n, rest);
    }
  }

  lemma UeIfReadBack(present: bool, absent: nat, v: nat, rest: seq<bool>)
    requires if present then v <= MAX_UE else v == absent
    ensures TakeUeIf(present, absent, UeIf(present, v, rest)) == Some((v, rest))
  {
    hide TakeUe, UeBits;
    if present {
      UeRoundTrip(v, rest);
    }
  }

  lemma SeIfReadBack(present: bool, v: int, rest: seq<bool>)
    requires if present then IsInt32(v) else v == 0
    ensures TakeSeIf(present, SeIf(present, v, rest)) == Some((v, rest))
  {
    hide TakeSe, SeBits;
    if present {
      SeRoundTrip(v, rest);
    }
  }

  // ----- Long-term references

  /** lt_idx_sps, or the POC LSBs and the used flag in full. */
  function LtPocBits(ctx: SliceContext, lt: LongTermRef, fromSps: bool, idx: nat, rest: seq<bool>): seq<bool> {
    if fromSps then UIf(|ctx.ltPocLsbSps| > 1, CeilLog2Of(|ctx.ltPocLsbSps|), idx, rest)
    else FromNat(lt.pocLsb, ctx.log2MaxPocLsb) + ([lt.usedByCurr] + rest)
  }

  /** The cycle an entry adds to: zero where a group starts. */
  function CycleBase(lts: seq<LongTermRef>, numSps: nat, i: nat): nat
    requires i < |lts|
  {
    if i == 0 || i == numSps then 0 else lts[i - 1].msbCycle
  }

  function LtRefBits(ctx: SliceContext, lts: seq<LongTermRef>, numSps: nat, idx: seq<nat>, i: nat, rest: seq<bool>)
    : seq<bool>
    requires i < |lts| && (i < numSps ==> i < |idx|) && CycleBase(lts, numSps, i) <= lts[i].msbCycle
  {
    LtPocBits(ctx, lts[i], i < numSps, if i < numSps then idx[i] else 0,
      [lts[i].msbPresent] + UeIf(lts[i].msbPresent, lts[i].msbCycle - CycleBase(lts, numSps, i), rest))
  }

  predicate LtRefCodable(ctx: SliceContext, lts: seq<LongTermRef>, numSps: nat, idx: seq<nat>, i: nat)
    requires |ctx.ltUsedSps| == |ctx.ltPocLsbSps|
    requires i < |lts|
  {
    var lt, base := lts[i], CycleBase(lts, numSps, i);
    && (if i < numSps then
          && i < |idx| && idx[i] < |ctx.ltPocLsbSps|
          && lt.pocLsb == ctx.ltPocLsbSps[idx[i]] && lt.usedByCurr == ctx.ltUsedSps[idx[i]]
        else lt.pocLsb < Pow2(ctx.log2MaxPocLsb))
    && base <= lt.msbCycle <= 0xFFFF && (!lt.msbPresent ==> lt.msbCycle == base)
  }

  predicate LtRefsCodable(ctx: SliceContext, lts: seq<LongTermRef>, numSps: nat, idx: seq<nat>)
    requires |ctx.ltUsedSps| == |ctx.ltPocLsbSps|
  {
    forall i :: 0 <= i < |lts| ==> LtRefCodable(ctx, lts, numSps, idx, i)
  }

  function LtRefsBits(ctx: SliceContext, lts: seq<LongTermRef>, numSps: nat, idx: seq<nat>, i: nat, rest: seq<bool>)
    : seq<bool>
    requires |ctx.ltUsedSps| == |ctx.ltPocLsbSps|
    requires i <= |lts| && LtRefsCodable(ctx, lts, numSps, idx)
    decreases |lts| - i
  {
    if i == |lts| then rest
    else
      assert LtRefCodable(ctx, lts, numSps, idx, i);
      LtRefBits(ctx, lts, numSps, idx, i, LtRefsBits(ctx, lts, numSps, idx, i + 1, rest))
  }

  lemma IndexFits(n: nat, idx: nat)
    requires idx < n
    ensures idx < Pow2(CeilLog2Of(n)) && (n <= 1 ==> idx == 0)
  {
  }

  lemma LtPocReadBack(ctx: SliceContext, lts: seq<LongTermRef>, numSps: nat, idx: seq<nat>, i: nat, rest: seq<bool>)
    requires |ctx.ltUsedSps| == |ctx.ltPocLsbSps| && i < |lts| && LtRefCodable(ctx, lts, numSps, idx, i)
    ensures TakeLtPoc(ctx, i < numSps, LtPocBits(ctx, lts[i], i < numSps, if i < numSps then idx[i] else 0, rest))
      == Some(((lts[i].pocLsb, lts[i].usedByCurr), rest))
  {
    hide TakeU, FromNat, CeilLog2Of;
    if i < numSps {
      var n := |ctx.ltPocLsbSps|;
      IndexFits(n, idx[i]);
      UIfReadBack(n > 1, CeilLog2Of(n), idx[i], rest);
    } else {
      TakeUBits(lts[i].pocLsb, ctx.log2MaxPocLsb, [lts[i].usedByCurr] + rest);
      FlagReadBack(lts[i].usedByCurr, rest);
    }
  }

  lemma LtRefReadBack(ctx: SliceContext, lts: seq<LongTermRef>, numSps: nat, idx: seq<nat>, i: nat, rest: seq<bool>)
    requires |ctx.ltUsedSps| == |ctx.ltPocLsbSps| && i < |lts| && LtRefCodable(ctx, lts, numSps, idx, i)
    ensures TakeLongTermRef(ctx, i, numSps, LastCycle(lts[..i]), LtRefBits(ctx, lts, numSps, idx, i, rest))
      == Some((lts[i], rest))
  {
    hide TakeLtPoc, LtPocBits, TakeUe, UeBits;
    var lt, delta := lts[i], lts[i].msbCycle - CycleBase(lts, numSps, i);
    var tail := UeIf(lt.msbPresent, delta, rest);
    LtPocReadBack(ctx, lts, numSps, idx, i, [lt.msbPresent] + tail);
    FlagReadBack(lt.msbPresent, tail);
    if lt.msbPresent {
      UeRoundTrip(delta, rest);
    }
    if i > 0 {
      assert LastCycle(lts[..i]) == lts[i - 1].msbCycle;
    }
  }

  lemma {:induction false} LtRefsReadBack(
    ctx: SliceContext, lts: seq<LongTermRef>, numSps: nat, idx: seq<nat>, i: nat, rest: seq<bool>)
    requires |ctx.ltUsedSps| == |ctx.ltPocLsbSps| && i <= |lts| && LtRefsCodable(ctx, lts, numSps, idx)
    ensures TakeLongTermRefs(ctx, lts[..i], numSps, |lts|, LtRefsBits(ctx, lts, numSps, idx, i, rest))
      == Some((lts, rest))
    decreases |lts| - i
  {
    hide TakeLongTermRef, LtRefBits, LtRefCodable;
    if i == |lts| {
      assert lts[..i] == lts;
    } else {
      assert LtRefCodable(ctx, lts, numSps, idx, i);
      LtRefReadBack(ctx, lts, numSps, idx, i, LtRefsBits(ctx, lts, numSps, idx, i + 1, rest));
      LtRefsReadBack(ctx, lts, numSps, idx, i + 1, rest);
      assert lts[..i] + [lts[i]] == lts[..i + 1];
    }
  }

  /**
   * A long-term reference coded by the distance of its POC's MSBs is read back
   * and resolved to its true POC, however many cycles away.
   */
  lemma LongTermCodedExactly(ctx: SliceContext, lts: seq<LongTermRef>, numSps: nat, idx: seq<nat>, rest: seq<bool>,
                             i: nat, poc: int, truePoc: int)
    requires |ctx.ltUsedSps| == |ctx.ltPocLsbSps| && LtRefsCodable(ctx, lts, numSps, idx) && i < |lts|
    requires var maxLsb := Pow2(ctx.log2MaxPocLsb);
      && lts[i].msbPresent && lts[i].pocLsb == truePoc % maxLsb
      && lts[i].msbCycle == poc / maxLsb - truePoc / maxLsb
    ensures var read := TakeLongTermRefs(ctx, [], numSps, |lts|, LtRefsBits(ctx, lts, numSps, idx, 0, rest));
      && read.Some? && |read.value.0| == |lts|
      && LongTermPoc(read.value.0[i], poc, Pow2(ctx.log2MaxPocLsb)) == truePoc
  {
    LtRefsReadBack(ctx, lts, numSps, idx, 0, rest);
    assert lts[..0] == [];
    LongTermPocExact(lts[i], poc, truePoc, Pow2(ctx.log2MaxPocLsb));
  }

  // ----- Reference information

  predicate LongTermCodable(ctx: SliceContext, lts: seq<LongTermRef>, ch: Choices)
    requires |ctx.ltUsedSps| == |ctx.ltPocLsbSps|
  {
    if !ctx.longTermPresent then lts == []
    else
      && ch.numLtSps <= |ctx.ltPocLsbSps| && ch.numLtSps <= |lts| <= 48
      && |lts| - ch.numLtSps <= 16
      && LtRefsCodable(ctx, lts, ch.numLtSps, ch.ltIdx)
  }

  function LongTermBits(ctx: SliceContext, lts: seq<LongTermRef>, ch: Choices, rest: seq<bool>): seq<bool>
    requires |ctx.ltUsedSps| == |ctx.ltPocLsbSps| && LongTermCodable(ctx, lts, ch)
  {
    if !ctx.longTermPresent then rest
    else
      UeIf(|ctx.ltPocLsbSps| > 0, ch.numLtSps,
        UeBits(|lts| - ch.numLtSps) + LtRefsBits(ctx, lts, ch.numLtSps, ch.ltIdx, 0, rest))
  }

  lemma LongTermReadBack(ctx: SliceContext, lts: seq<LongTermRef>, ch: Choices, rest: seq<bool>)
    requires |ctx.ltUsedSps| == |ctx.ltPocLsbSps| && LongTermCodable(ctx, lts, ch)
    ensures TakeLongTerm(ctx, LongTermBits(ctx, lts, ch, rest)) == Some((lts, rest))
  {
    hide TakeUe, UeBits, TakeLongTermRefs, LtRefsBits, LtRefsCodable, TakeUeIf, UeIf;
    if ctx.longTermPresent {
      var refBits := LtRefsBits(ctx, lts, ch.numLtSps, ch.ltIdx, 0, rest);
      UeIfReadBack(|ctx.ltPocLsbSps| > 0, 0, ch.numLtSps, UeBits(|lts| - ch.numLtSps) + refBits);
      UeRoundTrip(|lts| - ch.numLtSps, refBits);
      LtRefsReadBack(ctx, lts, ch.numLtSps, ch.ltIdx, 0, rest);
      assert lts[..0] == [];
    }
  }

  function SliceRpsBits(ctx: SliceContext, coding: RpsCoding, rest: seq<bool>): seq<bool> {
    match coding
    case FromSps(idx) => [true] + UIf(|ctx.shortTermRps| > 1, CeilLog2Of(|ctx.shortTermRps|), idx, rest)
    case Inline(bits) => [false] + (bits + rest)
  }

  ghost predicate SliceRpsCodable(ctx: SliceContext, rps: ShortTermRps, rpsBits: int, coding: RpsCoding) {
    var n := |ctx.shortTermRps|;
    match coding
    case FromSps(idx) =>
      && rpsBits == 0
      && (if n == 0 then idx == 0 && rps == ShortTermRps([], []) else idx < n && rps == ctx.shortTermRps[idx])
    case Inline(bits) => rpsBits == |bits| && Codes(bits, rps, n, n, ctx.shortTermRps)
  }

  lemma SliceRpsReadBack(ctx: SliceContext, rps: ShortTermRps, rpsBits: int, coding: RpsCoding, rest: seq<bool>)
    requires SliceRpsCodable(ctx, rps, rpsBits, coding)
    ensures TakeSliceRps(ctx, SliceRpsBits(ctx, coding, rest)) == Some(((rps, rpsBits), rest))
  {
    hide TakeRps, CeilLog2Of, TakeUIf, UIf;
    var n := |ctx.shortTermRps|;
    match coding
    case FromSps(idx) =>
      if n > 0 {
        IndexFits(n, idx);
      }
      UIfReadBack(n > 1, CeilLog2Of(n), idx, rest);
      FlagReadBack(true, UIf(n > 1, CeilLog2Of(n), idx, rest));
    case Inline(bits) =>
      FlagReadBack(false, bits + rest);
      assert TakeRps(n, n, ctx.shortTermRps, bits + rest) == Some((rps, rest));
  }

  function ReferencesBits(ctx: SliceContext, refs: ReferenceInfo, ch: Choices, idr: bool, rest: seq<bool>): seq<bool>
    requires |ctx.ltUsedSps| == |ctx.ltPocLsbSps| && LongTermCodable(ctx, refs.longTerm, ch)
  {
    if idr then rest
    else
      FromNat(refs.pocLsb, ctx.log2MaxPocLsb)
        + SliceRpsBits(ctx, ch.rps,
            LongTermBits(ctx, refs.longTerm, ch, FlagIf(ctx.temporalMvpEnabled, refs.temporalMvp, rest)))
  }

  ghost predicate ReferencesCodable(ctx: SliceContext, refs: ReferenceInfo, ch: Choices, idr: bool)
    requires |ctx.ltUsedSps| == |ctx.ltPocLsbSps|
  {
    && LongTermCodable(ctx, refs.longTerm, ch)
    && if idr then refs == NO_REFERENCES
       else
         && refs.pocLsb < Pow2(ctx.log2MaxPocLsb)
         && SliceRpsCodable(ctx, refs.rps, refs.rpsBits, ch.rps)
         && (!ctx.temporalMvpEnabled ==> !refs.temporalMvp)
  }

  lemma ReferencesReadBack(ctx: SliceContext, refs: ReferenceInfo, ch: Choices, idr: bool, rest: seq<bool>)
    requires |ctx.ltUsedSps| == |ctx.ltPocLsbSps| && ReferencesCodable(ctx, refs, ch, idr)
    ensures TakeReferences(ctx, idr, ReferencesBits(ctx, refs, ch, idr, rest)) == Some((refs, rest))
  {
    hide TakeU, FromNat, TakeSliceRps, SliceRpsBits, SliceRpsCodable, TakeLongTerm, LongTermBits, LongTermCodable,
         TakeFlagIf, FlagIf;
    if !idr {
      var mvpBits := FlagIf(ctx.temporalMvpEnabled, refs.temporalMvp, rest);
      var ltBits := LongTermBits(ctx, refs.longTerm, ch, mvpBits);
      TakeUBits(refs.pocLsb, ctx.log2MaxPocLsb, SliceRpsBits(ctx, ch.rps, ltBits));
      SliceRpsReadBack(ctx, refs.rps, refs.rpsBits, ch.rps, ltBits);
      LongTermReadBack(ctx, refs.longTerm, ch, mvpBits);
      FlagIfReadBack(ctx.temporalMvpEnabled, false, refs.temporalMvp, rest);
    }
  }

  // ----- Active references

  function EntriesBits(entries: seq<nat>, total: nat, rest: seq<bool>): seq<bool>
    decreases entries
  {
    if entries == [] then rest
    else FromNat(entries[0], CeilLog2Of(total)) + EntriesBits(entries[1..], total, rest)
  }

  lemma {:induction false} EntriesReadBack(acc: seq<nat>, entries: seq<nat>, total: nat, rest: seq<bool>)
    requires forall i :: 0 <= i < |entries| ==> entries[i] < total
    ensures TakeEntries(acc, |acc| + |entries|, total, EntriesBits(entries, total, rest)) == Some((acc + entries, rest))
    decreases entries
  {
    hide TakeU, FromNat, CeilLog2Of;
    if entries == [] {
      assert acc + entries == acc;
    } else {
      IndexFits(total, entries[0]);
      TakeUBits(entries[0], CeilLog2Of(total), EntriesBits(entries[1..], total, rest));
      EntriesReadBack(acc + [entries[0]], entries[1..], total, rest);
      assert acc + [entries[0]] + entries[1..] == acc + entries;
    }
  }

  function ListBits(present: bool, modified: bool, entries: seq<nat>, total: nat, rest: seq<bool>): seq<bool> {
    FlagIf(present, modified, if modified then EntriesBits(entries, total, rest) else rest)
  }

  predicate ListCodable(present: bool, modified: bool, entries: seq<nat>, n: nat, total: nat) {
    && (!present ==> !modified)
    && (if modified then |entries| == n && forall i :: 0 <= i < n ==> entries[i] < total else entries == [])
  }

  lemma ListReadBack(present: bool, modified: bool, entries: seq<nat>, n: nat, total: nat, rest: seq<bool>)
    requires ListCodable(present, modified, entries, n, total)
    ensures TakeListEntries(present, n, total, ListBits(present, modified, entries, total, rest))
      == Some(((modified, entries), rest))
  {
    hide TakeEntries, EntriesBits, TakeFlagIf, FlagIf;
    FlagIfReadBack(present, false, modified, if modified then EntriesBits(entries, total, rest) else rest);
    if modified {
      EntriesReadBack([], entries, total, rest);
      assert [] + entries == entries;
    }
  }

  predicate ActiveCodable(ctx: SliceContext, sliceType: SliceType, active: ActiveRefs, total: nat, override: bool) {
    var d0, d1 := ctx.numRefIdxL0DefaultMinus1, ctx.numRefIdxL1DefaultMinus1;
    if sliceType == I then active == ActiveRefs(d0, d1, false, false, [], [])
    else
      && active.l0Minus1 <= 14 && active.l1Minus1 <= 14
      && (!override ==> active.l0Minus1 == d0)
      && (!(override && sliceType == B) ==> active.l1Minus1 == d1)
      && var present := ctx.listsModificationPresent && total > 1;
        && ListCodable(present, active.modifiedL0, active.entriesL0, active.l0Minus1 + 1, total)
        && ListCodable(present && sliceType == B, active.modifiedL1, active.entriesL1, active.l1Minus1 + 1, total)
  }

  function ListsBits(present: bool, sliceType: SliceType, active: ActiveRefs, total: nat, rest: seq<bool>): seq<bool> {
    ListBits(present, active.modifiedL0, active.entriesL0, total,
      ListBits(present && sliceType == B, active.modifiedL1, active.entriesL1, total, rest))
  }

  function ActiveBits(ctx: SliceContext, sliceType: SliceType, active: ActiveRefs, total: nat, override: bool,
                      rest: seq<bool>): seq<bool> {
    if sliceType == I then rest
    else
      [override]
        + UeIf(override, active.l0Minus1,
            UeIf(override && sliceType == B, active.l1Minus1,
              ListsBits(ctx.listsModificationPresent && total > 1, sliceType, active, total, rest)))
  }

  lemma ListsReadBack(present: bool, sliceType: SliceType, active: ActiveRefs, total: nat, rest: seq<bool>)
    requires ListCodable(present, active.modifiedL0, active.entriesL0, active.l0Minus1 + 1, total)
    requires ListCodable(present && sliceType == B, active.modifiedL1, active.entriesL1, active.l1Minus1 + 1, total)
    ensures TakeListsModification(present, sliceType, active.l0Minus1, active.l1Minus1, total,
                                  ListsBits(present, sliceType, active, total, rest))
      == Some((active, rest))
  {
    hide TakeListEntries, ListBits, ListCodable;
    var bits1 := ListBits(present && sliceType == B, active.modifiedL1, active.entriesL1, total, rest);
    ListReadBack(present, active.modifiedL0, active.entriesL0, active.l0Minus1 + 1, total, bits1);
    ListReadBack(present && sliceType == B, active.modifiedL1, active.entriesL1, active.l1Minus1 + 1, total, rest);
  }

  lemma ActiveReadBack(ctx: SliceContext, sliceType: SliceType, active: ActiveRefs, total: nat, override: bool,
                       rest: seq<bool>)
    requires ctx.numRefIdxL0DefaultMinus1 <= MAX_REF_IDX_DEFAULT && ctx.numRefIdxL1DefaultMinus1 <= MAX_REF_IDX_DEFAULT
    requires ActiveCodable(ctx, sliceType, active, total, override)
    ensures TakeActive(ctx, sliceType, total, ActiveBits(ctx, sliceType, active, total, override, rest))
      == Some((active, rest))
  {
    hide TakeUeIf, UeIf, TakeListsModification, ListsBits, ListCodable;
    if sliceType != I {
      var present := ctx.listsModificationPresent && total > 1;
      var lists := ListsBits(present, sliceType, active, total, rest);
      var l1Bits := UeIf(override && sliceType == B, active.l1Minus1, lists);
      var l0Bits := UeIf(override, active.l0Minus1, l1Bits);
      FlagReadBack(override, l0Bits);
      UeIfReadBack(override, ctx.numRefIdxL0DefaultMinus1, active.l0Minus1, l1Bits);
      UeIfReadBack(override && sliceType == B, ctx.numRefIdxL1DefaultMinus1, active.l1Minus1, lists);
      ListsReadBack(present, sliceType, active, total, rest);
    }
  }

  // ----- The P and B fields

  lemma {:induction false} FlagsReadBack(acc: seq<bool>, flags: seq<bool>, rest: seq<bool>)
    ensures TakeFlagList(acc, |acc| + |flags|, flags + rest) == Some((acc + flags, rest))
    decreases flags
  {
    if flags == [] {
      assert flags + rest == rest && acc + flags == acc;
    } else {
      assert flags + rest == [flags[0]] + (flags[1..] + rest);
      FlagReadBack(flags[0], flags[1..] + rest);
      FlagsReadBack(acc + [flags[0]], flags[1..], rest);
      assert acc + [flags[0]] + flags[1..] == acc + flags;
    }
  }

  /** Values where a flag is set, and zeros where it is not. */
  predicate WeightInRange(present: bool, w: Weight) {
    if present then IsInt32(w.delta) && IsInt32(w.offset) else w == Weight(0, 0)
  }

  predicate WeightCodable(w: RefWeight) {
    && WeightInRange(w.lumaFlag, w.luma)
    && WeightInRange(w.chromaFlag, w.cb) && WeightInRange(w.chromaFlag, w.cr)
  }

  /** One entry's values as section 7.3.6.3 lists them: two for luma, then two for Cb and two for Cr. */
  function EntryBits(w: RefWeight, rest: seq<bool>): seq<bool> {
    var chroma :=
      if w.chromaFlag then
        SeBits(w.cb.delta) + (SeBits(w.cb.offset) + (SeBits(w.cr.delta) + (SeBits(w.cr.offset) + rest)))
      else rest;
    if w.lumaFlag then SeBits(w.luma.delta) + (SeBits(w.luma.offset) + chroma) else chroma
  }

  lemma EntryReadBack(w: RefWeight, rest: seq<bool>)
    requires WeightCodable(w)
    ensures TakeRefWeight(w.lumaFlag, w.chromaFlag, EntryBits(w, rest)) == Some((w, rest))
  {
    hide TakeSe, SeBits;
    var crBits := SeBits(w.cr.delta) + (SeBits(w.cr.offset) + rest);
    var cbBits := SeBits(w.cb.delta) + (SeBits(w.cb.offset) + crBits);
    var chroma := if w.chromaFlag then cbBits else rest;
    if w.chromaFlag {
      SeRoundTrip(w.cb.delta, SeBits(w.cb.offset) + crBits);
      SeRoundTrip(w.cb.offset, crBits);
      SeRoundTrip(w.cr.delta, SeBits(w.cr.offset) + rest);
      SeRoundTrip(w.cr.offset, rest);
    }
    if w.lumaFlag {
      SeRoundTrip(w.luma.delta, SeBits(w.luma.offset) + chroma);
      SeRoundTrip(w.luma.offset, chroma);
    }
  }

  function LumaFlags(ws: seq<RefWeight>): (fs: seq<bool>)
    ensures |fs| == |ws| && forall i :: 0 <= i < |fs| ==> fs[i] == ws[i].lumaFlag
  {
    seq(|ws|, i requires 0 <= i < |ws| => ws[i].lumaFlag)
  }

  function ChromaFlags(ws: seq<RefWeight>): (fs: seq<bool>)
    ensures |fs| == |ws| && forall i :: 0 <= i < |fs| ==> fs[i] == ws[i].chromaFlag
  {
    seq(|ws|, i requires 0 <= i < |ws| => ws[i].chromaFlag)
  }

  function WeightsBits(ws: seq<RefWeight>, i: nat, rest: seq<bool>): seq<bool>
    requires i <= |ws|
    decreases |ws| - i
  {
    if i == |ws| then rest else EntryBits(ws[i], WeightsBits(ws, i + 1, rest))
  }

  lemma {:induction false} WeightsReadBack(ws: seq<RefWeight>, i: nat, rest: seq<bool>)
    requires i <= |ws| && forall k :: 0 <= k < |ws| ==> WeightCodable(ws[k])
    ensures TakeWeights(ws[..i], LumaFlags(ws), ChromaFlags(ws), WeightsBits(ws, i, rest)) == Some((ws, rest))
    decreases |ws| - i
  {
    hide TakeRefWeight, EntryBits, WeightCodable;
    if i == |ws| {
      assert ws[..i] == ws;
    } else {
      assert WeightCodable(ws[i]);
      EntryReadBack(ws[i], WeightsBits(ws, i + 1, rest));
      assert ws[..i] + [ws[i]] == ws[..i + 1];
      WeightsReadBack(ws, i + 1, rest);
    }
  }

  function WeightListBits(ctx: SliceContext, ws: seq<RefWeight>, rest: seq<bool>): seq<bool> {
    LumaFlags(ws)
      + (if ctx.chromaArrayType != 0 then ChromaFlags(ws) + WeightsBits(ws, 0, rest) else WeightsBits(ws, 0, rest))
  }

  predicate WeightListCodable(ctx: SliceContext, ws: seq<RefWeight>, n: nat) {
    |ws| == n && forall k :: 0 <= k < n ==> WeightCodable(ws[k]) && (ctx.chromaArrayType == 0 ==> !ws[k].chromaFlag)
  }

  lemma WeightListReadBack(ctx: SliceContext, ws: seq<RefWeight>, n: nat, rest: seq<bool>)
    requires WeightListCodable(ctx, ws, n)
    ensures TakeWeightList(ctx, n, WeightListBits(ctx, ws, rest)) == Some((ws, rest))
  {
    hide WeightCodable, TakeWeights, WeightsBits, TakeFlagList;
    var values := WeightsBits(ws, 0, rest);
    var after := if ctx.chromaArrayType != 0 then ChromaFlags(ws) + values else values;
    FlagsReadBack([], LumaFlags(ws), after);
    assert [] + LumaFlags(ws) == LumaFlags(ws);
    if ctx.chromaArrayType != 0 {
      FlagsReadBack([], ChromaFlags(ws), values);
      assert [] + ChromaFlags(ws) == ChromaFlags(ws);
    } else {
      assert ChromaFlags(ws) == seq(n, _ => false);
    }
    WeightsReadBack(ws, 0, rest);
    assert ws[..0] == [];
  }

  predicate HasWeights(ctx: SliceContext, sliceType: SliceType) {
    (ctx.weightedPred && sliceType == P) || (ctx.weightedBipred && sliceType == B)
  }

  predicate WeightTableCodable(ctx: SliceContext, sliceType: SliceType, active: ActiveRefs, t: WeightTable) {
    if !HasWeights(ctx, sliceType) then t == NO_WEIGHTS
    else
      && t.lumaDenom <= MAX_UE
      && (if ctx.chromaArrayType != 0 then IsInt32(t.chromaDenomDelta) else t.chromaDenomDelta == 0)
      && WeightListCodable(ctx, t.l0, active.l0Minus1 + 1)
      && (if sliceType == B then WeightListCodable(ctx, t.l1, active.l1Minus1 + 1) else t.l1 == [])
  }

  function WeightTableBits(ctx: SliceContext, sliceType: SliceType, t: WeightTable, rest: seq<bool>): seq<bool> {
    if !HasWeights(ctx, sliceType) then rest
    else
      UeBits(t.lumaDenom)
        + SeIf(ctx.chromaArrayType != 0, t.chromaDenomDelta,
            WeightListBits(ctx, t.l0, if sliceType == B then WeightListBits(ctx, t.l1, rest) else rest))
  }

  lemma WeightTableReadBack(
    ctx: SliceContext, sliceType: SliceType, active: ActiveRefs, t: WeightTable, rest: seq<bool>)
    requires WeightTableCodable(ctx, sliceType, active, t)
    ensures TakeWeightTable(ctx, sliceType, active, WeightTableBits(ctx, sliceType, t, rest)) == Some((t, rest))
  {
    hide TakeUe, UeBits, TakeSeIf, SeIf, TakeWeightList, WeightListBits, WeightListCodable;
    if HasWeights(ctx, sliceType) {
      var l1Bits := if sliceType == B then WeightListBits(ctx, t.l1, rest) else rest;
      var l0Bits := WeightListBits(ctx, t.l0, l1Bits);
      UeRoundTrip(t.lumaDenom, SeIf(ctx.chromaArrayType != 0, t.chromaDenomDelta, l0Bits));
      SeIfReadBack(ctx.chromaArrayType != 0, t.chromaDenomDelta, l0Bits);
      WeightListReadBack(ctx, t.l0, active.l0Minus1 + 1, l1Bits);
      if sliceType == B {
        WeightListReadBack(ctx, t.l1, active.l1Minus1 + 1, rest);
      }
    }
  }

  predicate RefIdxPresent(temporalMvp: bool, active: ActiveRefs, fromL0: bool) {
    temporalMvp && ((fromL0 && active.l0Minus1 > 0) || (!fromL0 && active.l1Minus1 > 0))
  }

  predicate InterCodable(
    ctx: SliceContext, sliceType: SliceType, temporalMvp: bool, active: ActiveRefs, f: InterFields)
  {
    if sliceType == I then f == NO_INTER
    else
      && (sliceType != B ==> !f.mvdL1Zero)
      && (!ctx.cabacInitPresent ==> !f.cabacInit)
      && (!(temporalMvp && sliceType == B) ==> f.collocatedFromL0)
      && (if RefIdxPresent(temporalMvp, active, f.collocatedFromL0) then f.collocatedRefIdx <= MAX_UE
          else f.collocatedRefIdx == 0)
      && WeightTableCodable(ctx, sliceType, active, f.weights)
      && f.fiveMinusMaxMergeCand <= 4
  }

  function CollocatedBits(sliceType: SliceType, temporalMvp: bool, active: ActiveRefs, f: InterFields, rest: seq<bool>)
    : seq<bool>
  {
    FlagIf(temporalMvp && sliceType == B, f.collocatedFromL0,
      UeIf(RefIdxPresent(temporalMvp, active, f.collocatedFromL0), f.collocatedRefIdx, rest))
  }

  function InterBits(ctx: SliceContext, sliceType: SliceType, temporalMvp: bool, active: ActiveRefs, f: InterFields,
                     rest: seq<bool>): seq<bool> {
    if sliceType == I then rest
    else
      FlagIf(sliceType == B, f.mvdL1Zero,
        FlagIf(ctx.cabacInitPresent, f.cabacInit,
          CollocatedBits(sliceType, temporalMvp, active, f,
            WeightTableBits(ctx, sliceType, f.weights, UeBits(f.fiveMinusMaxMergeCand) + rest))))
  }

  lemma CollocatedReadBack(ctx: SliceContext, sliceType: SliceType, temporalMvp: bool, active: ActiveRefs,
                           f: InterFields, rest: seq<bool>)
    requires sliceType != I && InterCodable(ctx, sliceType, temporalMvp, active, f)
    ensures TakeCollocated(sliceType, temporalMvp, active, CollocatedBits(sliceType, temporalMvp, active, f, rest))
      == Some(((f.collocatedFromL0, f.collocatedRefIdx), rest))
  {
    hide TakeFlagIf, FlagIf, TakeUeIf, UeIf;
    var present := RefIdxPresent(temporalMvp, active, f.collocatedFromL0);
    FlagIfReadBack(temporalMvp && sliceType == B, true, f.collocatedFromL0, UeIf(present, f.collocatedRefIdx, rest));
    UeIfReadBack(present, 0, f.collocatedRefIdx, rest);
  }

  lemma InterReadBack(ctx: SliceContext, sliceType: SliceType, temporalMvp: bool, active: ActiveRefs, f: InterFields,
                      rest: seq<bool>)
    requires InterCodable(ctx, sliceType, temporalMvp, active, f)
    ensures
      TakeInterFields(ctx, sliceType, temporalMvp, active, InterBits(ctx, sliceType, temporalMvp, active, f, rest))
      == Some((f, rest))
  {
    hide TakeFlagIf, FlagIf, TakeCollocated, CollocatedBits, TakeWeightTable, WeightTableBits, WeightTableCodable,
         TakeUe, UeBits;
    if sliceType != I {
      var fiveBits := UeBits(f.fiveMinusMaxMergeCand) + rest;
      var weightBits := WeightTableBits(ctx, sliceType, f.weights, fiveBits);
      var colBits := CollocatedBits(sliceType, temporalMvp, active, f, weightBits);
      var cabacBits := FlagIf(ctx.cabacInitPresent, f.cabacInit, colBits);
      FlagIfReadBack(sliceType == B, false, f.mvdL1Zero, cabacBits);
      FlagIfReadBack(ctx.cabacInitPresent, false, f.cabacInit, colBits);
      CollocatedReadBack(ctx, sliceType, temporalMvp, active, f, weightBits);
      WeightTableReadBack(ctx, sliceType, active, f.weights, fiveBits);
      UeRoundTrip(f.fiveMinusMaxMergeCand, rest);
    }
  }

  // ----- The filter fields

  predicate FiltersCodable(ctx: SliceContext, sao: bool, f: FilterFields, override: bool) {
    && IsInt32(f.qpDelta)
    && (if ctx.chromaQpOffsetsPresent then IsInt32(f.cbQpOffset) && IsInt32(f.crQpOffset)
        else f.cbQpOffset == 0 && f.crQpOffset == 0)
    && (!ctx.chromaQpOffsetListEnabled ==> !f.cuChromaQpOffset)
    && (!ctx.deblockingOverrideEnabled ==> !override)
    && (!override ==> f.deblockingDisabled == ctx.ppsDeblockingDisabled)
    && (if override && !f.deblockingDisabled then IsInt32(f.betaOffset) && IsInt32(f.tcOffset)
        else f.betaOffset == 0 && f.tcOffset == 0)
    && (!(ctx.loopFilterAcrossSlices && (sao || !f.deblockingDisabled)) ==> !f.acrossSlices)
  }

  function QpBits(ctx: SliceContext, f: FilterFields, rest: seq<bool>): seq<bool> {
    SeBits(f.qpDelta)
      + SeIf(ctx.chromaQpOffsetsPresent, f.cbQpOffset,
          SeIf(ctx.chromaQpOffsetsPresent, f.crQpOffset,
            FlagIf(ctx.chromaQpOffsetListEnabled, f.cuChromaQpOffset, rest)))
  }

  function DeblockingBits(ctx: SliceContext, f: FilterFields, override: bool, rest: seq<bool>): seq<bool> {
    FlagIf(ctx.deblockingOverrideEnabled, override,
      FlagIf(override, f.deblockingDisabled,
        SeIf(override && !f.deblockingDisabled, f.betaOffset,
          SeIf(override && !f.deblockingDisabled, f.tcOffset, rest))))
  }

  function FilterBits(ctx: SliceContext, sao: bool, f: FilterFields, override: bool, rest: seq<bool>): seq<bool> {
    QpBits(ctx, f,
      DeblockingBits(ctx, f, override,
        FlagIf(ctx.loopFilterAcrossSlices && (sao || !f.deblockingDisabled), f.acrossSlices, rest)))
  }

  lemma QpReadBack(ctx: SliceContext, sao: bool, f: FilterFields, override: bool, rest: seq<bool>)
    requires FiltersCodable(ctx, sao, f, override)
    ensures TakeQpOffsets(ctx, QpBits(ctx, f, rest))
      == Some(((f.qpDelta, f.cbQpOffset, f.crQpOffset, f.cuChromaQpOffset), rest))
  {
    hide TakeSe, SeBits, TakeSeIf, SeIf, TakeFlagIf, FlagIf;
    var cuBits := FlagIf(ctx.chromaQpOffsetListEnabled, f.cuChromaQpOffset, rest);
    var crBits := SeIf(ctx.chromaQpOffsetsPresent, f.crQpOffset, cuBits);
    var cbBits := SeIf(ctx.chromaQpOffsetsPresent, f.cbQpOffset, crBits);
    SeRoundTrip(f.qpDelta, cbBits);
    SeIfReadBack(ctx.chromaQpOffsetsPresent, f.cbQpOffset, crBits);
    SeIfReadBack(ctx.chromaQpOffsetsPresent, f.crQpOffset, cuBits);
    FlagIfReadBack(ctx.chromaQpOffsetListEnabled, false, f.cuChromaQpOffset, rest);
  }

  lemma DeblockingReadBack(ctx: SliceContext, sao: bool, f: FilterFields, override: bool, rest: seq<bool>)
    requires FiltersCodable(ctx, sao, f, override)
    ensures TakeDeblocking(ctx, DeblockingBits(ctx, f, override, rest))
      == Some(((f.deblockingDisabled, f.betaOffset, f.tcOffset), rest))
  {
    hide TakeSeIf, SeIf, TakeFlagIf, FlagIf;
    var offsets := override && !f.deblockingDisabled;
    var tcBits := SeIf(offsets, f.tcOffset, rest);
    var betaBits := SeIf(offsets, f.betaOffset, tcBits);
    var disabledBits := FlagIf(override, f.deblockingDisabled, betaBits);
    FlagIfReadBack(ctx.deblockingOverrideEnabled, false, override, disabledBits);
    FlagIfReadBack(override, ctx.ppsDeblockingDisabled, f.deblockingDisabled, betaBits);
    SeIfReadBack(offsets, f.betaOffset, tcBits);
    SeIfReadBack(offsets, f.tcOffset, rest);
  }

  lemma FiltersReadBack(ctx: SliceContext, sao: bool, f: FilterFields, override: bool, rest: seq<bool>)
    requires FiltersCodable(ctx, sao, f, override)
    ensures TakeFilterFields(ctx, sao, FilterBits(ctx, sao, f, override, rest)) == Some((f, rest))
  {
    hide TakeQpOffsets, QpBits, TakeDeblocking, DeblockingBits, TakeFlagIf, FlagIf;
    var present := ctx.loopFilterAcrossSlices && (sao || !f.deblockingDisabled);
    var acrossBits := FlagIf(present, f.acrossSlices, rest);
    QpReadBack(ctx, sao, f, override, DeblockingBits(ctx, f, override, acrossBits));
    DeblockingReadBack(ctx, sao, f, override, acrossBits);
    FlagIfReadBack(present, false, f.acrossSlices, rest);
  }

  // ----- Entry points, extension, alignment

  predicate EndCodable(ctx: SliceContext, n: nat, ch: Choices) {
    && n <= 0x10_0000 && (!(ctx.tilesEnabled || ctx.entropySyncEnabled) ==> n == 0)
    && ch.entryLenMinus1 <= 31 && |ch.entryBits| == (if n > 0 then n * (ch.entryLenMinus1 + 1) else 0)
    && ch.extensionLen <= 0xFFFF_FFFE && (!ctx.headerExtensionPresent ==> ch.extensionLen == 0)
    && |ch.extensionBits| == ch.extensionLen * 8
  }

  function EntryPointBits(ctx: SliceContext, n: nat, ch: Choices, rest: seq<bool>): seq<bool> {
    UeIf(ctx.tilesEnabled || ctx.entropySyncEnabled, n, UeIf(n > 0, ch.entryLenMinus1, ch.entryBits + rest))
  }

  function ExtensionBits(ctx: SliceContext, ch: Choices, rest: seq<bool>): seq<bool> {
    UeIf(ctx.headerExtensionPresent, ch.extensionLen, ch.extensionBits + rest)
  }

  /** A one bit and the zeros to the byte boundary, slice data behind it in whole bytes. */
  function AlignmentBits(pad: nat, data: seq<bool>): seq<bool> {
    [true] + (Zeros(pad) + data)
  }

  lemma SkipReadBack(skipped: seq<bool>, rest: seq<bool>)
    ensures TakeSkip(|skipped|, skipped + rest) == Some(rest)
  {
    assert (skipped + rest)[|skipped|..] == rest;
  }

  lemma EntryPointReadBack(ctx: SliceContext, n: nat, ch: Choices, rest: seq<bool>)
    requires EndCodable(ctx, n, ch)
    ensures TakeEntryPoints(ctx, EntryPointBits(ctx, n, ch, rest)) == Some((n, rest))
  {
    hide TakeUeIf, UeIf, TakeSkip;
    var tail := UeIf(n > 0, ch.entryLenMinus1, ch.entryBits + rest);
    UeIfReadBack(ctx.tilesEnabled || ctx.entropySyncEnabled, 0, n, tail);
    if n > 0 {
      UeIfReadBack(true, 0, ch.entryLenMinus1, ch.entryBits + rest);
    } else {
      UeIfReadBack(false, 0, 0, ch.entryBits + rest);
      AbsentUe(ch.entryLenMinus1, 0, ch.entryBits + rest);
    }
    SkipReadBack(ch.entryBits, rest);
  }

  lemma AbsentUe(v: nat, w: nat, rest: seq<bool>)
    ensures UeIf(false, v, rest) == UeIf(false, w, rest) == rest
  {
  }

  lemma ExtensionReadBack(ctx: SliceContext, n: nat, ch: Choices, rest: seq<bool>)
    requires EndCodable(ctx, n, ch)
    ensures TakeExtension(ctx, ExtensionBits(ctx, ch, rest)) == Some(rest)
  {
    hide TakeUeIf, UeIf, TakeSkip;
    UeIfReadBack(ctx.headerExtensionPresent, 0, ch.extensionLen, ch.extensionBits + rest);
    SkipReadBack(ch.extensionBits, rest);
  }

  lemma AlignmentReadBack(pad: nat, data: seq<bool>)
    requires pad < 8 && |data| % 8 == 0
    ensures TakeAlignment(AlignmentBits(pad, data)) == Some(data)
  {
    var bs := AlignmentBits(pad, data);
    assert |bs| - 1 == pad + |data|;
    PadIs(pad, |data|);
    assert forall k :: 1 <= k <= pad ==> bs[k] == Zeros(pad)[k - 1];
    assert bs[1 + pad..] == data;
  }

  lemma PadIs(pad: nat, n: nat)
    requires pad < 8 && n % 8 == 0
    ensures (pad + n) % 8 == pad
  {
  }

  function EndBits(ctx: SliceContext, sao: bool, h: SliceHeader, ch: Choices, pad: nat, data: seq<bool>): seq<bool> {
    FilterBits(ctx, sao, h.filters, ch.overrideDeblocking,
      EntryPointBits(ctx, h.numEntryPoints, ch,
        ExtensionBits(ctx, ch, AlignmentBits(pad, data))))
  }

  lemma EndReadBack(ctx: SliceContext, sao: bool, h: SliceHeader, ch: Choices, pad: nat, data: seq<bool>)
    requires pad < 8 && |data| % 8 == 0
    requires FiltersCodable(ctx, sao, h.filters, ch.overrideDeblocking) && EndCodable(ctx, h.numEntryPoints, ch)
    ensures TakeEnd(ctx, sao, EndBits(ctx, sao, h, ch, pad, data)) == Some(((h.filters, h.numEntryPoints), data))
  {
    hide TakeFilterFields, FilterBits, TakeEntryPoints, EntryPointBits, TakeExtension, ExtensionBits, TakeAlignment,
         AlignmentBits;
    var alignBits := AlignmentBits(pad, data);
    var extBits := ExtensionBits(ctx, ch, alignBits);
    FiltersReadBack(ctx, sao, h.filters, ch.overrideDeblocking, EntryPointBits(ctx, h.numEntryPoints, ch, extBits));
    EntryPointReadBack(ctx, h.numEntryPoints, ch, extBits);
    ExtensionReadBack(ctx, h.numEntryPoints, ch, alignBits);
    AlignmentReadBack(pad, data);
  }

  // ----- The header

  function TypeCode(t: SliceType): nat {
    if t == B then 0 else if t == P then 1 else 2
  }

  /** From the slice type on, the header has nothing its syntax cannot carry, and the choices fit it. */
  ghost predicate BodyCodable(ctx: SliceContext, nalType: nat, h: SliceHeader, ch: Choices)
    requires |ctx.ltUsedSps| == |ctx.ltPocLsbSps|
  {
    && |ch.reserved| == ctx.numExtraSliceHeaderBits
    && (!ctx.outputFlagPresent ==> h.picOutput)
    && (if ctx.separateColourPlane then h.colourPlane < 4 else h.colourPlane == 0)
    && ReferencesCodable(ctx, h.refs, ch, nalType == 19 || nalType == 20)
    && (!ctx.saoEnabled ==> !h.saoLuma)
    && (!(ctx.saoEnabled && ctx.chromaArrayType != 0) ==> !h.saoChroma)
    && h.numPicTotalCurr == NumPicTotalCurr(h.refs)
    && ActiveCodable(ctx, h.sliceType, h.active, h.numPicTotalCurr, ch.overrideActive)
    && InterCodable(ctx, h.sliceType, h.refs.temporalMvp, h.active, h.inter)
    && FiltersCodable(ctx, h.saoLuma || h.saoChroma, h.filters, ch.overrideDeblocking)
    && EndCodable(ctx, h.numEntryPoints, ch)
  }

  /** An independent header that its syntax can carry. */
  ghost predicate HeaderCodable(ctx: SliceContext, nalType: nat, h: SliceHeader, ch: Choices)
    requires |ctx.ltUsedSps| == |ctx.ltPocLsbSps|
  {
    && !h.dependent && h.ppsId <= 0xFFFF_FFFE
    && (!(16 <= nalType <= 23) ==> !h.noOutputOfPriorPics)
    && (if h.firstInPic then h.address == 0 else h.address < ctx.picSizeInCtbs)
    && BodyCodable(ctx, nalType, h, ch)
  }

  function TopBits(ctx: SliceContext, h: SliceHeader, ch: Choices, rest: seq<bool>): seq<bool> {
    ch.reserved
      + (UeBits(TypeCode(h.sliceType))
         + FlagIf(ctx.outputFlagPresent, h.picOutput, UIf(ctx.separateColourPlane, 2, h.colourPlane, rest)))
  }

  function SaoBits(ctx: SliceContext, h: SliceHeader, rest: seq<bool>): seq<bool> {
    FlagIf(ctx.saoEnabled, h.saoLuma, FlagIf(ctx.saoEnabled && ctx.chromaArrayType != 0, h.saoChroma, rest))
  }

  /** From the slice type to the slice data. */
  ghost function BodyBits(ctx: SliceContext, nalType: nat, h: SliceHeader, ch: Choices, pad: nat, data: seq<bool>)
    : seq<bool>
    requires |ctx.ltUsedSps| == |ctx.ltPocLsbSps| && BodyCodable(ctx, nalType, h, ch)
  {
    TopBits(ctx, h, ch,
      ReferencesBits(ctx, h.refs, ch, nalType == 19 || nalType == 20,
        SaoBits(ctx, h,
          ActiveBits(ctx, h.sliceType, h.active, h.numPicTotalCurr, ch.overrideActive,
            InterBits(ctx, h.sliceType, h.refs.temporalMvp, h.active, h.inter,
              EndBits(ctx, h.saoLuma || h.saoChroma, h, ch, pad, data))))))
  }

  /** slice_segment_header() with its alignment, in front of slice data. */
  ghost function HeaderBits(ctx: SliceContext, nalType: nat, h: SliceHeader, ch: Choices, pad: nat, data: seq<bool>)
    : seq<bool>
    requires |ctx.ltUsedSps| == |ctx.ltPocLsbSps| && HeaderCodable(ctx, nalType, h, ch)
  {
    [h.firstInPic]
      + FlagIf(16 <= nalType <= 23, h.noOutputOfPriorPics,
          UeBits(h.ppsId) + AddressBits(ctx, h, BodyBits(ctx, nalType, h, ch, pad, data)))
  }

  function AddressBits(ctx: SliceContext, h: SliceHeader, rest: seq<bool>): seq<bool> {
    if h.firstInPic then rest
    else
      FlagIf(ctx.dependentSlicesEnabled, false, FromNat(h.address, CeilLog2Of(ctx.picSizeInCtbs)) + rest)
  }

  lemma TopReadBack(ctx: SliceContext, h: SliceHeader, ch: Choices, rest: seq<bool>)
    requires |ch.reserved| == ctx.numExtraSliceHeaderBits && (!ctx.outputFlagPresent ==> h.picOutput)
    requires if ctx.separateColourPlane then h.colourPlane < 4 else h.colourPlane == 0
    ensures TakeTop(ctx, TopBits(ctx, h, ch, rest)) == Some(((h.sliceType, h.picOutput, h.colourPlane), rest))
  {
    hide TakeUe, UeBits, TakeFlagIf, FlagIf, TakeUIf, UIf, TakeSkip;
    var planeBits := UIf(ctx.separateColourPlane, 2, h.colourPlane, rest);
    var outputBits := FlagIf(ctx.outputFlagPresent, h.picOutput, planeBits);
    SkipReadBack(ch.reserved, UeBits(TypeCode(h.sliceType)) + outputBits);
    UeRoundTrip(TypeCode(h.sliceType), outputBits);
    FlagIfReadBack(ctx.outputFlagPresent, true, h.picOutput, planeBits);
    assert Pow2(2) == 4;
    UIfReadBack(ctx.separateColourPlane, 2, h.colourPlane, rest);
  }

  lemma SaoReadBack(ctx: SliceContext, h: SliceHeader, rest: seq<bool>)
    requires !ctx.saoEnabled ==> !h.saoLuma
    requires !(ctx.saoEnabled && ctx.chromaArrayType != 0) ==> !h.saoChroma
    ensures TakeSao(ctx, SaoBits(ctx, h, rest)) == Some(((h.saoLuma, h.saoChroma), rest))
  {
    hide TakeFlagIf, FlagIf;
    var chroma := ctx.saoEnabled && ctx.chromaArrayType != 0;
    FlagIfReadBack(ctx.saoEnabled, false, h.saoLuma, FlagIf(chroma, h.saoChroma, rest));
    FlagIfReadBack(chroma, false, h.saoChroma, rest);
  }

  lemma AddressReadBack(ctx: SliceContext, h: SliceHeader, rest: seq<bool>)
    requires if h.firstInPic then h.address == 0 else h.address < ctx.picSizeInCtbs
    ensures TakeAddress(ctx, h.firstInPic, AddressBits(ctx, h, rest)) == Some(((false, h.address), rest))
  {
    hide TakeFlagIf, FlagIf, TakeU, FromNat, CeilLog2Of;
    if !h.firstInPic {
      var addressBits := FromNat(h.address, CeilLog2Of(ctx.picSizeInCtbs)) + rest;
      FlagIfReadBack(ctx.dependentSlicesEnabled, false, false, addressBits);
      IndexFits(ctx.picSizeInCtbs, h.address);
      TakeUBits(h.address, CeilLog2Of(ctx.picSizeInCtbs), rest);
    }
  }

  /** The header before its position in the picture and its size are filled in. */
  function Bare(h: SliceHeader): SliceHeader {
    h.(firstInPic := false, noOutputOfPriorPics := false, ppsId := 0, address := 0, dataBitOffset := 0)
  }

  /** The NAL unit types that the header's syntax distinguishes. */
  lemma Classes(nalType: nat)
    ensures IsIdr(nalType) <==> nalType == 19 || nalType == 20
    ensures IsIrap(nalType) <==> 16 <= nalType <= 23
  {
  }

  lemma BodyReadBack(ctx: SliceContext, nalType: nat, h: SliceHeader, ch: Choices, pad: nat, data: seq<bool>)
    requires ctx.Valid() && !h.dependent && BodyCodable(ctx, nalType, h, ch) && pad < 8 && |data| % 8 == 0
    ensures TakeBody(ctx, nalType, BodyBits(ctx, nalType, h, ch, pad, data)) == Some((Bare(h), data))
  {
    hide TakeTop, TopBits, TakeReferences, ReferencesBits, LongTermCodable, SliceRpsCodable, TakeSao, SaoBits,
         TakeActive, ActiveBits, ActiveCodable, TakeInterFields, InterBits, InterCodable, TakeEnd, EndBits,
         FiltersCodable, EndCodable, IsIdr, IsIrap, NumPicTotalCurr;
    Classes(nalType);
    var sao := h.saoLuma || h.saoChroma;
    var endBits := EndBits(ctx, sao, h, ch, pad, data);
    var interBits := InterBits(ctx, h.sliceType, h.refs.temporalMvp, h.active, h.inter, endBits);
    var activeBits := ActiveBits(ctx, h.sliceType, h.active, h.numPicTotalCurr, ch.overrideActive, interBits);
    var saoBits := SaoBits(ctx, h, activeBits);
    TopReadBack(ctx, h, ch, ReferencesBits(ctx, h.refs, ch, IsIdr(nalType), saoBits));
    ReferencesReadBack(ctx, h.refs, ch, IsIdr(nalType), saoBits);
    SaoReadBack(ctx, h, activeBits);
    ActiveReadBack(ctx, h.sliceType, h.active, h.numPicTotalCurr, ch.overrideActive, interBits);
    InterReadBack(ctx, h.sliceType, h.refs.temporalMvp, h.active, h.inter, endBits);
    EndReadBack(ctx, sao, h, ch, pad, data);
  }

  /**
   * The header round trip: for every independent slice segment header and
   * every way of coding it, each field is read back, and the slice data is
   * found at the first bit behind the alignment.
   */
  lemma HeaderReadBack(ctx: SliceContext, nalType: nat, h: SliceHeader, ch: Choices, pad: nat, data: seq<bool>)
    requires ctx.Valid() && HeaderCodable(ctx, nalType, h, ch) && pad < 8 && |data| % 8 == 0
    ensures var bits := HeaderBits(ctx, nalType, h, ch, pad, data);
      HeaderOf(ctx, nalType, bits) == Some(h.(dataBitOffset := |bits| - |data|))
  {
    hide TakeBody, BodyBits, BodyCodable, TakeAddress, AddressBits, TakeFlagIf, FlagIf, TakeUe, UeBits, IsIrap;
    Classes(nalType);
    var body := BodyBits(ctx, nalType, h, ch, pad, data);
    var idBits := UeBits(h.ppsId) + AddressBits(ctx, h, body);
    BodyReadBack(ctx, nalType, h, ch, pad, data);
    HeaderFacts(ctx, nalType, h, ch);
    FlagReadBack(h.firstInPic, FlagIf(IsIrap(nalType), h.noOutputOfPriorPics, idBits));
    FlagIfReadBack(IsIrap(nalType), false, h.noOutputOfPriorPics, idBits);
    UeRoundTrip(h.ppsId, AddressBits(ctx, h, body));
    AddressReadBack(ctx, h, body);
    hide HeaderCodable;
  }

  lemma HeaderFacts(ctx: SliceContext, nalType: nat, h: SliceHeader, ch: Choices)
    requires |ctx.ltUsedSps| == |ctx.ltPocLsbSps| && HeaderCodable(ctx, nalType, h, ch)
    ensures !h.dependent && h.ppsId <= MAX_UE && (!(16 <= nalType <= 23) ==> !h.noOutputOfPriorPics)
  {
  }
}
