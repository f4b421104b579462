/**
 * Slice segment headers, section 7.3.6 of ITU-T H.265, as
 * parse/h265/slice_header.cc reads them.
 */
module SliceHeaders {
  import opened Wrappers
  import opened Bits
  import opened BitReaders
  import opened NalTypes
  import opened ShortTermRpsSets
  import opened DpbMachine

  const MAX_REF_IDX_DEFAULT: nat := 14
  const MAX_LONG_TERM_TOTAL: nat := 48
  const MAX_MSB_CYCLE: nat := 0xffff
  const MAX_ENTRY_POINT_OFFSETS: nat := 1024 * 1024

  datatype SliceType = B | P | I

  /** What the header parse needs from the active SPS and PPS. */
  datatype SliceContext = SliceContext(
    picSizeInCtbs: nat,
    log2MaxPocLsb: nat,
    separateColourPlane: bool,
    chromaArrayType: nat,
    saoEnabled: bool,
    temporalMvpEnabled: bool,
    longTermPresent: bool,
    ltUsedSps: seq<bool>,
    ltPocLsbSps: seq<nat>,
    shortTermRps: seq<ShortTermRps>,
    dependentSlicesEnabled: bool,
    numExtraSliceHeaderBits: nat,
    outputFlagPresent: bool,
    numRefIdxL0DefaultMinus1: nat,
    numRefIdxL1DefaultMinus1: nat,
    cabacInitPresent: bool,
    weightedPred: bool,
    weightedBipred: bool,
    chromaQpOffsetsPresent: bool,
    chromaQpOffsetListEnabled: bool,
    deblockingOverrideEnabled: bool,
    ppsDeblockingDisabled: bool,
    loopFilterAcrossSlices: bool,
    tilesEnabled: bool,
    entropySyncEnabled: bool,
    listsModificationPresent: bool,
    headerExtensionPresent: bool)
  {
    /** The ranges that the SPS and PPS parsers enforce. */
    ghost predicate Valid() {
      && picSizeInCtbs <= 0x10_0000
      && 4 <= log2MaxPocLsb <= 16
      && |ltUsedSps| == |ltPocLsbSps| <= 32
      && (forall i :: 0 <= i < |ltPocLsbSps| ==> ltPocLsbSps[i] < Pow2(log2MaxPocLsb))
      && |shortTermRps| <= MAX_SHORT_TERM_RPS && AllWellFormed(shortTermRps) && ChainBounded(shortTermRps)
      && numExtraSliceHeaderBits <= 7
      && numRefIdxL0DefaultMinus1 <= MAX_REF_IDX_DEFAULT && numRefIdxL1DefaultMinus1 <= MAX_REF_IDX_DEFAULT
    }
  }

  /** The reference picture information of a non-IDR slice. */
  datatype ReferenceInfo = ReferenceInfo(
    pocLsb: nat,
    rps: ShortTermRps,
    rpsBits: int,
    longTerm: seq<LongTermRef>,
    temporalMvp: bool)

  /** Active list sizes and list_entry_lX. */
  datatype ActiveRefs = ActiveRefs(
    l0Minus1: nat,
    l1Minus1: nat,
    modifiedL0: bool,
    modifiedL1: bool,
    entriesL0: seq<nat>,
    entriesL1: seq<nat>)

  /** A weight and an offset of pred_weight_table(), zero where they are not coded. */
  datatype Weight = Weight(delta: int, offset: int)

  /** One reference's entry: luma_weight and chroma_weight flags, and the values for luma, Cb and Cr. */
  datatype RefWeight = RefWeight(lumaFlag: bool, chromaFlag: bool, luma: Weight, cb: Weight, cr: Weight)

  datatype WeightTable = WeightTable(lumaDenom: nat, chromaDenomDelta: int, l0: seq<RefWeight>, l1: seq<RefWeight>)

  /** The P and B fields after the active counts. */
  datatype InterFields = InterFields(
    mvdL1Zero: bool,
    cabacInit: bool,
    collocatedFromL0: bool,
    collocatedRefIdx: nat,
    weights: WeightTable,
    fiveMinusMaxMergeCand: nat)

  /** QP offsets, deblocking and loop filter fields. */
  datatype FilterFields = FilterFields(
    qpDelta: int,
    cbQpOffset: int,
    crQpOffset: int,
    cuChromaQpOffset: bool,
    deblockingDisabled: bool,
    betaOffset: int,
    tcOffset: int,
    acrossSlices: bool)

  datatype SliceHeader = SliceHeader(
    firstInPic: bool,
    noOutputOfPriorPics: bool,
    ppsId: nat,
    dependent: bool,
    address: nat,
    sliceType: SliceType,
    picOutput: bool,
    colourPlane: nat,
    refs: ReferenceInfo,
    saoLuma: bool,
    saoChroma: bool,
    numPicTotalCurr: nat,
    active: ActiveRefs,
    inter: InterFields,
    filters: FilterFields,
    numEntryPoints: nat,
    dataBitOffset: int)

  const NO_WEIGHTS: WeightTable := WeightTable(0, 0, [], [])
  const NO_INTER: InterFields := InterFields(false, false, true, 0, NO_WEIGHTS, 0)
  const NO_FILTERS: FilterFields := FilterFields(0, 0, 0, false, false, 0, 0, false)
  const NO_REFERENCES: ReferenceInfo := ReferenceInfo(0, ShortTermRps([], []), 0, [], false)

  function CountUsed(side: seq<DeltaPoc>): nat {
    if side == [] then 0 else CountUsed(side[..|side| - 1]) + BitVal(side[|side| - 1].used)
  }

  function CountUsedLongTerm(lts: seq<LongTermRef>): nat {
    if lts == [] then 0 else CountUsedLongTerm(lts[..|lts| - 1]) + BitVal(lts[|lts| - 1].usedByCurr)
  }

  /** NumPicTotalCurr, section 7.4.7.2. */
  function NumPicTotalCurr(refs: ReferenceInfo): nat {
    CountUsed(refs.rps.s0) + CountUsed(refs.rps.s1) + CountUsedLongTerm(refs.longTerm)
  }

  /** What every accepted slice's references satisfy. */
  ghost predicate ValidReferences(refs: ReferenceInfo, log2MaxPocLsb: nat) {
    && refs.pocLsb < Pow2(log2MaxPocLsb)
    && WellFormed(refs.rps) && Bounded(refs.rps, 0x40_0000)
    && |refs.longTerm| <= MAX_LONG_TERM_TOTAL
    && (forall i :: 0 <= i < |refs.longTerm| ==>
        refs.longTerm[i].pocLsb < Pow2(log2MaxPocLsb) && refs.longTerm[i].msbCycle <= MAX_MSB_CYCLE)
  }

  /** list_entry_lX index the temporary list, so the modulo by its size changes none. */
  ghost predicate ValidActive(active: ActiveRefs, numPicTotalCurr: nat) {
    && active.l0Minus1 <= MAX_REF_IDX_DEFAULT && active.l1Minus1 <= MAX_REF_IDX_DEFAULT
    && (active.modifiedL0 ==> EntriesValid(active.entriesL0, active.l0Minus1, numPicTotalCurr))
    && (active.modifiedL1 ==> EntriesValid(active.entriesL1, active.l1Minus1, numPicTotalCurr))
  }

  ghost predicate EntriesValid(entries: seq<nat>, activeMinus1: nat, numPicTotalCurr: nat) {
    |entries| == activeMinus1 + 1 && forall i :: 0 <= i < |entries| ==> entries[i] < numPicTotalCurr
  }

  // ----- Small reads

  /** Ceil(Log2(n)): the least width whose values cover 0..n-1. */
  method CeilLog2(n: nat) returns (bits: nat)
    requires n <= 0x8000_0000
    ensures bits == CeilLog2Of(n) <= 31
  {
    Pow2Of32();
    bits := 0;
    while Pow2(bits) < n
      invariant bits <= 31
      invariant bits > 0 ==> Pow2(bits - 1) < n
      decreases 31 - bits
    {
      if bits == 31 {
        assert false;
      }
      bits := bits + 1;
    }
    CeilLog2Unique(n, bits, CeilLog2Of(n));
  }

  function CeilLog2Of(n: nat): (bits: nat)
    ensures n <= Pow2(bits) && (bits > 0 ==> Pow2(bits - 1) < n)
  {
    if n <= 1 then 0 else 1 + CeilLog2Of((n + 1) / 2)
  }

  lemma CeilLog2Unique(n: nat, a: nat, b: nat)
    requires n <= Pow2(a) && (a > 0 ==> Pow2(a - 1) < n)
    requires n <= Pow2(b) && (b > 0 ==> Pow2(b - 1) < n)
    ensures a == b
  {
    if a < b {
      Pow2Monotone(a, b - 1);
    } else if b < a {
      Pow2Monotone(b, a - 1);
    }
  }

  /** A one bit and then zeros up to the next byte boundary. */
  ghost predicate AlignmentAt(bs: seq<bool>, q: nat) {
    var end := q - q % 8 + 8;
    end <= |bs| && bs[q] && forall k :: q < k < end ==> !bs[k]
  }

  /** byte_alignment(). */
  method ByteAlignment(br: BitReader) returns (ok: bool)
    requires br.Valid()
    modifies br
    ensures br.Valid()
    ensures ok <==> AlignmentAt(BitsOf(br.data), old(br.pos))
    ensures ok ==> br.pos == old(br.pos) - old(br.pos) % 8 + 8
  {
    hide BitsOf;
    ghost var bs, q := BitsOf(br.data), br.pos;
    ghost var end := q - q % 8 + 8;
    var one := br.ReadFlag();
    if one == None || !one.value {
      return false;
    }
    BoundaryIs(q, br.pos);
    while br.pos % 8 != 0
      invariant br.Valid() && q < br.pos <= end && bs[q]
      invariant br.pos % 8 == 0 <==> br.pos == end
      invariant forall k :: q < k < br.pos ==> !bs[k]
      decreases end - br.pos
    {
      var zero := br.ReadFlag();
      if zero == None || zero.value {
        return false;
      }
      BoundaryIs(q, br.pos);
    }
    return true;
  }

  lemma BoundaryIs(q: nat, p: nat)
    requires q < p <= q - q % 8 + 8
    ensures p % 8 == 0 <==> p == q - q % 8 + 8
  {
  }

  /** The aligned header ends in a byte that holds the alignment bit. */
  lemma AlignedByteNonzero(data: seq<Byte>, q: nat)
    requires AlignmentAt(BitsOf(data), q)
    ensures q / 8 < |data| && data[q / 8] != 0
  {
    hide BitsOf;
    SetBitByteNonzero(data, q);
  }

  lemma SetBitByteNonzero(data: seq<Byte>, q: nat)
    requires q < 8 * |data| && BitsOf(data)[q]
    ensures data[q / 8] != 0
  {
    hide BitsOf, FromNat;
    BitsOfAt(data, q);
    NonzeroIfBit(data[q / 8], 8, q % 8);
  }

  lemma NonzeroIfBit(v: nat, n: nat, k: nat)
    requires k < n && FromNat(v, n)[k]
    ensures v != 0
  {
    ZeroHasNoBits(n, k);
  }

  // ----- Optional fields: a field that is absent keeps its default

  function TakeFlagIf(present: bool, absent: bool, bs: seq<bool>): Option<(bool, seq<bool>)> {
    if present then TakeFlag(bs) else Some((absent, bs))
  }

  function TakeUIf(present: bool, n: nat, bs: seq<bool>): Option<(nat, seq<bool>)> {
    if present then TakeU(n, bs) else Some((0, bs))
  }

  function TakeUeIf(present: bool, absent: nat, bs: seq<bool>): Option<(nat, seq<bool>)> {
    if present then TakeUe(bs) else Some((absent, bs))
  }

  function TakeSeIf(present: bool, bs: seq<bool>): Option<(int, seq<bool>)> {
    if present then TakeSe(bs) else Some((0, bs))
  }

  method ReadFlagIf(br: BitReader, present: bool, absent: bool) returns (r: Option<bool>)
    requires br.Valid()
    modifies br
    ensures br.Valid()
    ensures r.None? <==> TakeFlagIf(present, absent, old(br.Rest())).None?
    ensures r.Some? ==> TakeFlagIf(present, absent, old(br.Rest())) == Some((r.value, br.Rest()))
  {
    hide BitsOf;
    if !present {
      return Some(absent);
    }
    r := br.ReadFlag();
  }

  method ReadUIf(br: BitReader, present: bool, n: nat) returns (r: Option<nat>)
    requires br.Valid() && n <= 32
    modifies br
    ensures br.Valid()
    ensures r.None? <==> TakeUIf(present, n, old(br.Rest())).None?
    ensures r.Some? ==> TakeUIf(present, n, old(br.Rest())) == Some((r.value, br.Rest()))
  {
    hide BitsOf, ToNat;
    if !present {
      return Some(0);
    }
    r := br.ReadBits(n);
  }

  method ReadUeIf(br: BitReader, present: bool, absent: nat) returns (r: Option<nat>)
    requires br.Valid()
    modifies br
    ensures br.Valid()
    ensures r.None? <==> TakeUeIf(present, absent, old(br.Rest())).None?
    ensures r.Some? ==> TakeUeIf(present, absent, old(br.Rest())) == Some((r.value, br.Rest()))
  {
    hide BitsOf, TakeUe;
    if !present {
      return Some(absent);
    }
    r := br.ReadUe();
  }

  method ReadSeIf(br: BitReader, present: bool) returns (r: Option<int>)
    requires br.Valid()
    modifies br
    ensures br.Valid()
    ensures r.None? <==> TakeSeIf(present, old(br.Rest())).None?
    ensures r.Some? ==> TakeSeIf(present, old(br.Rest())) == Some((r.value, br.Rest()))
  {
    hide BitsOf, TakeSe;
    if !present {
      return Some(0);
    }
    r := br.ReadSe();
  }

  // ----- Reference information

  /** One long-term entry; `cycle` is the cumulative MSB cycle before it. */
  function TakeLongTermRef(ctx: SliceContext, i: nat, numSps: nat, cycle: nat, bs: seq<bool>)
    : (r: Option<(LongTermRef, seq<bool>)>)
    requires |ctx.ltUsedSps| == |ctx.ltPocLsbSps|
  {
    var ((pocLsb, used), rest) :- TakeLtPoc(ctx, i < numSps, bs);
    var (present, rest1) :- TakeFlag(rest);
    if present then
      var (delta, rest2) :- TakeUe(rest1);
      if delta > MAX_MSB_CYCLE || NextCycle(i, numSps, cycle, Some(delta)) > MAX_MSB_CYCLE then None
      else Some((LongTermRef(pocLsb, used, true, NextCycle(i, numSps, cycle, Some(delta))), rest2))
    else Some((LongTermRef(pocLsb, used, false, NextCycle(i, numSps, cycle, None)), rest1))
  }

  /** POC LSBs and used flag, by SPS index or in full. */
  function TakeLtPoc(ctx: SliceContext, fromSps: bool, bs: seq<bool>): (r: Option<((nat, bool), seq<bool>)>)
    requires |ctx.ltUsedSps| == |ctx.ltPocLsbSps|
  {
    if fromSps then
      var (idx, rest) :- if |ctx.ltPocLsbSps| > 1 then TakeU(CeilLog2Of(|ctx.ltPocLsbSps|), bs) else Some((0, bs));
      if idx >= |ctx.ltPocLsbSps| then None else Some(((ctx.ltPocLsbSps[idx], ctx.ltUsedSps[idx]), rest))
    else
      var (pocLsb, rest) :- TakeU(ctx.log2MaxPocLsb, bs);
      var (used, rest1) :- TakeFlag(rest);
      Some(((pocLsb, used), rest1))
  }

  /** DeltaPocMsbCycleLt, equation (7-52): it restarts at each of the two groups. */
  function NextCycle(i: nat, numSps: nat, cycle: nat, delta: Option<nat>): nat {
    if i == 0 || i == numSps then (if delta.Some? then delta.value else 0)
    else cycle + (if delta.Some? then delta.value else 0)
  }

  function LastCycle(lts: seq<LongTermRef>): nat {
    if lts == [] then 0 else lts[|lts| - 1].msbCycle
  }

  function TakeLongTermRefs(ctx: SliceContext, acc: seq<LongTermRef>, numSps: nat, total: nat, bs: seq<bool>)
    : (r: Option<(seq<LongTermRef>, seq<bool>)>)
    requires |acc| <= total && |ctx.ltUsedSps| == |ctx.ltPocLsbSps|
    ensures r.Some? ==> |r.value.0| == total
    decreases total - |acc|
  {
    if |acc| == total then Some((acc, bs))
    else
      var (lt, rest) :- TakeLongTermRef(ctx, |acc|, numSps, LastCycle(acc), bs);
      TakeLongTermRefs(ctx, acc + [lt], numSps, total, rest)
  }

  lemma {:induction false} LongTermRefsValid(
    ctx: SliceContext, acc: seq<LongTermRef>, numSps: nat, total: nat, bs: seq<bool>)
    requires ctx.Valid() && |acc| <= total
    requires forall i :: 0 <= i < |acc| ==>
      acc[i].pocLsb < Pow2(ctx.log2MaxPocLsb) && acc[i].msbCycle <= MAX_MSB_CYCLE
    ensures TakeLongTermRefs(ctx, acc, numSps, total, bs).Some? ==>
      forall i :: 0 <= i < total ==>
        var lt := TakeLongTermRefs(ctx, acc, numSps, total, bs).value.0[i];
        lt.pocLsb < Pow2(ctx.log2MaxPocLsb) && lt.msbCycle <= MAX_MSB_CYCLE
    decreases total - |acc|
  {
    if |acc| < total && TakeLongTermRef(ctx, |acc|, numSps, LastCycle(acc), bs).Some? {
      LongTermRefValid(ctx, |acc|, numSps, LastCycle(acc), bs);
      var (lt, rest) := TakeLongTermRef(ctx, |acc|, numSps, LastCycle(acc), bs).value;
      LongTermRefsValid(ctx, acc + [lt], numSps, total, rest);
    }
  }

  lemma LongTermRefValid(ctx: SliceContext, i: nat, numSps: nat, cycle: nat, bs: seq<bool>)
    requires ctx.Valid() && cycle <= MAX_MSB_CYCLE
    ensures TakeLongTermRef(ctx, i, numSps, cycle, bs).Some? ==>
      var lt := TakeLongTermRef(ctx, i, numSps, cycle, bs).value.0;
      lt.pocLsb < Pow2(ctx.log2MaxPocLsb) && lt.msbCycle <= MAX_MSB_CYCLE
  {
    hide TakeUe, TakeFlag;
  }

  /** What an encoder writes for one long-term reference: its own cycle, less the one before it. */
  ghost predicate CodesCycle(lts: seq<LongTermRef>, numSps: nat, cycles: seq<nat>, deltas: seq<Option<nat>>, i: nat)
    requires i < |lts| == |cycles| == |deltas|
  {
    && lts[i].msbCycle == NextCycle(i, numSps, LastCycle(lts[..i]), deltas[i])
    && (if i == 0 || i == numSps then deltas[i] == Some(cycles[i])
        else cycles[i] >= cycles[i - 1] && deltas[i] == Some(cycles[i] - cycles[i - 1]))
  }

  /** The running sum of the parse gives every reference its own cycle back. */
  lemma {:induction false} CyclesDecode(
    lts: seq<LongTermRef>, numSps: nat, cycles: seq<nat>, deltas: seq<Option<nat>>, i: nat)
    requires |lts| == |cycles| == |deltas| && i < |lts|
    requires forall k :: 0 <= k < |lts| ==> CodesCycle(lts, numSps, cycles, deltas, k)
    ensures lts[i].msbCycle == cycles[i]
  {
    assert CodesCycle(lts, numSps, cycles, deltas, i);
    if i != 0 && i != numSps {
      CyclesDecode(lts, numSps, cycles, deltas, i - 1);
    }
  }

  method ReadLtPoc(br: BitReader, ctx: SliceContext, fromSps: bool) returns (r: Option<(nat, bool)>)
    requires br.Valid() && ctx.Valid()
    modifies br
    ensures br.Valid()
    ensures r.None? <==> TakeLtPoc(ctx, fromSps, old(br.Rest())).None?
    ensures r.Some? ==> TakeLtPoc(ctx, fromSps, old(br.Rest())) == Some((r.value, br.Rest()))
  {
    hide BitsOf, ToNat;
    if fromSps {
      var ltIdxSps: nat := 0;
      if |ctx.ltPocLsbSps| > 1 {
        var bits := CeilLog2(|ctx.ltPocLsbSps|);
        ltIdxSps :- br.ReadBits(bits);
      }
      if ltIdxSps >= |ctx.ltUsedSps| || ltIdxSps >= |ctx.ltPocLsbSps| {
        return None;
      }
      return Some((ctx.ltPocLsbSps[ltIdxSps], ctx.ltUsedSps[ltIdxSps]));
    }
    var pocLsb :- br.ReadBits(ctx.log2MaxPocLsb);
    var used :- br.ReadFlag();
    return Some((pocLsb, used));
  }

  method ReadLongTermRef(br: BitReader, ctx: SliceContext, i: nat, numSps: nat, cycle: nat)
    returns (r: Option<LongTermRef>)
    requires br.Valid() && ctx.Valid()
    modifies br
    ensures br.Valid()
    ensures r.None? <==> TakeLongTermRef(ctx, i, numSps, cycle, old(br.Rest())).None?
    ensures r.Some? ==> TakeLongTermRef(ctx, i, numSps, cycle, old(br.Rest())) == Some((r.value, br.Rest()))
  {
    hide BitsOf, TakeUe, TakeLtPoc;
    var coded :- ReadLtPoc(br, ctx, i < numSps);
    var present :- br.ReadFlag();
    var next := if i == 0 || i == numSps then 0 else cycle;
    if present {
      var delta :- br.ReadUe();
      if delta > MAX_MSB_CYCLE {
        return None;
      }
      next := if i == 0 || i == numSps then delta else cycle + delta;
      if next > MAX_MSB_CYCLE {
        return None;
      }
    }
    return Some(LongTermRef(coded.0, coded.1, present, next));
  }

  method ReadLongTermRefs(br: BitReader, ctx: SliceContext, numSps: nat, total: nat)
    returns (r: Option<seq<LongTermRef>>)
    requires br.Valid() && ctx.Valid()
    modifies br
    ensures br.Valid()
    ensures r.None? <==> TakeLongTermRefs(ctx, [], numSps, total, old(br.Rest())).None?
    ensures r.Some? ==> TakeLongTermRefs(ctx, [], numSps, total, old(br.Rest())) == Some((r.value, br.Rest()))
  {
    hide BitsOf, TakeLongTermRef;
    var lts: seq<LongTermRef> := [];
    var cycle: nat := 0;
    ghost var start := br.Rest();
    for i := 0 to total
      invariant br.Valid() && |lts| == i && cycle == LastCycle(lts)
      invariant TakeLongTermRefs(ctx, lts, numSps, total, br.Rest())
        == TakeLongTermRefs(ctx, [], numSps, total, start)
    {
      var lt :- ReadLongTermRef(br, ctx, i, numSps, cycle);
      lts := lts + [lt];
      cycle := lt.msbCycle;
    }
    return Some(lts);
  }

  function TakeLongTermCounts(ctx: SliceContext, bs: seq<bool>): (r: Option<(nat, nat, seq<bool>)>)
    ensures r.Some? ==> r.value.0 + r.value.1 <= MAX_LONG_TERM_TOTAL
  {
    var (numSps, rest) :- TakeUeIf(|ctx.ltPocLsbSps| > 0, 0, bs);
    var (numPics, rest1) :- TakeUe(rest);
    if numSps > |ctx.ltPocLsbSps| || numPics > MAX_REF_PICS || numSps + numPics > MAX_LONG_TERM_TOTAL then None
    else Some((numSps, numPics, rest1))
  }

  /** num_long_term_sps, num_long_term_pics and their entries, when the SPS enables them. */
  function TakeLongTerm(ctx: SliceContext, bs: seq<bool>): Option<(seq<LongTermRef>, seq<bool>)>
    requires |ctx.ltUsedSps| == |ctx.ltPocLsbSps|
  {
    if !ctx.longTermPresent then Some(([], bs))
    else
      var (numSps, numPics, rest) :- TakeLongTermCounts(ctx, bs);
      TakeLongTermRefs(ctx, [], numSps, numSps + numPics, rest)
  }

  method ReadLongTermCounts(br: BitReader, ctx: SliceContext) returns (r: Option<(nat, nat)>)
    requires br.Valid() && ctx.Valid()
    modifies br
    ensures br.Valid()
    ensures r.None? <==> TakeLongTermCounts(ctx, old(br.Rest())).None?
    ensures r.Some? ==> TakeLongTermCounts(ctx, old(br.Rest())) == Some((r.value.0, r.value.1, br.Rest()))
  {
    hide BitsOf, TakeUe;
    var numSps :- ReadUeIf(br, |ctx.ltPocLsbSps| > 0, 0);
    var numPics :- br.ReadUe();
    if numSps > |ctx.ltPocLsbSps| || numPics > MAX_REF_PICS || numSps + numPics > MAX_LONG_TERM_TOTAL {
      return None;
    }
    return Some((numSps, numPics));
  }

  method ReadLongTerm(br: BitReader, ctx: SliceContext) returns (r: Option<seq<LongTermRef>>)
    requires br.Valid() && ctx.Valid()
    modifies br
    ensures br.Valid()
    ensures r.None? <==> TakeLongTerm(ctx, old(br.Rest())).None?
    ensures r.Some? ==> TakeLongTerm(ctx, old(br.Rest())) == Some((r.value, br.Rest()))
    ensures r.Some? ==> |r.value| <= MAX_LONG_TERM_TOTAL
    ensures r.Some? ==> forall i :: 0 <= i < |r.value| ==>
      r.value[i].pocLsb < Pow2(ctx.log2MaxPocLsb) && r.value[i].msbCycle <= MAX_MSB_CYCLE
  {
    hide BitsOf, TakeLongTermCounts, TakeLongTermRefs;
    if !ctx.longTermPresent {
      return Some([]);
    }
    var counts :- ReadLongTermCounts(br, ctx);
    LongTermRefsValid(ctx, [], counts.0, counts.0 + counts.1, br.Rest());
    r := ReadLongTermRefs(br, ctx, counts.0, counts.0 + counts.1);
  }

  /** The index of an SPS set, when there is a choice. */
  function TakeRpsIdx(n: nat, bs: seq<bool>): (r: Option<(nat, seq<bool>)>)
    ensures r.Some? && n > 0 ==> r.value.0 < n
  {
    var (idx, rest) :- TakeUIf(n > 1, CeilLog2Of(n), bs);
    if n > 1 && idx >= n then None else Some((idx, rest))
  }

  /** The short-term set of a slice and its coded size: its own, or one of the SPS by index. */
  function TakeSliceRps(ctx: SliceContext, bs: seq<bool>): Option<((ShortTermRps, int), seq<bool>)> {
    var (fromSps, rest) :- TakeFlag(bs);
    var n := |ctx.shortTermRps|;
    if !fromSps then
      var (rps, rest1) :- TakeRps(n, n, ctx.shortTermRps, rest);
      Some(((rps, |rest| - |rest1|), rest1))
    else
      var (idx, rest1) :- TakeRpsIdx(n, rest);
      Some(((if n == 0 then ShortTermRps([], []) else ctx.shortTermRps[idx], 0), rest1))
  }

  method ReadRpsIdx(br: BitReader, n: nat) returns (r: Option<nat>)
    requires br.Valid() && n <= MAX_SHORT_TERM_RPS
    modifies br
    ensures br.Valid()
    ensures r.None? <==> TakeRpsIdx(n, old(br.Rest())).None?
    ensures r.Some? ==> TakeRpsIdx(n, old(br.Rest())) == Some((r.value, br.Rest()))
    ensures r.Some? && n > 0 ==> r.value < n
  {
    hide BitsOf, TakeUIf;
    var bits := CeilLog2(n);
    var idx :- ReadUIf(br, n > 1, bits);
    if n > 1 && idx >= n {
      return None;
    }
    return Some(idx);
  }

  method ReadSliceRps(br: BitReader, ctx: SliceContext) returns (r: Option<(ShortTermRps, int)>)
    requires br.Valid() && ctx.Valid()
    modifies br
    ensures br.Valid()
    ensures r.None? <==> TakeSliceRps(ctx, old(br.Rest())).None?
    ensures r.Some? ==> TakeSliceRps(ctx, old(br.Rest())) == Some((r.value, br.Rest()))
    ensures r.Some? ==> WellFormed(r.value.0) && Bounded(r.value.0, 0x40_0000)
  {
    hide BitsOf, TakeRps, TakeRpsIdx;
    var fromSps :- br.ReadFlag();
    var n := |ctx.shortTermRps|;
    if !fromSps {
      var start := br.pos;
      var rps :- ParseShortTermRps(br, n, n, ctx.shortTermRps);
      BoundedWeaken(rps, ChainBound(n), 0x40_0000);
      return Some((rps, br.pos - start));
    }
    var idx :- ReadRpsIdx(br, n);
    if n == 0 {
      return Some((ShortTermRps([], []), 0));
    }
    BoundedWeaken(ctx.shortTermRps[idx], ChainBound(idx), 0x40_0000);
    return Some((ctx.shortTermRps[idx], 0));
  }

  lemma BoundedWeaken(r: ShortTermRps, a: int, b: int)
    requires Bounded(r, a) && a <= b
    ensures Bounded(r, b)
  {
  }

  /** The reference fields, which an IDR slice does not have. */
  function TakeReferences(ctx: SliceContext, idr: bool, bs: seq<bool>): Option<(ReferenceInfo, seq<bool>)>
    requires |ctx.ltUsedSps| == |ctx.ltPocLsbSps|
  {
    if idr then Some((NO_REFERENCES, bs))
    else
      var (pocLsb, rest) :- TakeU(ctx.log2MaxPocLsb, bs);
      var ((rps, rpsBits), rest1) :- TakeSliceRps(ctx, rest);
      var (longTerm, rest2) :- TakeLongTerm(ctx, rest1);
      var (temporalMvp, rest3) :- TakeFlagIf(ctx.temporalMvpEnabled, false, rest2);
      Some((ReferenceInfo(pocLsb, rps, rpsBits, longTerm, temporalMvp), rest3))
  }

  method ReadReferences(br: BitReader, ctx: SliceContext, idr: bool) returns (r: Option<ReferenceInfo>)
    requires br.Valid() && ctx.Valid()
    modifies br
    ensures br.Valid()
    ensures r.None? <==> TakeReferences(ctx, idr, old(br.Rest())).None?
    ensures r.Some? ==> TakeReferences(ctx, idr, old(br.Rest())) == Some((r.value, br.Rest()))
    ensures r.Some? ==> ValidReferences(r.value, ctx.log2MaxPocLsb)
    ensures r.Some? && idr ==> r.value == NO_REFERENCES
  {
    hide BitsOf, ToNat, TakeSliceRps, TakeLongTerm, TakeFlagIf;
    if idr {
      return Some(NO_REFERENCES);
    }
    var pocLsb :- br.ReadBits(ctx.log2MaxPocLsb);
    var coded :- ReadSliceRps(br, ctx);
    var longTerm :- ReadLongTerm(br, ctx);
    var temporalMvp :- ReadFlagIf(br, ctx.temporalMvpEnabled, false);
    return Some(ReferenceInfo(pocLsb, coded.0, coded.1, longTerm, temporalMvp));
  }

  // ----- Counting and list modification

  method CountUsedIn(side: seq<DeltaPoc>) returns (n: nat)
    ensures n == CountUsed(side) <= |side|
  {
    n := 0;
    for i := 0 to |side|
      invariant n == CountUsed(side[..i]) <= i
    {
      assert side[..i + 1][..i] == side[..i];
      if side[i].used {
        n := n + 1;
      }
    }
    assert side[..|side|] == side;
  }

  method CountTotal(refs: ReferenceInfo) returns (n: nat)
    ensures n == NumPicTotalCurr(refs)
  {
    n := 0;
    for i := 0 to |refs.longTerm|
      invariant n == CountUsedLongTerm(refs.longTerm[..i])
    {
      assert refs.longTerm[..i + 1][..i] == refs.longTerm[..i];
      if refs.longTerm[i].usedByCurr {
        n := n + 1;
      }
    }
    assert refs.longTerm[..|refs.longTerm|] == refs.longTerm;
    var n0 := CountUsedIn(refs.rps.s0);
    var n1 := CountUsedIn(refs.rps.s1);
    n := n + n0 + n1;
  }

  /** `n` list_entry_lX values after `acc`, each an index into the temporary list. */
  function TakeEntries(acc: seq<nat>, n: nat, total: nat, bs: seq<bool>): (r: Option<(seq<nat>, seq<bool>)>)
    requires |acc| <= n
    ensures r.Some? ==> |r.value.0| == n
    decreases n - |acc|
  {
    if |acc| == n then Some((acc, bs))
    else
      var (entry, rest) :- TakeU(CeilLog2Of(total), bs);
      if entry >= total then None else TakeEntries(acc + [entry], n, total, rest)
  }

  /** One list's flag and entries. */
  function TakeListEntries(present: bool, n: nat, total: nat, bs: seq<bool>): Option<((bool, seq<nat>), seq<bool>)> {
    var (modified, rest) :- TakeFlagIf(present, false, bs);
    if modified then
      var (entries, rest1) :- TakeEntries([], n, total, rest);
      Some(((true, entries), rest1))
    else Some(((false, []), rest))
  }

  function TakeListsModification(present: bool, sliceType: SliceType, l0: nat, l1: nat, total: nat, bs: seq<bool>)
    : Option<(ActiveRefs, seq<bool>)>
  {
    var ((modified0, entries0), rest) :- TakeListEntries(present, l0 + 1, total, bs);
    var ((modified1, entries1), rest1) :- TakeListEntries(present && sliceType == B, l1 + 1, total, rest);
    Some((ActiveRefs(l0, l1, modified0, modified1, entries0, entries1), rest1))
  }

  method ReadEntries(br: BitReader, n: nat, total: nat, bits: nat) returns (r: Option<seq<nat>>)
    requires br.Valid() && bits == CeilLog2Of(total) <= 31
    modifies br
    ensures br.Valid()
    ensures r.None? <==> TakeEntries([], n, total, old(br.Rest())).None?
    ensures r.Some? ==> TakeEntries([], n, total, old(br.Rest())) == Some((r.value, br.Rest()))
    ensures r.Some? ==> |r.value| == n && forall i :: 0 <= i < n ==> r.value[i] < total
  {
    hide BitsOf, ToNat, CeilLog2Of;
    var entries: seq<nat> := [];
    ghost var start := br.Rest();
    for i := 0 to n
      invariant br.Valid() && |entries| == i
      invariant forall k :: 0 <= k < i ==> entries[k] < total
      invariant TakeEntries(entries, n, total, br.Rest()) == TakeEntries([], n, total, start)
    {
      var entry :- br.ReadBits(bits);
      if entry >= total {
        return None;
      }
      entries := entries + [entry];
    }
    return Some(entries);
  }

  method ReadListEntries(br: BitReader, present: bool, n: nat, total: nat) returns (r: Option<(bool, seq<nat>)>)
    requires br.Valid() && total <= 0x8000_0000
    modifies br
    ensures br.Valid()
    ensures r.None? <==> TakeListEntries(present, n, total, old(br.Rest())).None?
    ensures r.Some? ==> TakeListEntries(present, n, total, old(br.Rest())) == Some((r.value, br.Rest()))
    ensures r.Some? && r.value.0 ==> |r.value.1| == n && forall i :: 0 <= i < n ==> r.value.1[i] < total
  {
    hide BitsOf, TakeEntries, TakeFlagIf;
    var bits := CeilLog2(total);
    var modified :- ReadFlagIf(br, present, false);
    if !modified {
      return Some((false, []));
    }
    var entries :- ReadEntries(br, n, total, bits);
    return Some((true, entries));
  }

  /** ref_pic_lists_modification(), when present. */
  method ReadListsModification(br: BitReader, present: bool, sliceType: SliceType, l0: nat, l1: nat, total: nat)
    returns (r: Option<ActiveRefs>)
    requires br.Valid() && l0 <= MAX_REF_IDX_DEFAULT && l1 <= MAX_REF_IDX_DEFAULT && total <= 0x8000_0000
    modifies br
    ensures br.Valid()
    ensures r.None? <==> TakeListsModification(present, sliceType, l0, l1, total, old(br.Rest())).None?
    ensures r.Some? ==>
      TakeListsModification(present, sliceType, l0, l1, total, old(br.Rest())) == Some((r.value, br.Rest()))
    ensures r.Some? ==> ValidActive(r.value, total)
  {
    hide BitsOf, TakeListEntries;
    var list0 :- ReadListEntries(br, present, l0 + 1, total);
    var list1 :- ReadListEntries(br, present && sliceType == B, l1 + 1, total);
    return Some(ActiveRefs(l0, l1, list0.0, list1.0, list0.1, list1.1));
  }

  /** The active counts, defaulting to those of the PPS. */
  function TakeCountsActive(ctx: SliceContext, sliceType: SliceType, bs: seq<bool>): (r: Option<(nat, nat, seq<bool>)>)
    requires ctx.numRefIdxL0DefaultMinus1 <= MAX_REF_IDX_DEFAULT && ctx.numRefIdxL1DefaultMinus1 <= MAX_REF_IDX_DEFAULT
    ensures r.Some? ==> r.value.0 <= MAX_REF_IDX_DEFAULT && r.value.1 <= MAX_REF_IDX_DEFAULT
  {
    var (override, rest) :- TakeFlag(bs);
    var (l0, rest1) :- TakeUeIf(override, ctx.numRefIdxL0DefaultMinus1, rest);
    var (l1, rest2) :- TakeUeIf(override && sliceType == B, ctx.numRefIdxL1DefaultMinus1, rest1);
    if l0 > MAX_REF_IDX_DEFAULT || l1 > MAX_REF_IDX_DEFAULT then None else Some((l0, l1, rest2))
  }

  function TakeActive(ctx: SliceContext, sliceType: SliceType, total: nat, bs: seq<bool>)
    : Option<(ActiveRefs, seq<bool>)>
    requires ctx.numRefIdxL0DefaultMinus1 <= MAX_REF_IDX_DEFAULT && ctx.numRefIdxL1DefaultMinus1 <= MAX_REF_IDX_DEFAULT
  {
    if sliceType == I then
      Some((ActiveRefs(ctx.numRefIdxL0DefaultMinus1, ctx.numRefIdxL1DefaultMinus1, false, false, [], []), bs))
    else
      var (l0, l1, rest) :- TakeCountsActive(ctx, sliceType, bs);
      TakeListsModification(ctx.listsModificationPresent && total > 1, sliceType, l0, l1, total, rest)
  }

  method ReadCountsActive(br: BitReader, ctx: SliceContext, sliceType: SliceType) returns (r: Option<(nat, nat)>)
    requires br.Valid() && ctx.Valid()
    modifies br
    ensures br.Valid()
    ensures r.None? <==> TakeCountsActive(ctx, sliceType, old(br.Rest())).None?
    ensures r.Some? ==> TakeCountsActive(ctx, sliceType, old(br.Rest())) == Some((r.value.0, r.value.1, br.Rest()))
    ensures r.Some? ==> r.value.0 <= MAX_REF_IDX_DEFAULT && r.value.1 <= MAX_REF_IDX_DEFAULT
  {
    hide BitsOf, TakeUeIf;
    var override :- br.ReadFlag();
    var l0 :- ReadUeIf(br, override, ctx.numRefIdxL0DefaultMinus1);
    var l1 :- ReadUeIf(br, override && sliceType == B, ctx.numRefIdxL1DefaultMinus1);
    if l0 > MAX_REF_IDX_DEFAULT || l1 > MAX_REF_IDX_DEFAULT {
      return None;
    }
    return Some((l0, l1));
  }

  method ReadActive(br: BitReader, ctx: SliceContext, sliceType: SliceType, total: nat) returns (r: Option<ActiveRefs>)
    requires br.Valid() && ctx.Valid() && total <= 0x8000_0000
    modifies br
    ensures br.Valid()
    ensures r.None? <==> TakeActive(ctx, sliceType, total, old(br.Rest())).None?
    ensures r.Some? ==> TakeActive(ctx, sliceType, total, old(br.Rest())) == Some((r.value, br.Rest()))
    ensures r.Some? ==> ValidActive(r.value, total)
  {
    hide BitsOf, TakeCountsActive, TakeListsModification;
    if sliceType == I {
      return Some(ActiveRefs(ctx.numRefIdxL0DefaultMinus1, ctx.numRefIdxL1DefaultMinus1, false, false, [], []));
    }
    var counts :- ReadCountsActive(br, ctx, sliceType);
    r := ReadListsModification(br, ctx.listsModificationPresent && total > 1, sliceType, counts.0, counts.1, total);
  }

  // ----- The P and B fields

  function TakeFlagList(acc: seq<bool>, n: nat, bs: seq<bool>): (r: Option<(seq<bool>, seq<bool>)>)
    requires |acc| <= n
    ensures r.Some? ==> |r.value.0| == n
    decreases n - |acc|
  {
    if |acc| == n then Some((acc, bs))
    else
      var (flag, rest) :- TakeFlag(bs);
      TakeFlagList(acc + [flag], n, rest)
  }

  /** A weight and its offset, when their flag is set. */
  function TakeWeight(present: bool, bs: seq<bool>): Option<(Weight, seq<bool>)> {
    var (delta, rest) :- TakeSeIf(present, bs);
    var (offset, rest1) :- TakeSeIf(present, rest);
    Some((Weight(delta, offset), rest1))
  }

  function TakeRefWeight(luma: bool, chroma: bool, bs: seq<bool>): Option<(RefWeight, seq<bool>)> {
    var (y, rest) :- TakeWeight(luma, bs);
    var (cb, rest1) :- TakeWeight(chroma, rest);
    var (cr, rest2) :- TakeWeight(chroma, rest1);
    Some((RefWeight(luma, chroma, y, cb, cr), rest2))
  }

  function TakeWeights(acc: seq<RefWeight>, luma: seq<bool>, chroma: seq<bool>, bs: seq<bool>)
    : (r: Option<(seq<RefWeight>, seq<bool>)>)
    requires |acc| <= |luma| == |chroma|
    ensures r.Some? ==> |r.value.0| == |luma|
    decreases |luma| - |acc|
  {
    var i := |acc|;
    if i == |luma| then Some((acc, bs))
    else
      var (w, rest) :- TakeRefWeight(luma[i], chroma[i], bs);
      TakeWeights(acc + [w], luma, chroma, rest)
  }

  /** One list of pred_weight_table(): all flags first, then the weights they announce. */
  function TakeWeightList(ctx: SliceContext, n: nat, bs: seq<bool>): Option<(seq<RefWeight>, seq<bool>)> {
    var (luma, rest) :- TakeFlagList([], n, bs);
    var (chroma, rest1) :-
      if ctx.chromaArrayType != 0 then TakeFlagList([], n, rest) else Some((seq(n, _ => false), rest));
    TakeWeights([], luma, chroma, rest1)
  }

  /** pred_weight_table(), when the PPS asks for one. */
  function TakeWeightTable(ctx: SliceContext, sliceType: SliceType, active: ActiveRefs, bs: seq<bool>)
    : Option<(WeightTable, seq<bool>)>
  {
    if !((ctx.weightedPred && sliceType == P) || (ctx.weightedBipred && sliceType == B)) then Some((NO_WEIGHTS, bs))
    else
      var (lumaDenom, rest) :- TakeUe(bs);
      var (chromaDelta, rest1) :- TakeSeIf(ctx.chromaArrayType != 0, rest);
      var (l0, rest2) :- TakeWeightList(ctx, active.l0Minus1 + 1, rest1);
      var (l1, rest3) :- if sliceType == B then TakeWeightList(ctx, active.l1Minus1 + 1, rest2) else Some(([], rest2));
      Some((WeightTable(lumaDenom, chromaDelta, l0, l1), rest3))
  }

  /** collocated_from_l0_flag and collocated_ref_idx. */
  function TakeCollocated(sliceType: SliceType, temporalMvp: bool, active: ActiveRefs, bs: seq<bool>)
    : Option<((bool, nat), seq<bool>)>
  {
    var (fromL0, rest) :- TakeFlagIf(temporalMvp && sliceType == B, true, bs);
    var (refIdx, rest1) :-
      TakeUeIf(temporalMvp && ((fromL0 && active.l0Minus1 > 0) || (!fromL0 && active.l1Minus1 > 0)), 0, rest);
    Some(((fromL0, refIdx), rest1))
  }

  function TakeInterFields(
    ctx: SliceContext, sliceType: SliceType, temporalMvp: bool, active: ActiveRefs, bs: seq<bool>)
    : Option<(InterFields, seq<bool>)>
  {
    if sliceType == I then Some((NO_INTER, bs))
    else
      var (mvdL1Zero, rest) :- TakeFlagIf(sliceType == B, false, bs);
      var (cabacInit, rest1) :- TakeFlagIf(ctx.cabacInitPresent, false, rest);
      var ((fromL0, refIdx), rest2) :- TakeCollocated(sliceType, temporalMvp, active, rest1);
      var (weights, rest3) :- TakeWeightTable(ctx, sliceType, active, rest2);
      var (five, rest4) :- TakeUe(rest3);
      if five > 4 then None else Some((InterFields(mvdL1Zero, cabacInit, fromL0, refIdx, weights, five), rest4))
  }

  method ReadFlagList(br: BitReader, n: nat) returns (r: Option<seq<bool>>)
    requires br.Valid()
    modifies br
    ensures br.Valid()
    ensures r.None? <==> TakeFlagList([], n, old(br.Rest())).None?
    ensures r.Some? ==> TakeFlagList([], n, old(br.Rest())) == Some((r.value, br.Rest()))
    ensures r.Some? ==> |r.value| == n
  {
    hide BitsOf;
    var flags: seq<bool> := [];
    ghost var start := br.Rest();
    for i := 0 to n
      invariant br.Valid() && |flags| == i
      invariant TakeFlagList(flags, n, br.Rest()) == TakeFlagList([], n, start)
    {
      var flag :- br.ReadFlag();
      flags := flags + [flag];
    }
    return Some(flags);
  }

  method ReadWeight(br: BitReader, present: bool) returns (r: Option<Weight>)
    requires br.Valid()
    modifies br
    ensures br.Valid()
    ensures r.None? <==> TakeWeight(present, old(br.Rest())).None?
    ensures r.Some? ==> TakeWeight(present, old(br.Rest())) == Some((r.value, br.Rest()))
  {
    hide BitsOf, TakeSeIf;
    var delta :- ReadSeIf(br, present);
    var offset :- ReadSeIf(br, present);
    return Some(Weight(delta, offset));
  }

  /** delta_luma_weight and luma_offset, then delta_chroma_weight and delta_chroma_offset for Cb and for Cr. */
  method ReadRefWeight(br: BitReader, luma: bool, chroma: bool) returns (r: Option<RefWeight>)
    requires br.Valid()
    modifies br
    ensures br.Valid()
    ensures r.None? <==> TakeRefWeight(luma, chroma, old(br.Rest())).None?
    ensures r.Some? ==> TakeRefWeight(luma, chroma, old(br.Rest())) == Some((r.value, br.Rest()))
  {
    hide BitsOf, TakeWeight;
    var y :- ReadWeight(br, luma);
    var cb :- ReadWeight(br, chroma);
    var cr :- ReadWeight(br, chroma);
    return Some(RefWeight(luma, chroma, y, cb, cr));
  }

  method ReadWeights(br: BitReader, luma: seq<bool>, chroma: seq<bool>) returns (r: Option<seq<RefWeight>>)
    requires br.Valid() && |luma| == |chroma|
    modifies br
    ensures br.Valid()
    ensures r.None? <==> TakeWeights([], luma, chroma, old(br.Rest())).None?
    ensures r.Some? ==> TakeWeights([], luma, chroma, old(br.Rest())) == Some((r.value, br.Rest()))
  {
    hide BitsOf, TakeRefWeight;
    var weights: seq<RefWeight> := [];
    ghost var start := br.Rest();
    for i := 0 to |luma|
      invariant br.Valid() && |weights| == i
      invariant TakeWeights(weights, luma, chroma, br.Rest()) == TakeWeights([], luma, chroma, start)
    {
      var w :- ReadRefWeight(br, luma[i], chroma[i]);
      weights := weights + [w];
    }
    return Some(weights);
  }

  method ReadWeightList(br: BitReader, ctx: SliceContext, n: nat) returns (r: Option<seq<RefWeight>>)
    requires br.Valid()
    modifies br
    ensures br.Valid()
    ensures r.None? <==> TakeWeightList(ctx, n, old(br.Rest())).None?
    ensures r.Some? ==> TakeWeightList(ctx, n, old(br.Rest())) == Some((r.value, br.Rest()))
  {
    hide BitsOf, TakeFlagList, TakeWeights;
    var luma :- ReadFlagList(br, n);
    var chroma := seq(n, _ => false);
    if ctx.chromaArrayType != 0 {
      chroma :- ReadFlagList(br, n);
    }
    r := ReadWeights(br, luma, chroma);
  }

  method ReadWeightTable(br: BitReader, ctx: SliceContext, sliceType: SliceType, active: ActiveRefs)
    returns (r: Option<WeightTable>)
    requires br.Valid()
    modifies br
    ensures br.Valid()
    ensures r.None? <==> TakeWeightTable(ctx, sliceType, active, old(br.Rest())).None?
    ensures r.Some? ==> TakeWeightTable(ctx, sliceType, active, old(br.Rest())) == Some((r.value, br.Rest()))
  {
    hide BitsOf, TakeUe, TakeSeIf, TakeWeightList;
    if !((ctx.weightedPred && sliceType == P) || (ctx.weightedBipred && sliceType == B)) {
      return Some(NO_WEIGHTS);
    }
    var lumaDenom :- br.ReadUe();
    var chromaDelta :- ReadSeIf(br, ctx.chromaArrayType != 0);
    var l0 :- ReadWeightList(br, ctx, active.l0Minus1 + 1);
    var l1: seq<RefWeight> := [];
    if sliceType == B {
      l1 :- ReadWeightList(br, ctx, active.l1Minus1 + 1);
    }
    return Some(WeightTable(lumaDenom, chromaDelta, l0, l1));
  }

  method ReadCollocated(br: BitReader, sliceType: SliceType, temporalMvp: bool, active: ActiveRefs)
    returns (r: Option<(bool, nat)>)
    requires br.Valid()
    modifies br
    ensures br.Valid()
    ensures r.None? <==> TakeCollocated(sliceType, temporalMvp, active, old(br.Rest())).None?
    ensures r.Some? ==> TakeCollocated(sliceType, temporalMvp, active, old(br.Rest())) == Some((r.value, br.Rest()))
  {
    hide BitsOf, TakeFlagIf, TakeUeIf;
    var fromL0 :- ReadFlagIf(br, temporalMvp && sliceType == B, true);
    var refIdx :-
      ReadUeIf(br, temporalMvp && ((fromL0 && active.l0Minus1 > 0) || (!fromL0 && active.l1Minus1 > 0)), 0);
    return Some((fromL0, refIdx));
  }

  /** From mvd_l1_zero_flag to the merge candidate count. */
  method ReadInterFields(br: BitReader, ctx: SliceContext, sliceType: SliceType, temporalMvp: bool, active: ActiveRefs)
    returns (r: Option<InterFields>)
    requires br.Valid()
    modifies br
    ensures br.Valid()
    ensures r.None? <==> TakeInterFields(ctx, sliceType, temporalMvp, active, old(br.Rest())).None?
    ensures r.Some? ==>
      TakeInterFields(ctx, sliceType, temporalMvp, active, old(br.Rest())) == Some((r.value, br.Rest()))
  {
    hide BitsOf, TakeUe, TakeFlagIf, TakeCollocated, TakeWeightTable;
    if sliceType == I {
      return Some(NO_INTER);
    }
    var mvdL1Zero :- ReadFlagIf(br, sliceType == B, false);
    var cabacInit :- ReadFlagIf(br, ctx.cabacInitPresent, false);
    var collocated :- ReadCollocated(br, sliceType, temporalMvp, active);
    var weights :- ReadWeightTable(br, ctx, sliceType, active);
    var five :- br.ReadUe();
    if five > 4 {
      return None;
    }
    return Some(InterFields(mvdL1Zero, cabacInit, collocated.0, collocated.1, weights, five));
  }

  // ----- The filter fields

  /** Whether deblocking is disabled, and the offsets coded when it is overridden. */
  function TakeDeblocking(ctx: SliceContext, bs: seq<bool>): Option<((bool, int, int), seq<bool>)> {
    var (override, rest) :- TakeFlagIf(ctx.deblockingOverrideEnabled, false, bs);
    var (disabled, rest1) :- TakeFlagIf(override, ctx.ppsDeblockingDisabled, rest);
    var (beta, rest2) :- TakeSeIf(override && !disabled, rest1);
    var (tc, rest3) :- TakeSeIf(override && !disabled, rest2);
    Some(((disabled, beta, tc), rest3))
  }

  function TakeQpOffsets(ctx: SliceContext, bs: seq<bool>): Option<((int, int, int, bool), seq<bool>)> {
    var (qpDelta, rest) :- TakeSe(bs);
    var (cb, rest1) :- TakeSeIf(ctx.chromaQpOffsetsPresent, rest);
    var (cr, rest2) :- TakeSeIf(ctx.chromaQpOffsetsPresent, rest1);
    var (cuChroma, rest3) :- TakeFlagIf(ctx.chromaQpOffsetListEnabled, false, rest2);
    Some(((qpDelta, cb, cr, cuChroma), rest3))
  }

  function TakeFilterFields(ctx: SliceContext, sao: bool, bs: seq<bool>): Option<(FilterFields, seq<bool>)> {
    var ((qpDelta, cb, cr, cuChroma), rest) :- TakeQpOffsets(ctx, bs);
    var ((disabled, beta, tc), rest1) :- TakeDeblocking(ctx, rest);
    var (across, rest2) :- TakeFlagIf(ctx.loopFilterAcrossSlices && (sao || !disabled), false, rest1);
    Some((FilterFields(qpDelta, cb, cr, cuChroma, disabled, beta, tc, across), rest2))
  }

  method ReadDeblocking(br: BitReader, ctx: SliceContext) returns (r: Option<(bool, int, int)>)
    requires br.Valid()
    modifies br
    ensures br.Valid()
    ensures r.None? <==> TakeDeblocking(ctx, old(br.Rest())).None?
    ensures r.Some? ==> TakeDeblocking(ctx, old(br.Rest())) == Some((r.value, br.Rest()))
  {
    hide BitsOf, TakeFlagIf, TakeSeIf;
    var override :- ReadFlagIf(br, ctx.deblockingOverrideEnabled, false);
    var disabled :- ReadFlagIf(br, override, ctx.ppsDeblockingDisabled);
    var beta :- ReadSeIf(br, override && !disabled);
    var tc :- ReadSeIf(br, override && !disabled);
    return Some((disabled, beta, tc));
  }

  method ReadQpOffsets(br: BitReader, ctx: SliceContext) returns (r: Option<(int, int, int, bool)>)
    requires br.Valid()
    modifies br
    ensures br.Valid()
    ensures r.None? <==> TakeQpOffsets(ctx, old(br.Rest())).None?
    ensures r.Some? ==> TakeQpOffsets(ctx, old(br.Rest())) == Some((r.value, br.Rest()))
  {
    hide BitsOf, TakeSe, TakeFlagIf, TakeSeIf;
    var qpDelta :- br.ReadSe();
    var cb :- ReadSeIf(br, ctx.chromaQpOffsetsPresent);
    var cr :- ReadSeIf(br, ctx.chromaQpOffsetsPresent);
    var cuChroma :- ReadFlagIf(br, ctx.chromaQpOffsetListEnabled, false);
    return Some((qpDelta, cb, cr, cuChroma));
  }

  method ReadFilterFields(br: BitReader, ctx: SliceContext, sao: bool) returns (r: Option<FilterFields>)
    requires br.Valid()
    modifies br
    ensures br.Valid()
    ensures r.None? <==> TakeFilterFields(ctx, sao, old(br.Rest())).None?
    ensures r.Some? ==> TakeFilterFields(ctx, sao, old(br.Rest())) == Some((r.value, br.Rest()))
  {
    hide BitsOf, TakeQpOffsets, TakeDeblocking, TakeFlagIf;
    var qp :- ReadQpOffsets(br, ctx);
    var deblocking :- ReadDeblocking(br, ctx);
    var across :- ReadFlagIf(br, ctx.loopFilterAcrossSlices && (sao || !deblocking.0), false);
    return Some(FilterFields(qp.0, qp.1, qp.2, qp.3, deblocking.0, deblocking.1, deblocking.2, across));
  }

  // ----- Entry points, extension and alignment

  function TakeSkip(n: nat, bs: seq<bool>): Option<seq<bool>> {
    if n <= |bs| then Some(bs[n..]) else None
  }

  /** num_entry_point_offsets; the offsets themselves are skipped. */
  function TakeEntryPoints(ctx: SliceContext, bs: seq<bool>): Option<(nat, seq<bool>)> {
    var (n, rest) :- TakeUeIf(ctx.tilesEnabled || ctx.entropySyncEnabled, 0, bs);
    if n > MAX_ENTRY_POINT_OFFSETS then None
    else
      var (lenMinus1, rest1) :- TakeUeIf(n > 0, 0, rest);
      if lenMinus1 > 31 then None
      else
        var rest2 :- TakeSkip(if n > 0 then n * (lenMinus1 + 1) else 0, rest1);
        Some((n, rest2))
  }

  /** The header extension, skipped. */
  function TakeExtension(ctx: SliceContext, bs: seq<bool>): Option<seq<bool>> {
    var (n, rest) :- TakeUeIf(ctx.headerExtensionPresent, 0, bs);
    TakeSkip(n * 8, rest)
  }

  /** byte_alignment(), the whole buffer being a number of bytes. */
  function TakeAlignment(bs: seq<bool>): Option<seq<bool>> {
    if bs == [] || !bs[0] then None
    else
      var pad := (|bs| - 1) % 8;
      if forall k :: 1 <= k <= pad ==> !bs[k] then Some(bs[1 + pad..]) else None
  }

  lemma MulStep(i: nat, n: nat, width: nat)
    requires i < n
    ensures (i + 1) * width == i * width + width <= n * width
  {
    MulMonotone(width, i + 1, n);
  }

  lemma Skipped(bits: seq<bool>, start: nat, n: nat)
    requires start <= |bits|
    ensures TakeSkip(n, bits[start..]) == if start + n <= |bits| then Some(bits[start + n..]) else None
  {
    if start + n <= |bits| {
      assert bits[start..][n..] == bits[start + n..];
    }
  }

  /** `n` skips of `width` bits: the loops of the entry points and of the extension bytes. */
  method SkipFields(br: BitReader, n: nat, width: nat) returns (ok: bool)
    requires br.Valid()
    modifies br
    ensures br.Valid()
    ensures ok <==> TakeSkip(n * width, old(br.Rest())).Some?
    ensures ok ==> TakeSkip(n * width, old(br.Rest())) == Some(br.Rest())
  {
    hide BitsOf, TakeSkip;
    ghost var start, total := br.pos, n * width;
    Skipped(BitsOf(br.data), start, total);
    ghost var done: nat := 0;
    for i := 0 to n
      invariant br.Valid() && done == i * width && br.pos == start + done
    {
      MulStep(i, n, width);
      var skipped := br.SkipBits(width);
      if !skipped {
        return false;
      }
      done := done + width;
    }
    return true;
  }

  method ReadEntryPoints(br: BitReader, ctx: SliceContext) returns (r: Option<nat>)
    requires br.Valid()
    modifies br
    ensures br.Valid()
    ensures r.None? <==> TakeEntryPoints(ctx, old(br.Rest())).None?
    ensures r.Some? ==> TakeEntryPoints(ctx, old(br.Rest())) == Some((r.value, br.Rest()))
  {
    hide BitsOf, TakeUeIf;
    var n :- ReadUeIf(br, ctx.tilesEnabled || ctx.entropySyncEnabled, 0);
    if n > MAX_ENTRY_POINT_OFFSETS {
      return None;
    }
    var lenMinus1 :- ReadUeIf(br, n > 0, 0);
    if lenMinus1 > 31 {
      return None;
    }
    var ok := SkipFields(br, n, lenMinus1 + 1);
    if !ok {
      return None;
    }
    return Some(n);
  }

  method ReadExtension(br: BitReader, ctx: SliceContext) returns (ok: bool)
    requires br.Valid()
    modifies br
    ensures br.Valid()
    ensures ok <==> TakeExtension(ctx, old(br.Rest())).Some?
    ensures ok ==> TakeExtension(ctx, old(br.Rest())) == Some(br.Rest())
  {
    hide BitsOf, TakeUeIf;
    var n := ReadUeIf(br, ctx.headerExtensionPresent, 0);
    if n == None {
      return false;
    }
    ok := SkipFields(br, n.value, 8);
  }

  lemma PaddingShift(bs: seq<bool>, q: nat, end: nat)
    requires q < end <= |bs|
    ensures (forall k :: q < k < end ==> !bs[k]) <==> (forall j :: 1 <= j <= end - q - 1 ==> !bs[q..][j])
  {
    if forall j :: 1 <= j <= end - q - 1 ==> !bs[q..][j] {
      forall k | q < k < end
        ensures !bs[k]
      {
        assert !bs[q..][k - q];
      }
    }
  }

  lemma AlignmentTakes(bs: seq<bool>, q: nat)
    requires |bs| % 8 == 0 && q <= |bs|
    ensures var end := q - q % 8 + 8;
      && (AlignmentAt(bs, q) <==> TakeAlignment(bs[q..]).Some?)
      && (AlignmentAt(bs, q) ==> TakeAlignment(bs[q..]) == Some(bs[end..]))
  {
    if q < |bs| {
      var end := q - q % 8 + 8;
      PadLength(|bs|, q);
      PaddingShift(bs, q, end);
      assert bs[q..][end - q..] == bs[end..];
    }
  }

  lemma PadLength(n: nat, q: nat)
    requires n % 8 == 0 && q < n
    ensures (n - q - 1) % 8 == 7 - q % 8 && q - q % 8 + 8 <= n
  {
  }

  // ----- The header

  /** The fields before the references. */
  function TakeTop(ctx: SliceContext, bs: seq<bool>): Option<((SliceType, bool, nat), seq<bool>)> {
    var rest :- TakeSkip(ctx.numExtraSliceHeaderBits, bs);
    var (code, rest1) :- TakeUe(rest);
    if code > 2 then None
    else
      var (picOutput, rest2) :- TakeFlagIf(ctx.outputFlagPresent, true, rest1);
      var (colourPlane, rest3) :- TakeUIf(ctx.separateColourPlane, 2, rest2);
      Some(((SliceTypeOf(code), picOutput, colourPlane), rest3))
  }

  function SliceTypeOf(code: nat): SliceType {
    if code == 0 then B else if code == 1 then P else I
  }

  function TakeSao(ctx: SliceContext, bs: seq<bool>): Option<((bool, bool), seq<bool>)> {
    var (luma, rest) :- TakeFlagIf(ctx.saoEnabled, false, bs);
    var (chroma, rest1) :- TakeFlagIf(ctx.saoEnabled && ctx.chromaArrayType != 0, false, rest);
    Some(((luma, chroma), rest1))
  }

  /** From the filter fields to the slice data. */
  function TakeEnd(ctx: SliceContext, sao: bool, bs: seq<bool>): Option<((FilterFields, nat), seq<bool>)> {
    var (filters, rest) :- TakeFilterFields(ctx, sao, bs);
    var (numEntryPoints, rest1) :- TakeEntryPoints(ctx, rest);
    var rest2 :- TakeExtension(ctx, rest1);
    var rest3 :- TakeAlignment(rest2);
    Some(((filters, numEntryPoints), rest3))
  }

  /** Everything after the address, up to the slice data. */
  function TakeBody(ctx: SliceContext, nalType: nat, bs: seq<bool>): Option<(SliceHeader, seq<bool>)>
    requires |ctx.ltUsedSps| == |ctx.ltPocLsbSps|
    requires ctx.numRefIdxL0DefaultMinus1 <= MAX_REF_IDX_DEFAULT && ctx.numRefIdxL1DefaultMinus1 <= MAX_REF_IDX_DEFAULT
  {
    var ((sliceType, picOutput, colourPlane), rest) :- TakeTop(ctx, bs);
    var (refs, rest1) :- TakeReferences(ctx, IsIdr(nalType), rest);
    var ((saoLuma, saoChroma), rest2) :- TakeSao(ctx, rest1);
    var total := NumPicTotalCurr(refs);
    var (active, rest3) :- TakeActive(ctx, sliceType, total, rest2);
    var (inter, rest4) :- TakeInterFields(ctx, sliceType, refs.temporalMvp, active, rest3);
    var ((filters, numEntryPoints), rest5) :- TakeEnd(ctx, saoLuma || saoChroma, rest4);
    Some((SliceHeader(false, false, 0, false, 0, sliceType, picOutput, colourPlane, refs, saoLuma, saoChroma, total,
                      active, inter, filters, numEntryPoints, 0), rest5))
  }

  /** dependent_slice_segment_flag and slice_segment_address, absent from a first segment. */
  function TakeAddress(ctx: SliceContext, first: bool, bs: seq<bool>): Option<((bool, nat), seq<bool>)> {
    if first then Some(((false, 0), bs))
    else
      var (dependent, rest) :- TakeFlagIf(ctx.dependentSlicesEnabled, false, bs);
      var (address, rest1) :- TakeU(CeilLog2Of(ctx.picSizeInCtbs), rest);
      if address >= ctx.picSizeInCtbs then None else Some(((dependent, address), rest1))
  }

  function DependentHeader(first: bool, noOutput: bool, ppsId: nat, address: nat): SliceHeader {
    SliceHeader(first, noOutput, ppsId, true, address, I, true, 0, NO_REFERENCES, false, false, 0,
                ActiveRefs(0, 0, false, false, [], []), NO_INTER, NO_FILTERS, 0, 0)
  }

  /** slice_segment_header() of a whole buffer. */
  function HeaderOf(ctx: SliceContext, nalType: nat, bs: seq<bool>): Option<SliceHeader>
    requires |ctx.ltUsedSps| == |ctx.ltPocLsbSps|
    requires ctx.numRefIdxL0DefaultMinus1 <= MAX_REF_IDX_DEFAULT && ctx.numRefIdxL1DefaultMinus1 <= MAX_REF_IDX_DEFAULT
  {
    var (first, rest) :- TakeFlag(bs);
    var (noOutput, rest1) :- TakeFlagIf(IsIrap(nalType), false, rest);
    var (ppsId, rest2) :- TakeUe(rest1);
    var ((dependent, address), rest3) :- TakeAddress(ctx, first, rest2);
    if dependent then Some(DependentHeader(first, noOutput, ppsId, address))
    else
      var (body, rest4) :- TakeBody(ctx, nalType, rest3);
      Some(body.(firstInPic := first, noOutputOfPriorPics := noOutput, ppsId := ppsId, address := address,
                 dataBitOffset := |bs| - |rest4|))
  }

  method ReadTop(br: BitReader, ctx: SliceContext) returns (r: Option<(SliceType, bool, nat)>)
    requires br.Valid()
    modifies br
    ensures br.Valid()
    ensures r.None? <==> TakeTop(ctx, old(br.Rest())).None?
    ensures r.Some? ==> TakeTop(ctx, old(br.Rest())) == Some((r.value, br.Rest()))
  {
    hide BitsOf, TakeUe, TakeFlagIf, TakeUIf;
    ghost var start, bits := br.pos, BitsOf(br.data);
    var reserved := br.SkipBits(ctx.numExtraSliceHeaderBits);
    if !reserved {
      return None;
    }
    assert bits[start..][ctx.numExtraSliceHeaderBits..] == bits[br.pos..];
    var code :- br.ReadUe();
    if code > 2 {
      return None;
    }
    var picOutput :- ReadFlagIf(br, ctx.outputFlagPresent, true);
    var colourPlane :- ReadUIf(br, ctx.separateColourPlane, 2);
    return Some((SliceTypeOf(code), picOutput, colourPlane));
  }

  method ReadSao(br: BitReader, ctx: SliceContext) returns (r: Option<(bool, bool)>)
    requires br.Valid()
    modifies br
    ensures br.Valid()
    ensures r.None? <==> TakeSao(ctx, old(br.Rest())).None?
    ensures r.Some? ==> TakeSao(ctx, old(br.Rest())) == Some((r.value, br.Rest()))
  {
    hide BitsOf, TakeFlagIf;
    var luma :- ReadFlagIf(br, ctx.saoEnabled, false);
    var chroma :- ReadFlagIf(br, ctx.saoEnabled && ctx.chromaArrayType != 0, false);
    return Some((luma, chroma));
  }

  method ReadAddress(br: BitReader, ctx: SliceContext, first: bool) returns (r: Option<(bool, nat)>)
    requires br.Valid() && ctx.Valid()
    modifies br
    ensures br.Valid()
    ensures r.None? <==> TakeAddress(ctx, first, old(br.Rest())).None?
    ensures r.Some? ==> TakeAddress(ctx, first, old(br.Rest())) == Some((r.value, br.Rest()))
    ensures r.Some? && first ==> r.value == (false, 0)
    ensures r.Some? && !first ==> r.value.1 < ctx.picSizeInCtbs && (r.value.0 ==> ctx.dependentSlicesEnabled)
  {
    hide BitsOf, ToNat;
    if first {
      return Some((false, 0));
    }
    var dependent :- ReadFlagIf(br, ctx.dependentSlicesEnabled, false);
    var bits := CeilLog2(ctx.picSizeInCtbs);
    var address :- br.ReadBits(bits);
    return if address >= ctx.picSizeInCtbs then None else Some((dependent, address));
  }

  /** What an accepted independent slice segment header promises. */
  ghost predicate ValidHeader(sh: SliceHeader, nalType: nat, ctx: SliceContext, rbsp: seq<Byte>) {
    && ValidReferences(sh.refs, ctx.log2MaxPocLsb)
    && (IsIdr(nalType) ==> sh.refs == NO_REFERENCES)
    && sh.numPicTotalCurr == NumPicTotalCurr(sh.refs)
    && ValidActive(sh.active, sh.numPicTotalCurr)
    && EndsAligned(sh.dataBitOffset, rbsp)
  }

  /** A whole number of bytes into the RBSP, behind a byte that is not zero. */
  predicate EndsAligned(bitOffset: int, rbsp: seq<Byte>) {
    && bitOffset % 8 == 0
    && 0 < bitOffset / 8 <= |rbsp|
    && rbsp[bitOffset / 8 - 1] != 0
  }

  /** byte_alignment() as the end of the header: the byte before the slice data is not zero. */
  method ReadAlignment(br: BitReader) returns (ok: bool)
    requires br.Valid()
    modifies br
    ensures br.Valid()
    ensures ok <==> TakeAlignment(old(br.Rest())).Some?
    ensures ok ==> TakeAlignment(old(br.Rest())) == Some(br.Rest())
    ensures ok ==> br.pos % 8 == 0 && br.pos > 0 && br.data[br.pos / 8 - 1] != 0
  {
    hide BitsOf, TakeAlignment;
    ghost var q := br.pos;
    AlignmentTakes(BitsOf(br.data), q);
    ok := ByteAlignment(br);
    if ok {
      AlignedByteNonzero(br.data, q);
      assert br.pos / 8 - 1 == q / 8;
    }
  }

  method ReadEnd(br: BitReader, ctx: SliceContext, sao: bool) returns (r: Option<(FilterFields, nat)>)
    requires br.Valid()
    modifies br
    ensures br.Valid()
    ensures r.None? <==> TakeEnd(ctx, sao, old(br.Rest())).None?
    ensures r.Some? ==> TakeEnd(ctx, sao, old(br.Rest())) == Some((r.value, br.Rest()))
    ensures r.Some? ==> br.pos % 8 == 0 && br.pos > 0 && br.data[br.pos / 8 - 1] != 0
  {
    hide BitsOf, TakeFilterFields, TakeEntryPoints, TakeExtension, TakeAlignment;
    var filters :- ReadFilterFields(br, ctx, sao);
    var numEntryPoints :- ReadEntryPoints(br, ctx);
    var extended := ReadExtension(br, ctx);
    if !extended {
      return None;
    }
    var aligned := ReadAlignment(br);
    if !aligned {
      return None;
    }
    return Some((filters, numEntryPoints));
  }

  lemma HeaderValid(sh: SliceHeader, nalType: nat, ctx: SliceContext, rbsp: seq<Byte>)
    requires ValidReferences(sh.refs, ctx.log2MaxPocLsb) && (IsIdr(nalType) ==> sh.refs == NO_REFERENCES)
    requires sh.numPicTotalCurr == NumPicTotalCurr(sh.refs) && ValidActive(sh.active, sh.numPicTotalCurr)
    requires EndsAligned(sh.dataBitOffset, rbsp)
    ensures ValidHeader(sh, nalType, ctx, rbsp)
  {
    hide ValidReferences, ValidActive, NumPicTotalCurr, IsIdr, EndsAligned;
  }

  lemma WholeBytes(bitOffset: nat, rbsp: seq<Byte>)
    requires bitOffset % 8 == 0 && 0 < bitOffset <= 8 * |rbsp| && rbsp[bitOffset / 8 - 1] != 0
    ensures EndsAligned(bitOffset, rbsp)
  {
  }

  method ReadBody(br: BitReader, ctx: SliceContext, nalType: nat) returns (r: Option<SliceHeader>)
    requires br.Valid() && ctx.Valid()
    modifies br
    ensures br.Valid()
    ensures r.None? <==> TakeBody(ctx, nalType, old(br.Rest())).None?
    ensures r.Some? ==> TakeBody(ctx, nalType, old(br.Rest())) == Some((r.value, br.Rest()))
    ensures r.Some? ==> ValidHeader(r.value.(dataBitOffset := br.pos), nalType, ctx, br.data) && !r.value.dependent
  {
    hide BitsOf, TakeTop, TakeReferences, TakeSao, TakeActive, TakeInterFields, TakeEnd, ValidActive, ValidReferences,
         ValidHeader, NumPicTotalCurr, IsIdr, EndsAligned;
    var top :- ReadTop(br, ctx);
    var refs :- ReadReferences(br, ctx, IsIdr(nalType));
    var sao :- ReadSao(br, ctx);
    var total := CountTotal(refs);
    TotalBound(refs, ctx.log2MaxPocLsb);
    var active :- ReadActive(br, ctx, top.0, total);
    var inter :- ReadInterFields(br, ctx, top.0, refs.temporalMvp, active);
    var end :- ReadEnd(br, ctx, sao.0 || sao.1);
    var sh := SliceHeader(false, false, 0, false, 0, top.0, top.1, top.2, refs, sao.0, sao.1, total, active, inter,
                          end.0, end.1, 0);
    WholeBytes(br.pos, br.data);
    HeaderValid(sh.(dataBitOffset := br.pos), nalType, ctx, br.data);
    return Some(sh);
  }

  lemma {:induction false} UsedBound(side: seq<DeltaPoc>)
    ensures CountUsed(side) <= |side|
  {
    if side != [] {
      UsedBound(side[..|side| - 1]);
    }
  }

  lemma {:induction false} UsedLongTermBound(lts: seq<LongTermRef>)
    ensures CountUsedLongTerm(lts) <= |lts|
  {
    if lts != [] {
      UsedLongTermBound(lts[..|lts| - 1]);
    }
  }

  lemma TotalBound(refs: ReferenceInfo, log2MaxPocLsb: nat)
    requires ValidReferences(refs, log2MaxPocLsb)
    ensures NumPicTotalCurr(refs) <= MAX_REF_PICS + MAX_LONG_TERM_TOTAL
  {
    UsedBound(refs.rps.s0);
    UsedBound(refs.rps.s1);
    UsedLongTermBound(refs.longTerm);
  }

  /**
   * ParseSliceHeader. The result is slice_segment_header() of the buffer's
   * bits; a dependent segment's header ends after its address, every other
   * accepted header is valid.
   */
  method ParseSliceHeader(rbsp: seq<Byte>, nalType: nat, ctx: SliceContext) returns (r: Option<SliceHeader>)
    requires ctx.Valid()
    ensures r == HeaderOf(ctx, nalType, BitsOf(rbsp))
    ensures r.Some? && !r.value.dependent ==> ValidHeader(r.value, nalType, ctx, rbsp)
    ensures r.Some? && r.value.dependent ==> !r.value.firstInPic && ctx.dependentSlicesEnabled
    ensures r.Some? && !r.value.firstInPic ==> r.value.address < ctx.picSizeInCtbs
    ensures r.Some? && r.value.firstInPic ==> r.value.address == 0
  {
    hide BitsOf, TakeUe, TakeFlagIf, TakeAddress, TakeBody, ValidReferences, ValidActive, NumPicTotalCurr;
    var br := new BitReader(rbsp);
    var first :- br.ReadFlag();
    var noOutput :- ReadFlagIf(br, IsIrap(nalType), false);
    var ppsId :- br.ReadUe();
    var at :- ReadAddress(br, ctx, first);
    if at.0 {
      return Some(DependentHeader(first, noOutput, ppsId, at.1));
    }
    var body :- ReadBody(br, ctx, nalType);
    return Some(body.(firstInPic := first, noOutputOfPriorPics := noOutput, ppsId := ppsId, address := at.1,
                      dataBitOffset := br.pos));
  }
}
