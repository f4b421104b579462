/**
 * Reference picture lists, section 8.3.4 of ITU-T H.265. The engine cycles
 * through one concatenation of the three subsets; the standard appends the
 * subsets over and over into a temporary list. Both give the same list.
 */
module RefLists {
  import opened Wrappers
  import opened ShortTermRpsSets
  import opened DpbMachine
  import opened DpbBuffers
  import opened SliceHeaders
  import Bits

  const MAX_BUFFERS: nat := 64

  /** What the driver is told about one DPB entry. */
  datatype DpbEntry = DpbEntry(timestampNs: nat, poc: int, longTerm: bool)

  /** v4l2_ctrl_hevc_decode_params: the DPB and the three current subsets, as DPB indices. */
  datatype DecodeParams = DecodeParams(
    poc: int,
    dpb: seq<DpbEntry>,
    before: seq<nat>,
    after: seq<nat>,
    longTerm: seq<nat>)

  /** The timestamp a tag stands for, in the 64-bit nanoseconds of the driver. */
  function TagNs(tag: nat): (ns: nat)
    ensures ns < 0x1_0000_0000_0000_0000
  {
    tag * 1_000_000_000 % 0x1_0000_0000_0000_0000
  }

  /** How far apart two tags are that a driver cannot tell apart: 2^64 shares only the factor 2^9 with 10^9. */
  const TAG_PERIOD: int := 0x80_0000_0000_0000

  lemma TagNsEqualIff(a: nat, b: nat)
    ensures TagNs(a) == TagNs(b) <==> (a - b) % TAG_PERIOD == 0
  {
    if TagNs(a) == TagNs(b) {
      TagsAPeriodApart(a, b);
    }
    if (a - b) % TAG_PERIOD == 0 {
      PeriodRepeats(a, b, (a - b) / TAG_PERIOD);
    }
  }

  lemma TagsAPeriodApart(a: nat, b: nat)
    requires TagNs(a) == TagNs(b)
    ensures (a - b) % TAG_PERIOD == 0
  {
    var m := 0x1_0000_0000_0000_0000;
    var q := a * 1_000_000_000 / m - b * 1_000_000_000 / m;
    assert (a - b) * 1_000_000_000 == q * m;
    assert (a - b) * 1_953_125 == q * TAG_PERIOD;
    OddCancels(a - b, q);
  }

  lemma PeriodRepeats(a: nat, b: nat, k: int)
    requires a - b == k * TAG_PERIOD
    ensures TagNs(a) == TagNs(b)
  {
    Bits.Congruent(a * 1_000_000_000, b * 1_000_000_000, k * 1_953_125, 0x1_0000_0000_0000_0000);
  }

  /** 5^9 has an inverse modulo 2^55. */
  lemma OddCancels(d: int, q: int)
    requires d * 1_953_125 == q * TAG_PERIOD
    ensures d % TAG_PERIOD == 0
  {
    var inverse, k := 20211507185753197, 1095668;
    assert 1_953_125 * inverse == 1 + k * TAG_PERIOD;
    assert d * 1_953_125 * inverse == q * inverse * TAG_PERIOD;
    assert d == (q * inverse - d * k) * TAG_PERIOD;
  }

  /** The place of each buffer in the DPB as the driver sees it, first 16 entries only. */
  function DpbIndex(dpb: seq<RefPic>, n: nat, buffer: nat): (r: Option<nat>)
    requires n <= |dpb|
    ensures r.Some? ==> r.value < n && dpb[r.value].buffer == buffer
    ensures r.None? ==> forall j :: 0 <= j < n ==> dpb[j].buffer != buffer
  {
    if n == 0 then None
    else if dpb[n - 1].buffer == buffer then Some(n - 1)
    else DpbIndex(dpb, n - 1, buffer)
  }

  function Shown(dpb: seq<RefPic>): nat {
    if |dpb| < MAX_DPB then |dpb| else MAX_DPB
  }

  /** The index a current reference gets; 0 when it has none. */
  function EntryIndex(dpb: seq<RefPic>, e: RpsEntry): nat {
    if e.Some? && e.value.buffer < MAX_BUFFERS then
      var k := DpbIndex(dpb, Shown(dpb), e.value.buffer);
      if k.Some? then k.value else 0
    else 0
  }

  function EntryIndices(dpb: seq<RefPic>, entries: seq<RpsEntry>): (r: seq<nat>)
    ensures |r| == |entries|
    ensures forall i :: 0 <= i < |r| ==> r[i] == EntryIndex(dpb, entries[i])
  {
    seq(|entries|, i requires 0 <= i < |entries| => EntryIndex(dpb, entries[i]))
  }

  /** The subsets in the order of list 0, or of list 1. */
  function Subsets(rps: RefPicSet, second: bool): seq<RpsEntry> {
    if second then rps.after + rps.before + rps.longTerm else rps.before + rps.after + rps.longTerm
  }

  // ----- References resolve

  /** A reference in the DPB gets the index of its own entry, but 0 in a buffer from 64 on. */
  lemma EntryResolves(dpb: seq<RefPic>, e: RpsEntry)
    requires |dpb| <= MAX_DPB && DistinctBuffers(dpb) && e.Some? && e.value in dpb
    ensures var k := EntryIndex(dpb, e);
      k < |dpb| && if e.value.buffer < MAX_BUFFERS then dpb[k] == e.value else k == 0
  {
    var j :| 0 <= j < |dpb| && dpb[j] == e.value;
    assert e.value.buffer < MAX_BUFFERS ==> DpbIndex(dpb, |dpb|, e.value.buffer).Some?;
  }

  // ----- Lists

  /** The standard's temporary list: the subsets, appended until there are n entries. */
  function WrapTemp(subsets: seq<RpsEntry>, n: nat): (r: seq<RpsEntry>)
    requires subsets != []
    ensures |r| == n
    decreases n
  {
    if n <= |subsets| then subsets[..n] else subsets + WrapTemp(subsets, n - |subsets|)
  }

  lemma {:induction false} WrapTempAt(subsets: seq<RpsEntry>, n: nat, i: nat)
    requires subsets != [] && i < n
    ensures WrapTemp(subsets, n)[i] == subsets[i % |subsets|]
    decreases n
  {
    var k := |subsets|;
    if i < k {
      ModOfShift(0, i, k);
    } else {
      WrapTempAt(subsets, n - k, i - k);
      var q, r := (i - k) / k, (i - k) % k;
      assert i == (q + 1) * k + r;
      ModOfShift(q + 1, r, k);
    }
  }

  function Max(a: nat, b: nat): nat {
    if a > b then a else b
  }

  /** RefPicListX of section 8.3.4. */
  function StandardList(subsets: seq<RpsEntry>, active: nat, modified: bool, entries: seq<nat>): (r: seq<RpsEntry>)
    requires subsets != []
    requires modified ==> |entries| == active && forall i :: 0 <= i < active ==> entries[i] < |subsets|
    ensures |r| == active
  {
    var temp := WrapTemp(subsets, Max(active, |subsets|));
    seq(active, i requires 0 <= i < active => temp[if modified then entries[i] else i])
  }

  /** build_list's choice for entry i. */
  function BuiltAt(temp: seq<nat>, modified: bool, entries: seq<nat>, i: nat): nat
    requires temp != [] && (modified ==> i < |entries|)
  {
    temp[(if modified then entries[i] else i % |temp|) % |temp|]
  }

  function Pad(s: seq<nat>, n: nat): (r: seq<nat>)
    requires |s| <= n
    ensures |r| == n && s <= r
  {
    s + seq(n - |s|, _ => 0)
  }

  /** The list of the driver's 16 entries, padded with zeros. */
  function BuiltList(temp: seq<nat>, modified: bool, entries: seq<nat>, activeMinus1: nat): (r: seq<nat>)
    requires activeMinus1 < MAX_DPB && (modified ==> |entries| == activeMinus1 + 1)
    ensures |r| == MAX_DPB
  {
    if temp == [] then seq(MAX_DPB, _ => 0)
    else
      Pad(seq(activeMinus1 + 1, i requires 0 <= i < activeMinus1 + 1 => BuiltAt(temp, modified, entries, i)), MAX_DPB)
  }

  /**
   * Every active entry of the built list is the DPB index of the picture the
   * standard's list has there; list_entry values in range make the final
   * modulo a no-op.
   */
  lemma BuiltIsStandard(
    dpb: seq<RefPic>, subsets: seq<RpsEntry>, modified: bool, entries: seq<nat>, activeMinus1: nat, i: nat)
    requires subsets != [] && i <= activeMinus1 < MAX_DPB
    requires modified ==>
      |entries| == activeMinus1 + 1 && forall k :: 0 <= k <= activeMinus1 ==> entries[k] < |subsets|
    ensures BuiltList(EntryIndices(dpb, subsets), modified, entries, activeMinus1)[i]
      == EntryIndex(dpb, StandardList(subsets, activeMinus1 + 1, modified, entries)[i])
  {
    hide WrapTemp, EntryIndex;
    var temp, n := EntryIndices(dpb, subsets), |subsets|;
    var total := Max(activeMinus1 + 1, n);
    var at := if modified then entries[i] else i;
    WrapTempAt(subsets, total, at);
    if modified {
      ModOfShift(0, entries[i], n);
    } else {
      ModOfShift(0, i % n, n);
    }
  }

  // ----- NumPicTotalCurr

  lemma {:induction false} StCurrCount(dpb: seq<RefPic>, side: seq<DeltaPoc>, poc: int)
    ensures |StCurr(dpb, side, poc)| == CountUsed(side)
  {
    if side != [] {
      StCurrCount(dpb, side[..|side| - 1], poc);
    }
  }

  lemma {:induction false} LtCurrCount(dpb: seq<RefPic>, lts: seq<LongTermRef>, poc: int, maxLsb: nat)
    requires maxLsb > 0
    ensures |LtCurr(dpb, lts, poc, maxLsb)| == CountUsedLongTerm(lts)
  {
    if lts != [] {
      LtCurrCount(dpb, lts[..|lts| - 1], poc, maxLsb);
    }
  }

  /** The temporary list has as many entries as the header's parse counted. */
  lemma SubsetsCount(dpb: seq<RefPic>, pic: Picture, refs: ReferenceInfo, poc: int, maxLsb: nat)
    requires maxLsb > 0 && pic.rps == refs.rps && pic.longTerm == refs.longTerm
    ensures var rps := DeriveRps(dpb, pic, poc, maxLsb);
      |rps.before| + |rps.after| + |rps.longTerm| == NumPicTotalCurr(refs)
  {
    StCurrCount(dpb, pic.rps.s0, poc);
    StCurrCount(dpb, pic.rps.s1, poc);
    LtCurrCount(dpb, pic.longTerm, poc, maxLsb);
  }
}
