/**
 * The decoded picture buffer as both HEVC engines run it: picture order count
 * (section 8.3.1 of ITU-T H.265), reference picture set and eviction (8.3.2)
 * and the bound on the buffer's size, over a list of references.
 */
module DpbMachine {
  import opened Wrappers
  import opened NalTypes
  import opened ShortTermRpsSets
  import Bits

  const MAX_DPB: nat := 16

  /** A reference: its POC, the buffer or surface it is in, and its lookup tag. */
  datatype RefPic = RefPic(poc: int, buffer: nat, tag: nat)

  /** A long-term reference of a slice header, its MSB cycle already cumulative. */
  datatype LongTermRef = LongTermRef(pocLsb: nat, usedByCurr: bool, msbPresent: bool, msbCycle: nat)

  /** prevTid0Pic's POC, split as the engines keep it. */
  datatype Anchor = Anchor(lsb: int, msb: int)

  /** What the picture step takes from the first slice of a picture. */
  datatype Picture = Picture(
    nalType: nat,
    temporalIdPlus1: nat,
    pocLsb: nat,
    output: bool,
    rps: ShortTermRps,
    longTerm: seq<LongTermRef>)

  /** What the picture step takes from the active SPS. */
  datatype SpsParams = SpsParams(log2MaxPocLsb: nat, maxDecPicBufferingMinus1: nat) {
    /** The ranges that ParseSps enforces. */
    predicate Valid() {
      4 <= log2MaxPocLsb <= 16 && maxDecPicBufferingMinus1 < MAX_REF_PICS
    }

    function MaxPocLsb(): (m: nat)
      ensures m >= 1
    {
      Bits.Pow2(log2MaxPocLsb)
    }

    function MaxDpb(): nat {
      maxDecPicBufferingMinus1 + 1
    }
  }

  // ----- Picture order count

  function PocMsb(prev: Anchor, lsb: int, maxLsb: nat, noRaslOutput: bool): int {
    if noRaslOutput then 0
    else if lsb < prev.lsb && prev.lsb - lsb >= maxLsb / 2 then prev.msb + maxLsb
    else if lsb > prev.lsb && lsb - prev.lsb > maxLsb / 2 then prev.msb - maxLsb
    else prev.msb
  }

  /** The rule both engines share: TemporalId 0, and neither RASL nor RADL. */
  predicate MovesAnchor(pic: Picture) {
    pic.temporalIdPlus1 == 1 && !IsRaslOrRadl(pic.nalType)
  }

  function NextAnchor(prev: Anchor, pic: Picture, maxLsb: nat, noRaslOutput: bool): Anchor {
    if MovesAnchor(pic) then Anchor(pic.pocLsb, PocMsb(prev, pic.pocLsb, maxLsb, noRaslOutput)) else prev
  }

  function PocOf(prev: Anchor, pic: Picture, maxLsb: nat, noRaslOutput: bool): int {
    PocMsb(prev, pic.pocLsb, maxLsb, noRaslOutput) + pic.pocLsb
  }

  function NoRaslOutput(pic: Picture, seenFirst: bool, eosSeen: bool): bool {
    IsIdr(pic.nalType) || IsBla(pic.nalType) || (IsIrap(pic.nalType) && (!seenFirst || eosSeen))
  }

  predicate StartsSequence(pic: Picture, noRaslOutput: bool) {
    IsIrap(pic.nalType) && noRaslOutput
  }

  // ----- Looking references up

  /** The first entry with this POC. */
  function FindPoc(dpb: seq<RefPic>, poc: int): (r: Option<nat>)
    ensures r.Some? ==> r.value < |dpb| && dpb[r.value].poc == poc
    ensures r.None? ==> forall j :: 0 <= j < |dpb| ==> dpb[j].poc != poc
  {
    FindPocFrom(dpb, poc, 0)
  }

  function FindPocFrom(dpb: seq<RefPic>, poc: int, i: nat): (r: Option<nat>)
    requires i <= |dpb|
    ensures r.Some? ==> i <= r.value < |dpb| && dpb[r.value].poc == poc
    ensures r.Some? ==> forall j :: i <= j < r.value ==> dpb[j].poc != poc
    ensures r.None? ==> forall j :: i <= j < |dpb| ==> dpb[j].poc != poc
    decreases |dpb| - i
  {
    if i == |dpb| then None
    else if dpb[i].poc == poc then Some(i)
    else FindPocFrom(dpb, poc, i + 1)
  }

  /** The first entry whose POC ends in these LSBs (`&` of a power of two less one). */
  function FindLsbFrom(dpb: seq<RefPic>, lsb: nat, maxLsb: nat, i: nat): (r: Option<nat>)
    requires i <= |dpb| && maxLsb > 0
    ensures r.Some? ==> i <= r.value < |dpb| && dpb[r.value].poc % maxLsb == lsb
    ensures r.Some? ==> forall j :: i <= j < r.value ==> dpb[j].poc % maxLsb != lsb
    ensures r.None? ==> forall j :: i <= j < |dpb| ==> dpb[j].poc % maxLsb != lsb
    decreases |dpb| - i
  {
    if i == |dpb| then None
    else if dpb[i].poc % maxLsb == lsb then Some(i)
    else FindLsbFrom(dpb, lsb, maxLsb, i + 1)
  }

  /** The POC of a long-term reference coded with its MSB cycle. */
  function LongTermPoc(lt: LongTermRef, poc: int, maxLsb: nat): int
    requires maxLsb > 0
  {
    lt.pocLsb + poc - lt.msbCycle * maxLsb - poc % maxLsb
  }

  function FindLongTerm(dpb: seq<RefPic>, lt: LongTermRef, poc: int, maxLsb: nat): (r: Option<nat>)
    requires maxLsb > 0
    ensures r.Some? ==> r.value < |dpb|
  {
    if lt.msbPresent then FindPoc(dpb, LongTermPoc(lt, poc, maxLsb)) else FindLsbFrom(dpb, lt.pocLsb, maxLsb, 0)
  }

  // ----- Reference picture set

  /** A reference the current picture uses, if the DPB has it. */
  type RpsEntry = Option<RefPic>

  function Lookup(dpb: seq<RefPic>, k: Option<nat>): RpsEntry
    requires k.Some? ==> k.value < |dpb|
  {
    if k.Some? then Some(dpb[k.value]) else None
  }

  /** PocStCurrBefore or PocStCurrAfter: the used entries of one side. */
  function StCurr(dpb: seq<RefPic>, side: seq<DeltaPoc>, poc: int): seq<RpsEntry> {
    if side == [] then []
    else
      var last := side[|side| - 1];
      StCurr(dpb, side[..|side| - 1], poc)
        + (if last.used then [Lookup(dpb, FindPoc(dpb, poc + last.delta))] else [])
  }

  function StKept(side: seq<DeltaPoc>, poc: int): seq<int> {
    if side == [] then [] else StKept(side[..|side| - 1], poc) + [poc + side[|side| - 1].delta]
  }

  function LtEntry(dpb: seq<RefPic>, lt: LongTermRef, poc: int, maxLsb: nat): RpsEntry
    requires maxLsb > 0
  {
    Lookup(dpb, FindLongTerm(dpb, lt, poc, maxLsb))
  }

  function LtCurr(dpb: seq<RefPic>, lts: seq<LongTermRef>, poc: int, maxLsb: nat): seq<RpsEntry>
    requires maxLsb > 0
  {
    if lts == [] then []
    else
      var last := lts[|lts| - 1];
      LtCurr(dpb, lts[..|lts| - 1], poc, maxLsb)
        + (if last.usedByCurr then [LtEntry(dpb, last, poc, maxLsb)] else [])
  }

  /** The long-term references found, used or not. */
  function LtFound(dpb: seq<RefPic>, lts: seq<LongTermRef>, poc: int, maxLsb: nat): seq<RefPic>
    requires maxLsb > 0
  {
    if lts == [] then []
    else
      var e := LtEntry(dpb, lts[|lts| - 1], poc, maxLsb);
      LtFound(dpb, lts[..|lts| - 1], poc, maxLsb) + (if e.Some? then [e.value] else [])
  }

  function Pocs(dpb: seq<RefPic>): (p: seq<int>)
    ensures |p| == |dpb| && forall i :: 0 <= i < |p| ==> p[i] == dpb[i].poc
  {
    seq(|dpb|, i requires 0 <= i < |dpb| => dpb[i].poc)
  }

  function KeptPocs(dpb: seq<RefPic>, pic: Picture, poc: int, maxLsb: nat): seq<int>
    requires maxLsb > 0
  {
    StKept(pic.rps.s0, poc) + StKept(pic.rps.s1, poc) + Pocs(LtFound(dpb, pic.longTerm, poc, maxLsb))
  }

  /** The reference picture set of one picture, resolved against the DPB. */
  datatype RefPicSet = RefPicSet(
    before: seq<RpsEntry>,
    after: seq<RpsEntry>,
    longTerm: seq<RpsEntry>,
    kept: seq<int>,
    ltFound: seq<RefPic>)

  function DeriveRps(dpb: seq<RefPic>, pic: Picture, poc: int, maxLsb: nat): RefPicSet
    requires maxLsb > 0
  {
    RefPicSet(
      StCurr(dpb, pic.rps.s0, poc),
      StCurr(dpb, pic.rps.s1, poc),
      LtCurr(dpb, pic.longTerm, poc, maxLsb),
      KeptPocs(dpb, pic, poc, maxLsb),
      LtFound(dpb, pic.longTerm, poc, maxLsb))
  }

  /** The references the set keeps, in their old order. */
  function Evict(dpb: seq<RefPic>, kept: seq<int>): seq<RefPic> {
    if dpb == [] then []
    else
      var last := dpb[|dpb| - 1];
      Evict(dpb[..|dpb| - 1], kept) + (if last.poc in kept then [last] else [])
  }

  // ----- Bounding the buffer

  /** The first entry of lowest POC. */
  function Lowest(dpb: seq<RefPic>): (k: nat)
    requires dpb != []
    ensures k < |dpb|
    ensures forall j :: 0 <= j < |dpb| ==> dpb[k].poc <= dpb[j].poc
    ensures forall j :: 0 <= j < k ==> dpb[k].poc < dpb[j].poc
  {
    if |dpb| == 1 then 0
    else
      var k := Lowest(dpb[..|dpb| - 1]);
      if dpb[|dpb| - 1].poc < dpb[k].poc then |dpb| - 1 else k
  }

  function Without<T>(s: seq<T>, k: nat): (r: seq<T>)
    requires k < |s|
    ensures |r| == |s| - 1
  {
    s[..k] + s[k + 1..]
  }

  /** Drops the lowest POC until at most `max` references are left. */
  function Trim(dpb: seq<RefPic>, max: nat): (r: seq<RefPic>)
    ensures |r| <= max
    ensures |dpb| <= max ==> r == dpb
    decreases |dpb|
  {
    if |dpb| <= max then dpb else Trim(Without(dpb, Lowest(dpb)), max)
  }

  // ----- Picture order count: exactness

  lemma LsbModulus(sps: SpsParams)
    requires sps.log2MaxPocLsb == 4
    ensures sps.MaxPocLsb() == 16
  {
  }

  /** An anchor that splits some POC into LSBs and a multiple of maxLsb. */
  ghost predicate SplitsPoc(a: Anchor, poc: int, maxLsb: nat)
    requires maxLsb > 0
  {
    a.lsb == poc % maxLsb && a.msb == poc - poc % maxLsb
  }

  ghost predicate InWindow(poc: int, anchorPoc: int, maxLsb: nat) {
    anchorPoc - maxLsb / 2 < poc <= anchorPoc + maxLsb / 2
  }

  lemma ModOfShift(q: int, r: int, m: nat)
    requires m > 0 && 0 <= r < m
    ensures (q * m + r) % m == r
  {
    Bits.SmallMod(r, m);
    Bits.Congruent(q * m + r, r, q, m);
  }

  /**
   * POC recovery: from an anchor holding `anchorPoc`, the result is the one
   * value with the coded LSBs in the half-open window around it.
   */
  lemma PocIsUniqueInWindow(a: Anchor, anchorPoc: int, lsb: nat, maxLsb: nat, poc: int)
    requires maxLsb >= 2 && maxLsb % 2 == 0 && lsb < maxLsb && SplitsPoc(a, anchorPoc, maxLsb)
    ensures poc == PocMsb(a, lsb, maxLsb, false) + lsb
      <==> InWindow(poc, anchorPoc, maxLsb) && poc % maxLsb == lsb
  {
    var got := PocMsb(a, lsb, maxLsb, false) + lsb;
    var q := anchorPoc / maxLsb;
    assert a.msb == q * maxLsb;
    var step := if PocMsb(a, lsb, maxLsb, false) > a.msb then 1
                else if PocMsb(a, lsb, maxLsb, false) < a.msb then -1 else 0;
    assert got == (q + step) * maxLsb + lsb;
    ModOfShift(q + step, lsb, maxLsb);
    assert InWindow(got, anchorPoc, maxLsb);
    if InWindow(poc, anchorPoc, maxLsb) && poc % maxLsb == lsb {
      SameResidueInWindow(poc, got, maxLsb);
    }
  }

  lemma SameResidueInWindow(x: int, y: int, m: nat)
    requires m > 0 && x % m == y % m && x - y < m && y - x < m
    ensures x == y
  {
    var d := x / m - y / m;
    assert x - y == m * d;
    if d >= 1 {
      Bits.MulMonotone(m, 1, d);
    } else if d <= -1 {
      Bits.MulMonotone(m, d, -1);
    }
  }

  /** The anchor always holds the split of the last anchor picture's POC. */
  lemma AnchorSplits(prev: Anchor, prevPoc: int, pic: Picture, maxLsb: nat, noRasl: bool)
    requires maxLsb > 0 && pic.pocLsb < maxLsb && SplitsPoc(prev, prevPoc, maxLsb)
    ensures MovesAnchor(pic) ==>
      SplitsPoc(NextAnchor(prev, pic, maxLsb, noRasl), PocOf(prev, pic, maxLsb, noRasl), maxLsb)
    ensures !MovesAnchor(pic) ==> SplitsPoc(NextAnchor(prev, pic, maxLsb, noRasl), prevPoc, maxLsb)
  {
    var q := prevPoc / maxLsb;
    var msb := PocMsb(prev, pic.pocLsb, maxLsb, noRasl);
    var k := if noRasl then 0 else if msb > prev.msb then q + 1 else if msb < prev.msb then q - 1 else q;
    assert msb == k * maxLsb by {
      assert prev.msb == q * maxLsb;
      assert (q + 1) * maxLsb == q * maxLsb + maxLsb && (q - 1) * maxLsb == q * maxLsb - maxLsb;
    }
    ModOfShift(k, pic.pocLsb, maxLsb);
  }

  /** A picture as its encoder knows it: its header and its true POC. */
  datatype TruePicture = TruePicture(pic: Picture, noRasl: bool, poc: int)

  /** The anchor stands for this POC, if for any. */
  ghost predicate AnchorIs(a: Anchor, anchorPoc: Option<int>, maxLsb: nat)
    requires maxLsb > 0
  {
    anchorPoc.Some? ==> SplitsPoc(a, anchorPoc.value, maxLsb)
  }

  /** The header carries the true POC's LSBs, and only a sequence start does without an anchor. */
  ghost predicate StepCoded(anchored: bool, t: TruePicture, maxLsb: nat)
    requires maxLsb > 0
  {
    t.pic.pocLsb == t.poc % maxLsb && (t.noRasl || anchored)
  }

  /** What section 8.3.1 asks of a true POC, with the engines' own anchor; a sequence start needs none. */
  ghost predicate StepRecoverable(anchorPoc: Option<int>, t: TruePicture, maxLsb: nat)
    requires maxLsb > 0
  {
    && t.pic.pocLsb == t.poc % maxLsb
    && (if t.noRasl then 0 <= t.poc < maxLsb else anchorPoc.Some? && InWindow(t.poc, anchorPoc.value, maxLsb))
  }

  /** The window is exactly what it takes for a coded picture to come out with its true POC. */
  lemma PocStepIff(prev: Anchor, anchorPoc: Option<int>, t: TruePicture, maxLsb: nat)
    requires maxLsb >= 2 && maxLsb % 2 == 0 && AnchorIs(prev, anchorPoc, maxLsb)
    ensures StepRecoverable(anchorPoc, t, maxLsb)
      <==> StepCoded(anchorPoc.Some?, t, maxLsb) && PocOf(prev, t.pic, maxLsb, t.noRasl) == t.poc
  {
    if t.pic.pocLsb == t.poc % maxLsb {
      if t.noRasl {
        if 0 <= t.poc < maxLsb {
          ModOfShift(0, t.poc, maxLsb);
        }
      } else if anchorPoc.Some? {
        PocIsUniqueInWindow(prev, anchorPoc.value, t.pic.pocLsb, maxLsb, t.poc);
      }
    }
  }

  /** From an exact anchor, or at a sequence start, the true POC comes out and the next anchor is exact. */
  lemma PocStepExact(prev: Anchor, anchorPoc: Option<int>, t: TruePicture, maxLsb: nat)
    requires maxLsb >= 2 && maxLsb % 2 == 0 && AnchorIs(prev, anchorPoc, maxLsb)
    requires StepRecoverable(anchorPoc, t, maxLsb)
    ensures PocOf(prev, t.pic, maxLsb, t.noRasl) == t.poc
    ensures AnchorIs(NextAnchor(prev, t.pic, maxLsb, t.noRasl),
                     if MovesAnchor(t.pic) then Some(t.poc) else anchorPoc, maxLsb)
  {
    if t.noRasl {
      ModOfShift(0, t.poc, maxLsb);
    } else {
      PocIsUniqueInWindow(prev, anchorPoc.value, t.pic.pocLsb, maxLsb, t.poc);
      AnchorSplits(prev, anchorPoc.value, t.pic, maxLsb, t.noRasl);
    }
  }

  /** A POC that fits int32 has its MSB part in int32 too: no sum overflows. */
  lemma PocPartsFit(poc: int, log2: nat)
    requires -0x8000_0000 <= poc < 0x8000_0000 && log2 <= 16
    ensures var m := Bits.Pow2(log2); -0x8000_0000 <= poc - poc % m <= poc
  {
    Bits.Pow2Of32();
    Bits.Pow2Add(log2, 31 - log2);
    FloorFits(poc, Bits.Pow2(log2), Bits.Pow2(31 - log2));
  }

  lemma FloorFits(x: int, m: nat, k: nat)
    requires m > 0 && -(m * k) <= x
    ensures -(m * k) <= x - x % m
  {
    var d := x / m + k;
    assert m * d == x - x % m + m * k;
    if d >= 0 {
      Bits.MulMonotone(m, 0, d);
    } else {
      Bits.MulMonotone(m, d, -1);
    }
  }

  /** A long-term reference coded as LSBs and MSB cycle distance is found at its true POC. */
  lemma LongTermPocExact(lt: LongTermRef, poc: int, truePoc: int, maxLsb: nat)
    requires maxLsb > 0 && lt.pocLsb == truePoc % maxLsb
    ensures LongTermPoc(lt, poc, maxLsb) == truePoc <==> lt.msbCycle == poc / maxLsb - truePoc / maxLsb
  {
    assert poc - poc % maxLsb == maxLsb * (poc / maxLsb);
    assert truePoc - truePoc % maxLsb == maxLsb * (truePoc / maxLsb);
    var d := poc / maxLsb - truePoc / maxLsb - lt.msbCycle;
    assert LongTermPoc(lt, poc, maxLsb) - truePoc == maxLsb * d;
    if d >= 1 {
      Bits.MulMonotone(maxLsb, 1, d);
    } else if d <= -1 {
      Bits.MulMonotone(maxLsb, d, -1);
    }
  }

  // ----- What the set keeps

  lemma {:induction false} EvictMember(dpb: seq<RefPic>, kept: seq<int>, r: RefPic)
    ensures r in Evict(dpb, kept) <==> r in dpb && r.poc in kept
  {
    if dpb != [] {
      var init := dpb[..|dpb| - 1];
      EvictMember(init, kept, r);
      assert dpb == init + [dpb[|dpb| - 1]];
    }
  }

  lemma {:induction false} StKeptMember(side: seq<DeltaPoc>, poc: int, p: int)
    ensures p in StKept(side, poc) <==> exists i :: 0 <= i < |side| && p == poc + side[i].delta
  {
    if side != [] {
      StKeptMember(side[..|side| - 1], poc, p);
    }
  }

  lemma {:induction false} LtFoundMember(dpb: seq<RefPic>, lts: seq<LongTermRef>, poc: int, maxLsb: nat, r: RefPic)
    requires maxLsb > 0
    ensures r in LtFound(dpb, lts, poc, maxLsb)
      <==> exists i :: 0 <= i < |lts| && LtEntry(dpb, lts[i], poc, maxLsb) == Some(r)
  {
    if lts != [] {
      LtFoundMember(dpb, lts[..|lts| - 1], poc, maxLsb, r);
    }
  }

  ghost predicate LtNames(dpb: seq<RefPic>, lt: LongTermRef, poc: int, maxLsb: nat, p: int)
    requires maxLsb > 0
  {
    var e := LtEntry(dpb, lt, poc, maxLsb);
    e.Some? && e.value.poc == p
  }

  /** A POC the set names: some delta of it, or a long-term entry the DPB has. */
  ghost predicate Named(dpb: seq<RefPic>, pic: Picture, poc: int, maxLsb: nat, p: int)
    requires maxLsb > 0
  {
    || (exists i :: 0 <= i < |pic.rps.s0| && p == poc + pic.rps.s0[i].delta)
    || (exists i :: 0 <= i < |pic.rps.s1| && p == poc + pic.rps.s1[i].delta)
    || (exists i :: 0 <= i < |pic.longTerm| && LtNames(dpb, pic.longTerm[i], poc, maxLsb, p))
  }

  lemma KeptNamed(dpb: seq<RefPic>, pic: Picture, poc: int, maxLsb: nat, p: int)
    requires maxLsb > 0
    ensures p in KeptPocs(dpb, pic, poc, maxLsb) <==> Named(dpb, pic, poc, maxLsb, p)
  {
    StKeptMember(pic.rps.s0, poc, p);
    StKeptMember(pic.rps.s1, poc, p);
    LtKeptMember(dpb, pic.longTerm, poc, maxLsb, p);
  }

  lemma LtKeptMember(dpb: seq<RefPic>, lts: seq<LongTermRef>, poc: int, maxLsb: nat, p: int)
    requires maxLsb > 0
    ensures p in Pocs(LtFound(dpb, lts, poc, maxLsb)) <==>
      exists i :: 0 <= i < |lts| && LtNames(dpb, lts[i], poc, maxLsb, p)
  {
    var found := LtFound(dpb, lts, poc, maxLsb);
    if p in Pocs(found) {
      var k :| 0 <= k < |found| && found[k].poc == p;
      LtFoundMember(dpb, lts, poc, maxLsb, found[k]);
    }
    forall i | 0 <= i < |lts| && LtNames(dpb, lts[i], poc, maxLsb, p)
      ensures p in Pocs(found)
    {
      var r := LtEntry(dpb, lts[i], poc, maxLsb).value;
      LtFoundMember(dpb, lts, poc, maxLsb, r);
      var k :| 0 <= k < |found| && found[k] == r;
      assert Pocs(found)[k] == p;
    }
  }

  /** After the set is applied the DPB is exactly the old entries the set names. */
  lemma EvictionExact(dpb: seq<RefPic>, pic: Picture, poc: int, maxLsb: nat, r: RefPic)
    requires maxLsb > 0
    ensures r in Evict(dpb, KeptPocs(dpb, pic, poc, maxLsb))
      <==> r in dpb && Named(dpb, pic, poc, maxLsb, r.poc)
  {
    EvictMember(dpb, KeptPocs(dpb, pic, poc, maxLsb), r);
    KeptNamed(dpb, pic, poc, maxLsb, r.poc);
  }

  lemma {:induction false} StCurrResolved(dpb: seq<RefPic>, side: seq<DeltaPoc>, poc: int, e: RpsEntry)
    requires e in StCurr(dpb, side, poc) && e.Some?
    ensures e.value in dpb
    ensures exists i :: 0 <= i < |side| && side[i].used && e.value.poc == poc + side[i].delta
  {
    var init, last := side[..|side| - 1], side[|side| - 1];
    if last.used && e == Lookup(dpb, FindPoc(dpb, poc + last.delta)) {
      assert side[|side| - 1].used && e.value.poc == poc + side[|side| - 1].delta;
    } else {
      StCurrResolved(dpb, init, poc, e);
      var i :| 0 <= i < |init| && init[i].used && e.value.poc == poc + init[i].delta;
      assert side[i] == init[i];
    }
  }

  lemma {:induction false} LtCurrResolved(dpb: seq<RefPic>, lts: seq<LongTermRef>, poc: int, maxLsb: nat, e: RpsEntry)
    requires maxLsb > 0 && e in LtCurr(dpb, lts, poc, maxLsb) && e.Some?
    ensures e.value in dpb
    ensures exists i :: 0 <= i < |lts| && lts[i].usedByCurr && LtEntry(dpb, lts[i], poc, maxLsb) == e
  {
    var init, last := lts[..|lts| - 1], lts[|lts| - 1];
    if last.usedByCurr && e == LtEntry(dpb, last, poc, maxLsb) {
      assert lts[|lts| - 1].usedByCurr && LtEntry(dpb, lts[|lts| - 1], poc, maxLsb) == e;
    } else {
      LtCurrResolved(dpb, init, poc, maxLsb, e);
      var i :| 0 <= i < |init| && init[i].usedByCurr && LtEntry(dpb, init[i], poc, maxLsb) == e;
      assert lts[i] == init[i];
    }
  }

  /** Every reference the current picture uses survives its own eviction. */
  lemma CurrentSurvives(dpb: seq<RefPic>, pic: Picture, poc: int, maxLsb: nat, e: RpsEntry)
    requires maxLsb > 0 && e.Some?
    requires var rps := DeriveRps(dpb, pic, poc, maxLsb);
      e in rps.before || e in rps.after || e in rps.longTerm
    ensures e.value in Evict(dpb, KeptPocs(dpb, pic, poc, maxLsb))
  {
    var rps := DeriveRps(dpb, pic, poc, maxLsb);
    if e in rps.before {
      StCurrResolved(dpb, pic.rps.s0, poc, e);
    } else if e in rps.after {
      StCurrResolved(dpb, pic.rps.s1, poc, e);
    } else {
      LtCurrResolved(dpb, pic.longTerm, poc, maxLsb, e);
    }
    EvictionExact(dpb, pic, poc, maxLsb, e.value);
  }

  ghost predicate DistinctPocs(dpb: seq<RefPic>) {
    forall i, j :: 0 <= i < j < |dpb| ==> dpb[i].poc != dpb[j].poc
  }

  lemma {:induction false} EvictDistinct(dpb: seq<RefPic>, kept: seq<int>)
    requires DistinctPocs(dpb)
    ensures DistinctPocs(Evict(dpb, kept))
  {
    if dpb != [] {
      var init, last := dpb[..|dpb| - 1], dpb[|dpb| - 1];
      EvictDistinct(init, kept);
      forall r | r in Evict(init, kept)
        ensures r.poc != last.poc
      {
        EvictMember(init, kept, r);
      }
    }
  }

  /** With distinct POCs, eviction leaves no more references than the set names. */
  lemma EvictCount(dpb: seq<RefPic>, kept: seq<int>)
    requires DistinctPocs(dpb)
    ensures |Evict(dpb, kept)| <= |kept|
  {
    var left := Evict(dpb, kept);
    EvictDistinct(dpb, kept);
    forall i | 0 <= i < |left|
      ensures left[i].poc in kept
    {
      EvictMember(dpb, kept, left[i]);
    }
    InjectionBound(Pocs(left), kept);
  }

  lemma {:induction false} InjectionBound(a: seq<int>, b: seq<int>)
    requires forall i, j :: 0 <= i < j < |a| ==> a[i] != a[j]
    requires forall i :: 0 <= i < |a| ==> a[i] in b
    ensures |a| <= |b|
    decreases |a|
  {
    if a != [] {
      var x := a[|a| - 1];
      var k :| 0 <= k < |b| && b[k] == x;
      var b' := Without(b, k);
      forall i | 0 <= i < |a| - 1
        ensures a[i] in b'
      {
        var l :| 0 <= l < |b| && b[l] == a[i];
        assert b'[if l < k then l else l - 1] == a[i];
      }
      InjectionBound(a[..|a| - 1], b');
    }
  }

  // ----- What trimming drops

  function CountHigher(dpb: seq<RefPic>, poc: int): nat {
    if dpb == [] then 0
    else CountHigher(dpb[..|dpb| - 1], poc) + (if dpb[|dpb| - 1].poc > poc then 1 else 0)
  }

  lemma {:induction false} CountHigherConcat(a: seq<RefPic>, b: seq<RefPic>, poc: int)
    ensures CountHigher(a + b, poc) == CountHigher(a, poc) + CountHigher(b, poc)
  {
    if b == [] {
      assert a + b == a;
    } else {
      assert (a + b)[..|a + b| - 1] == a + b[..|b| - 1];
      CountHigherConcat(a, b[..|b| - 1], poc);
    }
  }

  lemma CountHigherWithout(dpb: seq<RefPic>, k: nat, poc: int)
    requires k < |dpb|
    ensures CountHigher(Without(dpb, k), poc) == CountHigher(dpb, poc) - (if dpb[k].poc > poc then 1 else 0)
  {
    assert dpb == dpb[..k] + ([dpb[k]] + dpb[k + 1..]);
    CountHigherConcat(dpb[..k], [dpb[k]] + dpb[k + 1..], poc);
    CountHigherConcat([dpb[k]], dpb[k + 1..], poc);
    CountHigherConcat(dpb[..k], dpb[k + 1..], poc);
    assert CountHigher([dpb[k]], poc) == if dpb[k].poc > poc then 1 else 0;
  }

  lemma {:induction false} CountHigherAll(dpb: seq<RefPic>, poc: int)
    ensures CountHigher(dpb, poc) <= |dpb|
    ensures CountHigher(dpb, poc) == |dpb| <==> forall j :: 0 <= j < |dpb| ==> dpb[j].poc > poc
  {
    if dpb != [] {
      CountHigherAll(dpb[..|dpb| - 1], poc);
    }
  }

  lemma {:induction false} TrimSubset(dpb: seq<RefPic>, max: nat, r: RefPic)
    requires r in Trim(dpb, max)
    ensures r in dpb
    decreases |dpb|
  {
    if |dpb| > max {
      TrimSubset(Without(dpb, Lowest(dpb)), max, r);
    }
  }

  /**
   * When the newest reference outlives the bound: exactly while fewer than
   * `max` of the others have a higher POC.
   */
  lemma {:induction false} TrimKeepsNewest(dpb: seq<RefPic>, newest: RefPic, max: nat)
    requires newest !in dpb
    ensures newest in Trim(dpb + [newest], max) <==> CountHigher(dpb, newest.poc) < max
    decreases |dpb|
  {
    var all := dpb + [newest];
    CountHigherAll(dpb, newest.poc);
    if |all| > max {
      var k := Lowest(all);
      if k == |dpb| {
        assert Without(all, k) == dpb;
        assert forall j :: 0 <= j < |dpb| ==> all[j] == dpb[j];
        if newest in Trim(dpb, max) {
          TrimSubset(dpb, max, newest);
        }
      } else {
        assert all[k].poc <= all[|dpb|].poc;
        CountHigherWithout(dpb, k, newest.poc);
        assert Without(all, k) == Without(dpb, k) + [newest];
        TrimKeepsNewest(Without(dpb, k), newest, max);
      }
    }
  }

  // ----- Conforming reference sets

  /**
   * What a conforming stream gives: a reference set of at most
   * sps_max_dec_pic_buffering_minus1 pictures, not naming the current POC.
   */
  ghost predicate ConformingSet(kept: seq<int>, poc: int, sps: SpsParams) {
    |kept| <= sps.maxDecPicBufferingMinus1 && poc !in kept
  }

  lemma {:induction false} CountHigherBound(dpb: seq<RefPic>, poc: int)
    ensures CountHigher(dpb, poc) <= |dpb|
  {
    if dpb != [] {
      CountHigherBound(dpb[..|dpb| - 1], poc);
    }
  }

  /** Such a set leaves room for the picture, under a POC of its own. */
  lemma ConformingRoom(atStart: seq<RefPic>, kept: seq<int>, poc: int, sps: SpsParams)
    requires DistinctPocs(atStart) && ConformingSet(kept, poc, sps)
    ensures var left := Evict(atStart, kept);
      && |left| < sps.MaxDpb() && DistinctPocs(left)
      && (forall j :: 0 <= j < |left| ==> left[j].poc != poc)
      && CountHigher(left, poc) < sps.MaxDpb()
  {
    var left := Evict(atStart, kept);
    EvictCount(atStart, kept);
    EvictDistinct(atStart, kept);
    CountHigherBound(left, poc);
    forall j | 0 <= j < |left|
      ensures left[j].poc != poc
    {
      EvictMember(atStart, kept, left[j]);
    }
  }

  lemma AddedDistinct(dpb: seq<RefPic>, newest: RefPic, maxDpb: nat)
    requires |dpb| < maxDpb && DistinctPocs(dpb)
    requires forall j :: 0 <= j < |dpb| ==> dpb[j].poc != newest.poc
    ensures Trim(dpb + [newest], maxDpb) == dpb + [newest] && DistinctPocs(dpb + [newest])
  {
  }
}
