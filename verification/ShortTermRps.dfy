/**
 * Short-term reference picture sets, st_ref_pic_set() of section 7.3.7 of
 * ITU-T H.265, as parse/h265/sps.cc reads and derives them.
 */
module ShortTermRpsSets {
  import opened Wrappers
  import opened Bits
  import opened BitReaders

  const MAX_REF_PICS: nat := 16
  const MAX_DELTA_POC: nat := 0x7fff
  const MAX_SHORT_TERM_RPS: nat := 64

  /** One picture of a set: its POC minus the current POC, and its used flag. */
  datatype DeltaPoc = DeltaPoc(delta: int, used: bool)

  /** S0 holds the pictures before the current one, S1 those after it. */
  datatype ShortTermRps = ShortTermRps(s0: seq<DeltaPoc>, s1: seq<DeltaPoc>)

  function NumDeltaPocs(r: ShortTermRps): nat {
    |r.s0| + |r.s1|
  }

  ghost predicate Descending(s: seq<DeltaPoc>) {
    forall i, j :: 0 <= i < j < |s| ==> s[i].delta > s[j].delta
  }

  ghost predicate Ascending(s: seq<DeltaPoc>) {
    forall i, j :: 0 <= i < j < |s| ==> s[i].delta < s[j].delta
  }

  /** What every accepted set satisfies: DPB-sized, each side sorted outwards from 0. */
  ghost predicate WellFormed(r: ShortTermRps) {
    && NumDeltaPocs(r) <= MAX_REF_PICS
    && Descending(r.s0) && (forall i :: 0 <= i < |r.s0| ==> r.s0[i].delta < 0)
    && Ascending(r.s1) && (forall i :: 0 <= i < |r.s1| ==> r.s1[i].delta > 0)
  }

  ghost predicate AllWellFormed(sets: seq<ShortTermRps>) {
    forall k :: 0 <= k < |sets| ==> WellFormed(sets[k])
  }

  // ----- The inter-predicted form, section 7.4.8 equations (7-61) and (7-62)

  /** used_by_curr_pic_flag[j] and use_delta_flag[j], j in 0..NumDeltaPocs. */
  datatype Flags = Flags(used: bool, useDelta: bool)

  datatype Candidate = Candidate(entry: DeltaPoc, useDelta: bool)

  /**
   * The picture that flag j speaks of: entry j of S0 then S1 of the reference
   * set, and last the reference set's own picture at distance 0.
   */
  function RefDelta(ref: ShortTermRps, j: nat): int
    requires j <= NumDeltaPocs(ref)
  {
    if j < |ref.s0| then ref.s0[j].delta
    else if j < NumDeltaPocs(ref) then ref.s1[j - |ref.s0|].delta
    else 0
  }

  function CandidateAt(ref: ShortTermRps, deltaRps: int, flags: seq<Flags>, j: nat): Candidate
    requires j <= NumDeltaPocs(ref) < |flags|
  {
    Candidate(DeltaPoc(RefDelta(ref, j) + deltaRps, flags[j].used), flags[j].useDelta)
  }

  /** The flag index that comes k-th by decreasing delta. */
  function DownIndex(ref: ShortTermRps, k: nat): (j: nat)
    requires k <= NumDeltaPocs(ref)
    ensures j <= NumDeltaPocs(ref)
  {
    if k < |ref.s1| then NumDeltaPocs(ref) - 1 - k
    else if k == |ref.s1| then NumDeltaPocs(ref)
    else k - |ref.s1| - 1
  }

  /** Negates on the S0 side, so that both sides grow outwards from 0. */
  function Signed(negative: bool, x: int): int {
    if negative then -x else x
  }

  /** The flag index that comes k-th when a side is derived: S0 downwards, S1 upwards. */
  function OrderIndex(ref: ShortTermRps, negative: bool, k: nat): (j: nat)
    requires k <= NumDeltaPocs(ref)
    ensures j <= NumDeltaPocs(ref)
  {
    DownIndex(ref, if negative then k else NumDeltaPocs(ref) - k)
  }

  function Kept(keep: bool, e: DeltaPoc): seq<DeltaPoc> {
    if keep then [e] else []
  }

  /** A side of the derived set, as far as its first n candidates give it. */
  function Side(ref: ShortTermRps, deltaRps: int, flags: seq<Flags>, negative: bool, n: nat): seq<DeltaPoc>
    requires n <= NumDeltaPocs(ref) + 1 <= |flags|
  {
    if n == 0 then []
    else
      var c := CandidateAt(ref, deltaRps, flags, OrderIndex(ref, negative, n - 1));
      Side(ref, deltaRps, flags, negative, n - 1)
        + Kept(Signed(negative, c.entry.delta) > 0 && c.useDelta, c.entry)
  }

  /** The derived set, before the bound on its size is checked. */
  function Derive(ref: ShortTermRps, deltaRps: int, flags: seq<Flags>): ShortTermRps
    requires NumDeltaPocs(ref) < |flags|
  {
    ShortTermRps(
      Side(ref, deltaRps, flags, true, NumDeltaPocs(ref) + 1),
      Side(ref, deltaRps, flags, false, NumDeltaPocs(ref) + 1))
  }

  /**
   * The set meaning of the inter-predicted form: `e` is in the derived set when
   * some flagged picture of the reference set, or the reference set's own
   * picture, lies deltaRps away from it.
   */
  ghost predicate Chosen(ref: ShortTermRps, deltaRps: int, flags: seq<Flags>, e: DeltaPoc)
    requires NumDeltaPocs(ref) < |flags|
  {
    exists j: nat :: j <= NumDeltaPocs(ref) && CandidateAt(ref, deltaRps, flags, j) == Candidate(e, true)
  }

  /** OrderIndex visits every flag once, and outwards. */
  lemma OrderIndexSorted(ref: ShortTermRps, negative: bool, k: nat, l: nat)
    requires WellFormed(ref)
    requires k < l <= NumDeltaPocs(ref)
    ensures Signed(negative, RefDelta(ref, OrderIndex(ref, negative, k)))
      < Signed(negative, RefDelta(ref, OrderIndex(ref, negative, l)))
  {
    if negative {
      DownIndexSorted(ref, k, l);
    } else {
      DownIndexSorted(ref, NumDeltaPocs(ref) - l, NumDeltaPocs(ref) - k);
    }
  }

  lemma DownIndexSorted(ref: ShortTermRps, k: nat, l: nat)
    requires WellFormed(ref)
    requires k < l <= NumDeltaPocs(ref)
    ensures RefDelta(ref, DownIndex(ref, k)) > RefDelta(ref, DownIndex(ref, l))
  {
  }

  function OrderOf(ref: ShortTermRps, negative: bool, j: nat): (k: nat)
    requires j <= NumDeltaPocs(ref)
    ensures k <= NumDeltaPocs(ref) && OrderIndex(ref, negative, k) == j
  {
    var down :=
      if j == NumDeltaPocs(ref) then |ref.s1|
      else if j < |ref.s0| then j + |ref.s1| + 1
      else NumDeltaPocs(ref) - 1 - j;
    if negative then down else NumDeltaPocs(ref) - down
  }

  lemma {:induction false} SideMember(
    ref: ShortTermRps, deltaRps: int, flags: seq<Flags>, negative: bool, n: nat, e: DeltaPoc)
    requires n <= NumDeltaPocs(ref) + 1 <= |flags|
    ensures e in Side(ref, deltaRps, flags, negative, n) <==>
      && Signed(negative, e.delta) > 0
      && exists k: nat :: k < n
          && CandidateAt(ref, deltaRps, flags, OrderIndex(ref, negative, k)) == Candidate(e, true)
  {
    if n > 0 {
      SideMember(ref, deltaRps, flags, negative, n - 1, e);
      var c := CandidateAt(ref, deltaRps, flags, OrderIndex(ref, negative, n - 1));
      assert e in Side(ref, deltaRps, flags, negative, n) <==>
        e in Side(ref, deltaRps, flags, negative, n - 1)
        || (Signed(negative, e.delta) > 0 && c == Candidate(e, true));
    }
  }

  ghost predicate SortedOutwards(s: seq<DeltaPoc>, negative: bool) {
    forall i, j :: 0 <= i < j < |s| ==> Signed(negative, s[i].delta) < Signed(negative, s[j].delta)
  }

  /** Every candidate lies further out than the entries that earlier ones gave. */
  lemma LaterIsFurther(
    ref: ShortTermRps, deltaRps: int, flags: seq<Flags>, negative: bool, n: nat, e: DeltaPoc)
    requires WellFormed(ref) && n <= NumDeltaPocs(ref) < |flags| && e in Side(ref, deltaRps, flags, negative, n)
    ensures Signed(negative, e.delta)
      < Signed(negative, CandidateAt(ref, deltaRps, flags, OrderIndex(ref, negative, n)).entry.delta)
  {
    hide Side, WellFormed, OrderIndex;
    SideMember(ref, deltaRps, flags, negative, n, e);
    var k: nat :| k < n
      && CandidateAt(ref, deltaRps, flags, OrderIndex(ref, negative, k)) == Candidate(e, true);
    OrderIndexSorted(ref, negative, k, n);
  }

  lemma {:induction false} SideSorted(ref: ShortTermRps, deltaRps: int, flags: seq<Flags>, negative: bool, n: nat)
    requires WellFormed(ref) && n <= NumDeltaPocs(ref) + 1 <= |flags|
    ensures SortedOutwards(Side(ref, deltaRps, flags, negative, n), negative)
  {
    hide SortedOutwards, CandidateAt, OrderIndex, WellFormed, Signed;
    NoneSorted(negative);
    if n > 0 {
      SideSorted(ref, deltaRps, flags, negative, n - 1);
      var before := Side(ref, deltaRps, flags, negative, n - 1);
      var c := CandidateAt(ref, deltaRps, flags, OrderIndex(ref, negative, n - 1));
      forall e | e in before
        ensures Signed(negative, e.delta) < Signed(negative, c.entry.delta)
      {
        LaterIsFurther(ref, deltaRps, flags, negative, n - 1, e);
      }
      AppendSorted(before, c.entry, negative);
      assert before + [] == before;
    }
  }

  lemma NoneSorted(negative: bool)
    ensures SortedOutwards([], negative)
  {
  }

  lemma AppendSorted(s: seq<DeltaPoc>, e: DeltaPoc, negative: bool)
    requires SortedOutwards(s, negative)
    requires forall x :: x in s ==> Signed(negative, x.delta) < Signed(negative, e.delta)
    ensures SortedOutwards(s + [e], negative)
  {
  }

  lemma SideChosen(ref: ShortTermRps, deltaRps: int, flags: seq<Flags>, negative: bool, e: DeltaPoc)
    requires NumDeltaPocs(ref) < |flags|
    ensures e in Side(ref, deltaRps, flags, negative, NumDeltaPocs(ref) + 1)
      <==> Signed(negative, e.delta) > 0 && Chosen(ref, deltaRps, flags, e)
  {
    SideMember(ref, deltaRps, flags, negative, NumDeltaPocs(ref) + 1, e);
    if Chosen(ref, deltaRps, flags, e) {
      var j: nat :| j <= NumDeltaPocs(ref) && CandidateAt(ref, deltaRps, flags, j) == Candidate(e, true);
      assert OrderIndex(ref, negative, OrderOf(ref, negative, j)) == j;
    }
  }

  lemma OutwardsIsSorted(s0: seq<DeltaPoc>, s1: seq<DeltaPoc>)
    requires SortedOutwards(s0, true) && SortedOutwards(s1, false)
    ensures Descending(s0) && Ascending(s1)
  {
  }

  /**
   * The inter-predicted form means the shifted set: each side of the result
   * holds exactly the chosen pictures on that side, sorted outwards from 0.
   */
  lemma DeriveMeaning(ref: ShortTermRps, deltaRps: int, flags: seq<Flags>)
    requires WellFormed(ref) && NumDeltaPocs(ref) < |flags|
    ensures var r := Derive(ref, deltaRps, flags);
      && Descending(r.s0)
      && Ascending(r.s1)
      && (forall e :: e in r.s0 <==> e.delta < 0 && Chosen(ref, deltaRps, flags, e))
      && (forall e :: e in r.s1 <==> e.delta > 0 && Chosen(ref, deltaRps, flags, e))
  {
    var r := Derive(ref, deltaRps, flags);
    SideSorted(ref, deltaRps, flags, true, NumDeltaPocs(ref) + 1);
    SideSorted(ref, deltaRps, flags, false, NumDeltaPocs(ref) + 1);
    OutwardsIsSorted(r.s0, r.s1);
    forall e
      ensures e in r.s0 <==> e.delta < 0 && Chosen(ref, deltaRps, flags, e)
      ensures e in r.s1 <==> e.delta > 0 && Chosen(ref, deltaRps, flags, e)
    {
      SideChosen(ref, deltaRps, flags, true, e);
      SideChosen(ref, deltaRps, flags, false, e);
    }
  }

  /** A set is determined by its members: sorted sides leave no freedom. */
  lemma {:induction false} DescendingUnique(a: seq<DeltaPoc>, b: seq<DeltaPoc>)
    requires Descending(a) && Descending(b)
    requires forall e :: e in a <==> e in b
    ensures a == b
  {
    assert b != [] ==> b[0] in b;
    if a != [] {
      assert a[0] in b && b[0] in a;
      assert a[0] == b[0];
      forall e
        ensures e in a[1..] <==> e in b[1..]
      {
        assert e in a[1..] <==> e in a && e != a[0];
        assert e in b[1..] <==> e in b && e != b[0];
      }
      DescendingUnique(a[1..], b[1..]);
    }
  }

  lemma {:induction false} AscendingUnique(a: seq<DeltaPoc>, b: seq<DeltaPoc>)
    requires Ascending(a) && Ascending(b)
    requires forall e :: e in a <==> e in b
    ensures a == b
  {
    assert b != [] ==> b[0] in b;
    if a != [] {
      assert a[0] in b && b[0] in a;
      assert a[0] == b[0];
      forall e
        ensures e in a[1..] <==> e in b[1..]
      {
        assert e in a[1..] <==> e in a && e != a[0];
        assert e in b[1..] <==> e in b && e != b[0];
      }
      AscendingUnique(a[1..], b[1..]);
    }
  }

  /**
   * An explicitly coded set with the pictures an inter-predicted coding chooses
   * is the very set that coding derives.
   */
  lemma ExplicitEqualsInter(r: ShortTermRps, ref: ShortTermRps, deltaRps: int, flags: seq<Flags>)
    requires WellFormed(r) && WellFormed(ref) && NumDeltaPocs(ref) < |flags|
    requires forall e :: e in r.s0 || e in r.s1 <==> e.delta != 0 && Chosen(ref, deltaRps, flags, e)
    ensures r == Derive(ref, deltaRps, flags)
  {
    DeriveMeaning(ref, deltaRps, flags);
    DescendingUnique(r.s0, Derive(ref, deltaRps, flags).s0);
    AscendingUnique(r.s1, Derive(ref, deltaRps, flags).s1);
  }

  // ----- Bounds on the deltas

  ghost predicate Bounded(r: ShortTermRps, b: int) {
    && (forall i :: 0 <= i < |r.s0| ==> -b <= r.s0[i].delta <= b)
    && (forall i :: 0 <= i < |r.s1| ==> -b <= r.s1[i].delta <= b)
  }

  /** Explicit sets reach 16 * 2^15; each inter-predicted link adds at most 2^15. */
  function ChainBound(k: nat): int {
    0x8_0000 + k * 0x8000
  }

  ghost predicate ChainBounded(sets: seq<ShortTermRps>) {
    forall k :: 0 <= k < |sets| ==> Bounded(sets[k], ChainBound(k))
  }

  lemma DeriveBounded(ref: ShortTermRps, deltaRps: int, flags: seq<Flags>, b: nat)
    requires WellFormed(ref) && NumDeltaPocs(ref) < |flags|
    requires Bounded(ref, b) && -0x8000 <= deltaRps <= 0x8000
    ensures Bounded(Derive(ref, deltaRps, flags), b + 0x8000)
  {
    DeriveMeaning(ref, deltaRps, flags);
    var r := Derive(ref, deltaRps, flags);
    forall e | Chosen(ref, deltaRps, flags, e)
      ensures -(b + 0x8000) <= e.delta <= b + 0x8000
    {
      var j: nat :| j <= NumDeltaPocs(ref) && CandidateAt(ref, deltaRps, flags, j) == Candidate(e, true);
    }
    assert forall i :: 0 <= i < |r.s0| ==> r.s0[i] in r.s0;
    assert forall i :: 0 <= i < |r.s1| ==> r.s1[i] in r.s1;
  }

  // ----- Reading a set

  /** Flags for every picture of the reference set and for the set's own picture. */
  function TakeFlags(acc: seq<Flags>, n: nat, bs: seq<bool>): (r: Option<(seq<Flags>, seq<bool>)>)
    requires |acc| <= n
    ensures r.Some? ==> |r.value.0| == n
    decreases n - |acc|
  {
    if |acc| == n then Some((acc, bs))
    else
      var (used, rest) :- TakeFlag(bs);
      if used then TakeFlags(acc + [Flags(true, true)], n, rest)
      else
        var (useDelta, rest1) :- TakeFlag(rest);
        TakeFlags(acc + [Flags(false, useDelta)], n, rest1)
  }

  /** RefRpsIdx: the preceding set, or for a slice's own set the one it names. */
  function TakeRefRpsIdx(stRpsIdx: nat, numShortTermRps: nat, numSets: nat, bs: seq<bool>)
    : (r: Option<(nat, seq<bool>)>)
    ensures r.Some? ==> r.value.0 < numSets && r.value.0 < stRpsIdx
  {
    var (deltaIdxMinus1, rest) :- if stRpsIdx == numShortTermRps then TakeUe(bs) else Some((0, bs));
    if deltaIdxMinus1 + 1 > stRpsIdx || stRpsIdx - (deltaIdxMinus1 + 1) >= numSets then None
    else Some((stRpsIdx - (deltaIdxMinus1 + 1), rest))
  }

  function TakeDeltaRps(bs: seq<bool>): (r: Option<(int, seq<bool>)>)
    ensures r.Some? ==> -0x8000 <= r.value.0 <= 0x8000 && r.value.0 != 0
  {
    var (sign, rest) :- TakeFlag(bs);
    var (absMinus1, rest1) :- TakeUe(rest);
    if absMinus1 > MAX_DELTA_POC then None
    else Some((Signed(sign, absMinus1 + 1), rest1))
  }

  function TakeInter(stRpsIdx: nat, numShortTermRps: nat, sets: seq<ShortTermRps>, bs: seq<bool>)
    : Option<(ShortTermRps, seq<bool>)>
  {
    var (k, rest) :- TakeRefRpsIdx(stRpsIdx, numShortTermRps, |sets|, bs);
    var (deltaRps, rest1) :- TakeDeltaRps(rest);
    var (flags, rest2) :- TakeFlags([], NumDeltaPocs(sets[k]) + 1, rest1);
    var r := Derive(sets[k], deltaRps, flags);
    if NumDeltaPocs(r) > MAX_REF_PICS then None else Some((r, rest2))
  }

  /** One side of an explicit set, S0 when `negative`. */
  function TakeDeltas(acc: seq<DeltaPoc>, n: nat, poc: int, negative: bool, bs: seq<bool>)
    : (r: Option<(seq<DeltaPoc>, seq<bool>)>)
    requires |acc| <= n
    ensures r.Some? ==> |r.value.0| == n
    decreases n - |acc|
  {
    if |acc| == n then Some((acc, bs))
    else
      var (deltaMinus1, rest) :- TakeUe(bs);
      var (used, rest1) :- TakeFlag(rest);
      if deltaMinus1 > MAX_DELTA_POC then None
      else
        var next := poc + Signed(negative, deltaMinus1 + 1);
        TakeDeltas(acc + [DeltaPoc(next, used)], n, next, negative, rest1)
  }

  /** num_negative_pics and num_positive_pics. */
  function TakeCounts(bs: seq<bool>): (r: Option<(nat, nat, seq<bool>)>)
    ensures r.Some? ==> r.value.0 + r.value.1 <= MAX_REF_PICS
  {
    var (numNegative, rest) :- TakeUe(bs);
    var (numPositive, rest1) :- TakeUe(rest);
    if numNegative + numPositive > MAX_REF_PICS then None else Some((numNegative, numPositive, rest1))
  }

  function TakeExplicit(bs: seq<bool>): Option<(ShortTermRps, seq<bool>)> {
    var (numNegative, numPositive, rest) :- TakeCounts(bs);
    var (s0, rest1) :- TakeDeltas([], numNegative, 0, true, rest);
    var (s1, rest2) :- TakeDeltas([], numPositive, 0, false, rest1);
    Some((ShortTermRps(s0, s1), rest2))
  }

  /** st_ref_pic_set(stRpsIdx). */
  function TakeRps(stRpsIdx: nat, numShortTermRps: nat, sets: seq<ShortTermRps>, bs: seq<bool>)
    : Option<(ShortTermRps, seq<bool>)>
  {
    var (interPred, rest) :- if stRpsIdx != 0 then TakeFlag(bs) else Some((false, bs));
    if interPred then TakeInter(stRpsIdx, numShortTermRps, sets, rest) else TakeExplicit(rest)
  }

  /** Deltas that move away from 0 on one side, at most 2^15 a step. */
  ghost predicate Outward(s: seq<DeltaPoc>, negative: bool) {
    && SortedOutwards(s, negative)
    && (forall i :: 0 <= i < |s| ==> 0 < Signed(negative, s[i].delta) <= 0x8000 * (i + 1))
  }

  lemma {:induction false} TakeDeltasOutward(acc: seq<DeltaPoc>, n: nat, poc: int, negative: bool, bs: seq<bool>)
    requires |acc| <= n && Outward(acc, negative)
    requires if acc == [] then poc == 0 else poc == acc[|acc| - 1].delta
    ensures TakeDeltas(acc, n, poc, negative, bs).Some? ==>
      Outward(TakeDeltas(acc, n, poc, negative, bs).value.0, negative)
    decreases n - |acc|
  {
    if TakeDeltas(acc, n, poc, negative, bs).Some? && |acc| < n {
      var (deltaMinus1, rest) := TakeUe(bs).value;
      var (used, rest1) := TakeFlag(rest).value;
      var next := poc + Signed(negative, deltaMinus1 + 1);
      OutwardStep(acc, poc, negative, next, used);
      TakeDeltasOutward(acc + [DeltaPoc(next, used)], n, next, negative, rest1);
    }
  }

  lemma OutwardStep(acc: seq<DeltaPoc>, poc: int, negative: bool, next: int, used: bool)
    requires Outward(acc, negative)
    requires if acc == [] then poc == 0 else poc == acc[|acc| - 1].delta
    requires 0 < Signed(negative, next) - Signed(negative, poc) <= 0x8000
    ensures Outward(acc + [DeltaPoc(next, used)], negative)
  {
    if acc != [] {
      assert 0 < Signed(negative, poc) <= 0x8000 * |acc|;
    }
  }

  lemma OutwardWellFormed(r: ShortTermRps)
    requires Outward(r.s0, true) && Outward(r.s1, false) && NumDeltaPocs(r) <= MAX_REF_PICS
    ensures WellFormed(r) && Bounded(r, ChainBound(0))
  {
  }

  /** Every accepted set is well formed and keeps the chain's bound. */
  lemma TakeRpsInvariant(stRpsIdx: nat, numShortTermRps: nat, sets: seq<ShortTermRps>, bs: seq<bool>)
    requires AllWellFormed(sets) && ChainBounded(sets)
    ensures TakeRps(stRpsIdx, numShortTermRps, sets, bs).Some? ==>
      var r := TakeRps(stRpsIdx, numShortTermRps, sets, bs).value.0;
      WellFormed(r) && Bounded(r, ChainBound(stRpsIdx))
  {
    if stRpsIdx != 0 && TakeFlag(bs).Some? && TakeFlag(bs).value.0 {
      TakeInterInvariant(stRpsIdx, numShortTermRps, sets, TakeFlag(bs).value.1);
    } else if stRpsIdx == 0 || TakeFlag(bs).Some? {
      TakeExplicitInvariant(if stRpsIdx == 0 then bs else TakeFlag(bs).value.1);
    }
  }

  lemma TakeInterInvariant(stRpsIdx: nat, numShortTermRps: nat, sets: seq<ShortTermRps>, bs: seq<bool>)
    requires AllWellFormed(sets) && ChainBounded(sets)
    ensures TakeInter(stRpsIdx, numShortTermRps, sets, bs).Some? ==>
      var r := TakeInter(stRpsIdx, numShortTermRps, sets, bs).value.0;
      WellFormed(r) && Bounded(r, ChainBound(stRpsIdx))
  {
    if TakeInter(stRpsIdx, numShortTermRps, sets, bs).Some? {
      var (k, rest) := TakeRefRpsIdx(stRpsIdx, numShortTermRps, |sets|, bs).value;
      var (deltaRps, rest1) := TakeDeltaRps(rest).value;
      var flags := TakeFlags([], NumDeltaPocs(sets[k]) + 1, rest1).value.0;
      DeriveInvariant(sets[k], deltaRps, flags, ChainBound(k));
    }
  }

  lemma DeriveInvariant(ref: ShortTermRps, deltaRps: int, flags: seq<Flags>, b: nat)
    requires WellFormed(ref) && NumDeltaPocs(ref) < |flags|
    requires Bounded(ref, b) && -0x8000 <= deltaRps <= 0x8000
    ensures var r := Derive(ref, deltaRps, flags);
      && Bounded(r, b + 0x8000)
      && (NumDeltaPocs(r) <= MAX_REF_PICS ==> WellFormed(r))
  {
    DeriveMeaning(ref, deltaRps, flags);
    DeriveBounded(ref, deltaRps, flags, b);
    var r := Derive(ref, deltaRps, flags);
    assert forall i :: 0 <= i < |r.s0| ==> r.s0[i] in r.s0;
    assert forall i :: 0 <= i < |r.s1| ==> r.s1[i] in r.s1;
  }

  lemma TakeExplicitInvariant(bs: seq<bool>)
    ensures TakeExplicit(bs).Some? ==>
      var r := TakeExplicit(bs).value.0;
      WellFormed(r) && Bounded(r, ChainBound(0))
  {
    if TakeExplicit(bs).Some? {
      var (numNegative, numPositive, rest) := TakeCounts(bs).value;
      TakeDeltasOutward([], numNegative, 0, true, rest);
      TakeDeltasOutward([], numPositive, 0, false, TakeDeltas([], numNegative, 0, true, rest).value.1);
      OutwardWellFormed(TakeExplicit(bs).value.0);
    }
  }

  /** The sets of an SPS, each predicted at most from the one before it. */
  function TakeSets(acc: seq<ShortTermRps>, n: nat, bs: seq<bool>): (r: Option<(seq<ShortTermRps>, seq<bool>)>)
    requires |acc| <= n
    ensures r.Some? ==> |r.value.0| == n
    decreases n - |acc|
  {
    if |acc| == n then Some((acc, bs))
    else
      var (rps, rest) :- TakeRps(|acc|, n, acc, bs);
      TakeSets(acc + [rps], n, rest)
  }

  /** The invariant of the whole chain, for every bit string. */
  lemma {:induction false} TakeSetsInvariant(acc: seq<ShortTermRps>, n: nat, bs: seq<bool>)
    requires |acc| <= n && AllWellFormed(acc) && ChainBounded(acc)
    ensures TakeSets(acc, n, bs).Some? ==>
      var sets := TakeSets(acc, n, bs).value.0;
      AllWellFormed(sets) && ChainBounded(sets)
    decreases n - |acc|
  {
    if |acc| < n && TakeRps(|acc|, n, acc, bs).Some? {
      TakeRpsInvariant(|acc|, n, acc, bs);
      var (rps, rest) := TakeRps(|acc|, n, acc, bs).value;
      TakeSetsInvariant(acc + [rps], n, rest);
    }
  }

  /** A slice's own set, predicted from any set of its SPS, stays below 2^22. */
  lemma SliceSetBound(n: nat, spsBits: seq<bool>, sliceBits: seq<bool>)
    requires n <= MAX_SHORT_TERM_RPS && TakeSets([], n, spsBits).Some?
    ensures var sets := TakeSets([], n, spsBits).value.0;
      TakeRps(n, n, sets, sliceBits).Some? ==>
        var r := TakeRps(n, n, sets, sliceBits).value.0;
        WellFormed(r) && Bounded(r, 0x40_0000)
  {
    TakeSetsInvariant([], n, spsBits);
    TakeRpsInvariant(n, n, TakeSets([], n, spsBits).value.0, sliceBits);
  }

  // ----- Writing an explicit set

  /** The gaps that delta_poc_sX_minus1 can code. */
  ghost predicate Codable(s: seq<DeltaPoc>, poc: int, negative: bool) {
    s != [] ==>
      && 1 <= Signed(negative, s[0].delta - poc) <= 0x8000
      && Codable(s[1..], s[0].delta, negative)
  }

  /** A side's syntax elements, followed by `rest`. */
  ghost function SideBits(s: seq<DeltaPoc>, poc: int, negative: bool, rest: seq<bool>): seq<bool>
    requires Codable(s, poc, negative)
  {
    if s == [] then rest
    else
      UeBits(Signed(negative, s[0].delta - poc) - 1)
        + ([s[0].used] + SideBits(s[1..], s[0].delta, negative, rest))
  }

  ghost function ExplicitBits(r: ShortTermRps, rest: seq<bool>): seq<bool>
    requires Codable(r.s0, 0, true) && Codable(r.s1, 0, false)
  {
    UeBits(|r.s0|) + (UeBits(|r.s1|) + SideBits(r.s0, 0, true, SideBits(r.s1, 0, false, rest)))
  }

  lemma DeltaRoundTrip(acc: seq<DeltaPoc>, n: nat, poc: int, e: DeltaPoc, negative: bool, after: seq<bool>)
    requires |acc| < n && 1 <= Signed(negative, e.delta - poc) <= MAX_DELTA_POC + 1
    ensures TakeDeltas(acc, n, poc, negative, UeBits(Signed(negative, e.delta - poc) - 1) + ([e.used] + after))
      == TakeDeltas(acc + [e], n, e.delta, negative, after)
  {
    UeRoundTrip(Signed(negative, e.delta - poc) - 1, [e.used] + after);
    assert TakeFlag([e.used] + after) == Some((e.used, after));
  }

  lemma {:induction false} SideRoundTrip(
    acc: seq<DeltaPoc>, s: seq<DeltaPoc>, poc: int, negative: bool, rest: seq<bool>)
    requires Codable(s, poc, negative)
    ensures TakeDeltas(acc, |acc| + |s|, poc, negative, SideBits(s, poc, negative, rest)) == Some((acc + s, rest))
    decreases s
  {
    if s == [] {
      assert acc + s == acc;
    } else {
      DeltaRoundTrip(acc, |acc| + |s|, poc, s[0], negative, SideBits(s[1..], s[0].delta, negative, rest));
      SideRoundTrip(acc + [s[0]], s[1..], s[0].delta, negative, rest);
      assert acc + [s[0]] + s[1..] == acc + s;
    }
  }

  lemma CountsRoundTrip(n: nat, m: nat, after: seq<bool>)
    requires n + m <= MAX_REF_PICS
    ensures TakeCounts(UeBits(n) + (UeBits(m) + after)) == Some((n, m, after))
  {
    UeRoundTrip(n, UeBits(m) + after);
    UeRoundTrip(m, after);
  }

  /** The explicit form reads back every set it can code. */
  lemma ExplicitRoundTrip(r: ShortTermRps, rest: seq<bool>)
    requires Codable(r.s0, 0, true) && Codable(r.s1, 0, false) && NumDeltaPocs(r) <= MAX_REF_PICS
    ensures TakeExplicit(ExplicitBits(r, rest)) == Some((r, rest))
  {
    var after1 := SideBits(r.s1, 0, false, rest);
    CountsRoundTrip(|r.s0|, |r.s1|, SideBits(r.s0, 0, true, after1));
    SideRoundTrip([], r.s0, 0, true, after1);
    SideRoundTrip([], r.s1, 0, false, rest);
    assert [] + r.s0 == r.s0 && [] + r.s1 == r.s1;
  }

  // ----- The parser

  /** Appends one derived entry, or reports that the fixed array is full. */
  method Append(out: seq<DeltaPoc>, keep: bool, e: DeltaPoc) returns (r: Option<seq<DeltaPoc>>)
    requires |out| <= MAX_REF_PICS
    ensures r.None? <==> keep && |out| == MAX_REF_PICS
    ensures r.Some? ==> r.value == out + Kept(keep, e) && |r.value| <= MAX_REF_PICS
  {
    if !keep {
      return Some(out + []);
    }
    if |out| >= MAX_REF_PICS {
      return None;
    }
    return Some(out + [e]);
  }

  lemma {:induction false} SideGrows(
    ref: ShortTermRps, deltaRps: int, flags: seq<Flags>, negative: bool, n: nat, m: nat)
    requires n <= m <= NumDeltaPocs(ref) + 1 <= |flags|
    ensures |Side(ref, deltaRps, flags, negative, n)| <= |Side(ref, deltaRps, flags, negative, m)|
  {
    if n < m {
      SideGrows(ref, deltaRps, flags, negative, n, m - 1);
    }
  }

  /** The next candidate of a side, by its place j among the flags. */
  lemma SideStep(ref: ShortTermRps, deltaRps: int, flags: seq<Flags>, negative: bool, n: nat, j: nat)
    requires n <= NumDeltaPocs(ref) && NumDeltaPocs(ref) + 1 == |flags| && j == OrderIndex(ref, negative, n)
    ensures var d := RefDelta(ref, j) + deltaRps;
      Side(ref, deltaRps, flags, negative, n + 1)
        == Side(ref, deltaRps, flags, negative, n)
          + Kept(Signed(negative, d) > 0 && flags[j].useDelta, DeltaPoc(d, flags[j].used))
    ensures |Side(ref, deltaRps, flags, negative, n + 1)| <= |Side(ref, deltaRps, flags, negative, |flags|)|
  {
    SideGrows(ref, deltaRps, flags, negative, n + 1, |flags|);
  }

  lemma S0Far(ref: ShortTermRps, deltaRps: int, flags: seq<Flags>, n: nat, j: nat)
    requires NumDeltaPocs(ref) + 1 == |flags| && j < |ref.s1| && n == |ref.s1| - 1 - j
    ensures var d, flag := ref.s1[j].delta + deltaRps, flags[|ref.s0| + j];
      Side(ref, deltaRps, flags, true, n + 1)
        == Side(ref, deltaRps, flags, true, n) + Kept(d < 0 && flag.useDelta, DeltaPoc(d, flag.used))
    ensures |Side(ref, deltaRps, flags, true, n + 1)| <= |Side(ref, deltaRps, flags, true, |flags|)|
  {
    SideStep(ref, deltaRps, flags, true, n, |ref.s0| + j);
  }

  lemma S0Near(ref: ShortTermRps, deltaRps: int, flags: seq<Flags>, n: nat, j: nat)
    requires NumDeltaPocs(ref) + 1 == |flags| && j < |ref.s0| && n == |ref.s1| + 1 + j
    ensures var d, flag := ref.s0[j].delta + deltaRps, flags[j];
      Side(ref, deltaRps, flags, true, n + 1)
        == Side(ref, deltaRps, flags, true, n) + Kept(d < 0 && flag.useDelta, DeltaPoc(d, flag.used))
    ensures |Side(ref, deltaRps, flags, true, n + 1)| <= |Side(ref, deltaRps, flags, true, |flags|)|
  {
    SideStep(ref, deltaRps, flags, true, n, j);
  }

  /** The entries of the reference set's other side, from the far end. */
  method S0FromFar(ref: ShortTermRps, deltaRps: int, flags: seq<Flags>) returns (r: Option<seq<DeltaPoc>>)
    requires |flags| == NumDeltaPocs(ref) + 1
    ensures r.None? ==> |Side(ref, deltaRps, flags, true, |flags|)| > MAX_REF_PICS
    ensures r.Some? ==> r.value == Side(ref, deltaRps, flags, true, |ref.s1|) && |r.value| <= MAX_REF_PICS
  {
    var out: seq<DeltaPoc> := [];
    ghost var n: nat := 0;
    for j := |ref.s1| downto 0
      invariant n == |ref.s1| - j && |out| <= MAX_REF_PICS
      invariant out == Side(ref, deltaRps, flags, true, n)
    {
      var dPoc, flag := ref.s1[j].delta + deltaRps, flags[|ref.s0| + j];
      S0Far(ref, deltaRps, flags, n, j);
      out :- Append(out, dPoc < 0 && flag.useDelta, DeltaPoc(dPoc, flag.used));
      n := n + 1;
    }
    return Some(out);
  }

  /** DeltaPocS0: positive entries from the far end, the set itself, negative entries. */
  method DeriveS0(ref: ShortTermRps, deltaRps: int, flags: seq<Flags>) returns (r: Option<seq<DeltaPoc>>)
    requires |flags| == NumDeltaPocs(ref) + 1
    ensures r.None? <==> |Side(ref, deltaRps, flags, true, |flags|)| > MAX_REF_PICS
    ensures r.Some? ==> r.value == Side(ref, deltaRps, flags, true, |flags|)
  {
    hide Side;
    var out :- S0FromFar(ref, deltaRps, flags);
    ghost var n: nat := |ref.s1|;
    var own := flags[NumDeltaPocs(ref)];
    SideStep(ref, deltaRps, flags, true, n, NumDeltaPocs(ref));
    out :- Append(out, deltaRps < 0 && own.useDelta, DeltaPoc(deltaRps, own.used));
    n := n + 1;
    for j := 0 to |ref.s0|
      invariant n == |ref.s1| + 1 + j && |out| <= MAX_REF_PICS
      invariant out == Side(ref, deltaRps, flags, true, n)
    {
      var dPoc, flag := ref.s0[j].delta + deltaRps, flags[j];
      S0Near(ref, deltaRps, flags, n, j);
      out :- Append(out, dPoc < 0 && flag.useDelta, DeltaPoc(dPoc, flag.used));
      n := n + 1;
    }
    return Some(out);
  }

  lemma S1Far(ref: ShortTermRps, deltaRps: int, flags: seq<Flags>, n: nat, j: nat)
    requires NumDeltaPocs(ref) + 1 == |flags| && j < |ref.s0| && n == |ref.s0| - 1 - j
    ensures var d, flag := ref.s0[j].delta + deltaRps, flags[j];
      Side(ref, deltaRps, flags, false, n + 1)
        == Side(ref, deltaRps, flags, false, n) + Kept(d > 0 && flag.useDelta, DeltaPoc(d, flag.used))
    ensures |Side(ref, deltaRps, flags, false, n + 1)| <= |Side(ref, deltaRps, flags, false, |flags|)|
  {
    SideStep(ref, deltaRps, flags, false, n, j);
  }

  lemma S1Near(ref: ShortTermRps, deltaRps: int, flags: seq<Flags>, n: nat, j: nat)
    requires NumDeltaPocs(ref) + 1 == |flags| && j < |ref.s1| && n == |ref.s0| + 1 + j
    ensures var d, flag := ref.s1[j].delta + deltaRps, flags[|ref.s0| + j];
      Side(ref, deltaRps, flags, false, n + 1)
        == Side(ref, deltaRps, flags, false, n) + Kept(d > 0 && flag.useDelta, DeltaPoc(d, flag.used))
    ensures |Side(ref, deltaRps, flags, false, n + 1)| <= |Side(ref, deltaRps, flags, false, |flags|)|
  {
    SideStep(ref, deltaRps, flags, false, n, |ref.s0| + j);
  }

  /** The entries of the reference set's other side, from the far end. */
  method S1FromFar(ref: ShortTermRps, deltaRps: int, flags: seq<Flags>) returns (r: Option<seq<DeltaPoc>>)
    requires |flags| == NumDeltaPocs(ref) + 1
    ensures r.None? ==> |Side(ref, deltaRps, flags, false, |flags|)| > MAX_REF_PICS
    ensures r.Some? ==> r.value == Side(ref, deltaRps, flags, false, |ref.s0|) && |r.value| <= MAX_REF_PICS
  {
    var out: seq<DeltaPoc> := [];
    ghost var n: nat := 0;
    for j := |ref.s0| downto 0
      invariant n == |ref.s0| - j && |out| <= MAX_REF_PICS
      invariant out == Side(ref, deltaRps, flags, false, n)
    {
      var dPoc, flag := ref.s0[j].delta + deltaRps, flags[j];
      S1Far(ref, deltaRps, flags, n, j);
      out :- Append(out, dPoc > 0 && flag.useDelta, DeltaPoc(dPoc, flag.used));
      n := n + 1;
    }
    return Some(out);
  }

  /** DeltaPocS1, the mirror image. */
  method DeriveS1(ref: ShortTermRps, deltaRps: int, flags: seq<Flags>) returns (r: Option<seq<DeltaPoc>>)
    requires |flags| == NumDeltaPocs(ref) + 1
    ensures r.None? <==> |Side(ref, deltaRps, flags, false, |flags|)| > MAX_REF_PICS
    ensures r.Some? ==> r.value == Side(ref, deltaRps, flags, false, |flags|)
  {
    hide Side;
    var out :- S1FromFar(ref, deltaRps, flags);
    ghost var n: nat := |ref.s0|;
    var own := flags[NumDeltaPocs(ref)];
    SideStep(ref, deltaRps, flags, false, n, NumDeltaPocs(ref));
    out :- Append(out, deltaRps > 0 && own.useDelta, DeltaPoc(deltaRps, own.used));
    n := n + 1;
    for j := 0 to |ref.s1|
      invariant n == |ref.s0| + 1 + j && |out| <= MAX_REF_PICS
      invariant out == Side(ref, deltaRps, flags, false, n)
    {
      var dPoc, flag := ref.s1[j].delta + deltaRps, flags[|ref.s0| + j];
      S1Near(ref, deltaRps, flags, n, j);
      out :- Append(out, dPoc > 0 && flag.useDelta, DeltaPoc(dPoc, flag.used));
      n := n + 1;
    }
    return Some(out);
  }

  /** The flag loop. Its index stays inside the used[17] and use_delta[17] arrays. */
  method ReadFlags(br: BitReader, numDelta: nat) returns (r: Option<seq<Flags>>)
    requires br.Valid() && numDelta <= MAX_REF_PICS
    modifies br
    ensures br.Valid() && br.pos >= old(br.pos)
    ensures r.None? <==> TakeFlags([], numDelta + 1, old(br.Rest())).None?
    ensures r.Some? ==> TakeFlags([], numDelta + 1, old(br.Rest())) == Some((r.value, br.Rest()))
  {
    var flags: seq<Flags> := [];
    ghost var start := br.Rest();
    for j := 0 to numDelta + 1
      invariant br.Valid() && br.pos >= old(br.pos)
      invariant |flags| == j
      invariant TakeFlags(flags, numDelta + 1, br.Rest()) == TakeFlags([], numDelta + 1, start)
    {
      assert j < MAX_REF_PICS + 1;
      var used :- br.ReadFlag();
      var useDelta := true;
      if !used {
        useDelta :- br.ReadFlag();
      }
      flags := flags + [Flags(used, useDelta)];
    }
    return Some(flags);
  }

  /** One side of an explicit set. */
  method ReadDeltas(br: BitReader, n: nat, negative: bool) returns (r: Option<seq<DeltaPoc>>)
    requires br.Valid()
    modifies br
    ensures br.Valid() && br.pos >= old(br.pos)
    ensures r.None? <==> TakeDeltas([], n, 0, negative, old(br.Rest())).None?
    ensures r.Some? ==> TakeDeltas([], n, 0, negative, old(br.Rest())) == Some((r.value, br.Rest()))
  {
    var side: seq<DeltaPoc> := [];
    var poc := 0;
    ghost var start := br.Rest();
    for i := 0 to n
      invariant br.Valid() && br.pos >= old(br.pos)
      invariant |side| == i
      invariant TakeDeltas(side, n, poc, negative, br.Rest()) == TakeDeltas([], n, 0, negative, start)
    {
      var deltaMinus1 :- br.ReadUe();
      var used :- br.ReadFlag();
      if deltaMinus1 > MAX_DELTA_POC {
        return None;
      }
      poc := poc + Signed(negative, deltaMinus1 + 1);
      side := side + [DeltaPoc(poc, used)];
    }
    return Some(side);
  }

  method ReadRefRpsIdx(br: BitReader, stRpsIdx: nat, numShortTermRps: nat, numSets: nat) returns (r: Option<nat>)
    requires br.Valid()
    modifies br
    ensures br.Valid() && br.pos >= old(br.pos)
    ensures r.None? <==> TakeRefRpsIdx(stRpsIdx, numShortTermRps, numSets, old(br.Rest())).None?
    ensures r.Some? ==>
      TakeRefRpsIdx(stRpsIdx, numShortTermRps, numSets, old(br.Rest())) == Some((r.value, br.Rest()))
  {
    var deltaIdxMinus1: nat := 0;
    if stRpsIdx == numShortTermRps {
      deltaIdxMinus1 :- br.ReadUe();
    }
    if deltaIdxMinus1 + 1 > stRpsIdx {
      return None;
    }
    var refRpsIdx := stRpsIdx - (deltaIdxMinus1 + 1);
    return if refRpsIdx >= numSets then None else Some(refRpsIdx);
  }

  method ReadDeltaRps(br: BitReader) returns (r: Option<int>)
    requires br.Valid()
    modifies br
    ensures br.Valid() && br.pos >= old(br.pos)
    ensures r.None? <==> TakeDeltaRps(old(br.Rest())).None?
    ensures r.Some? ==> TakeDeltaRps(old(br.Rest())) == Some((r.value, br.Rest()))
  {
    var sign :- br.ReadFlag();
    var absMinus1 :- br.ReadUe();
    return if absMinus1 > MAX_DELTA_POC then None else Some(Signed(sign, absMinus1 + 1));
  }

  method ParseInter(br: BitReader, stRpsIdx: nat, numShortTermRps: nat, sets: seq<ShortTermRps>)
    returns (r: Option<ShortTermRps>)
    requires br.Valid() && forall k :: 0 <= k < |sets| ==> NumDeltaPocs(sets[k]) <= MAX_REF_PICS
    modifies br
    ensures br.Valid() && br.pos >= old(br.pos)
    ensures r.None? <==> TakeInter(stRpsIdx, numShortTermRps, sets, old(br.Rest())).None?
    ensures r.Some? ==> TakeInter(stRpsIdx, numShortTermRps, sets, old(br.Rest())) == Some((r.value, br.Rest()))
  {
    hide BitsOf, TakeRefRpsIdx, TakeDeltaRps, TakeFlags, Side;
    var refRpsIdx :- ReadRefRpsIdx(br, stRpsIdx, numShortTermRps, |sets|);
    var ref := sets[refRpsIdx];
    var deltaRps :- ReadDeltaRps(br);
    var flags :- ReadFlags(br, NumDeltaPocs(ref));
    var s0 :- DeriveS0(ref, deltaRps, flags);
    var s1 :- DeriveS1(ref, deltaRps, flags);
    if |s0| + |s1| > MAX_REF_PICS {
      return None;
    }
    return Some(ShortTermRps(s0, s1));
  }

  method ParseExplicit(br: BitReader) returns (r: Option<ShortTermRps>)
    requires br.Valid()
    modifies br
    ensures br.Valid() && br.pos >= old(br.pos)
    ensures r.None? <==> TakeExplicit(old(br.Rest())).None?
    ensures r.Some? ==> TakeExplicit(old(br.Rest())) == Some((r.value, br.Rest()))
  {
    var numNegative :- br.ReadUe();
    var numPositive :- br.ReadUe();
    if numNegative > MAX_REF_PICS || numPositive > MAX_REF_PICS || numNegative + numPositive > MAX_REF_PICS {
      return None;
    }
    var s0 :- ReadDeltas(br, numNegative, true);
    var s1 :- ReadDeltas(br, numPositive, false);
    return Some(ShortTermRps(s0, s1));
  }

  method ParseShortTermRps(br: BitReader, stRpsIdx: nat, numShortTermRps: nat, sets: seq<ShortTermRps>)
    returns (r: Option<ShortTermRps>)
    requires br.Valid() && AllWellFormed(sets) && ChainBounded(sets)
    modifies br
    ensures br.Valid() && br.pos >= old(br.pos)
    ensures r.None? <==> TakeRps(stRpsIdx, numShortTermRps, sets, old(br.Rest())).None?
    ensures r.Some? ==> TakeRps(stRpsIdx, numShortTermRps, sets, old(br.Rest())) == Some((r.value, br.Rest()))
    ensures r.Some? ==> WellFormed(r.value) && Bounded(r.value, ChainBound(stRpsIdx))
  {
    TakeRpsInvariant(stRpsIdx, numShortTermRps, sets, br.Rest());
    var interPred := false;
    if stRpsIdx != 0 {
      interPred :- br.ReadFlag();
    }
    if interPred {
      r := ParseInter(br, stRpsIdx, numShortTermRps, sets);
    } else {
      r := ParseExplicit(br);
    }
  }

  /** The loop of ParseSps that reads every set of an SPS. */
  method ParseRpsSets(br: BitReader) returns (r: Option<seq<ShortTermRps>>)
    requires br.Valid()
    modifies br
    ensures br.Valid() && br.pos >= old(br.pos)
    ensures r.None? <==>
      var n := TakeUe(old(br.Rest()));
      n.None? || n.value.0 > 64 || TakeSets([], n.value.0, n.value.1).None?
    ensures r.Some? ==>
      && |r.value| <= 64
      && AllWellFormed(r.value) && ChainBounded(r.value)
      && TakeUe(old(br.Rest())).Some?
      && TakeSets([], |r.value|, TakeUe(old(br.Rest())).value.1) == Some((r.value, br.Rest()))
  {
    var n :- br.ReadUe();
    if n > MAX_SHORT_TERM_RPS {
      return None;
    }
    var sets: seq<ShortTermRps> := [];
    ghost var start := br.Rest();
    for i := 0 to n
      invariant br.Valid() && br.pos >= old(br.pos)
      invariant |sets| == i && AllWellFormed(sets) && ChainBounded(sets)
      invariant TakeSets(sets, n, br.Rest()) == TakeSets([], n, start)
    {
      var rps :- ParseShortTermRps(br, i, n, sets);
      sets := sets + [rps];
    }
    return Some(sets);
  }
}
