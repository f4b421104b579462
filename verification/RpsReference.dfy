/**
 * Short-term sets in the numbers that are coded: explicit sets as running
 * sums, inter-predicted sets as shifted entries, picture by picture.
 */
module RpsReference {
  import opened Wrappers
  import opened Bits
  import opened ShortTermRpsSets

  // ----- The inter-predicted form

  /**
   * e is a picture of the reference set moved by deltaRps, S0's flags first
   * and then S1's, or with the last flag the reference set's own picture.
   */
  ghost predicate Shifted(ref: ShortTermRps, deltaRps: int, flags: seq<Flags>, e: DeltaPoc)
    requires |flags| == |ref.s0| + |ref.s1| + 1
  {
    || (exists j :: 0 <= j < |ref.s0| && flags[j].useDelta && e == DeltaPoc(ref.s0[j].delta + deltaRps, flags[j].used))
    || (exists j :: 0 <= j < |ref.s1| && MovedAfter(ref, deltaRps, flags, j, e))
    || (flags[|flags| - 1].useDelta && e == DeltaPoc(deltaRps, flags[|flags| - 1].used))
  }

  ghost predicate MovedAfter(ref: ShortTermRps, deltaRps: int, flags: seq<Flags>, j: nat, e: DeltaPoc)
    requires |flags| == |ref.s0| + |ref.s1| + 1 && j < |ref.s1|
  {
    flags[|ref.s0| + j].useDelta && e == DeltaPoc(ref.s1[j].delta + deltaRps, flags[|ref.s0| + j].used)
  }

  lemma ChosenIsShifted(ref: ShortTermRps, deltaRps: int, flags: seq<Flags>, e: DeltaPoc)
    requires |flags| == |ref.s0| + |ref.s1| + 1
    ensures Chosen(ref, deltaRps, flags, e) <==> Shifted(ref, deltaRps, flags, e)
  {
    if Chosen(ref, deltaRps, flags, e) {
      var j: nat :| j <= NumDeltaPocs(ref) && CandidateAt(ref, deltaRps, flags, j) == Candidate(e, true);
      if |ref.s0| <= j < NumDeltaPocs(ref) {
        assert MovedAfter(ref, deltaRps, flags, j - |ref.s0|, e);
      }
    }
    if Shifted(ref, deltaRps, flags, e) {
      if j :| 0 <= j < |ref.s0| && flags[j].useDelta && e == DeltaPoc(ref.s0[j].delta + deltaRps, flags[j].used) {
        assert CandidateAt(ref, deltaRps, flags, j) == Candidate(e, true);
      } else if j :| 0 <= j < |ref.s1| && MovedAfter(ref, deltaRps, flags, j, e) {
        assert CandidateAt(ref, deltaRps, flags, |ref.s0| + j) == Candidate(e, true);
      } else {
        assert CandidateAt(ref, deltaRps, flags, NumDeltaPocs(ref)) == Candidate(e, true);
      }
    }
  }

  /** The derived sides: the shifted pictures before and after the current one, nearest first, none twice. */
  lemma DerivedIsShifted(ref: ShortTermRps, deltaRps: int, flags: seq<Flags>, e: DeltaPoc)
    requires WellFormed(ref) && |flags| == |ref.s0| + |ref.s1| + 1
    ensures var r := Derive(ref, deltaRps, flags);
      && (e in r.s0 <==> e.delta < 0 && Shifted(ref, deltaRps, flags, e))
      && (e in r.s1 <==> e.delta > 0 && Shifted(ref, deltaRps, flags, e))
      && (forall i, j :: 0 <= i < j < |r.s0| ==> r.s0[j].delta < r.s0[i].delta < 0)
      && (forall i, j :: 0 <= i < j < |r.s1| ==> 0 < r.s1[i].delta < r.s1[j].delta)
  {
    hide Derive, Shifted, Chosen, WellFormed;
    var r := Derive(ref, deltaRps, flags);
    DeriveMeaning(ref, deltaRps, flags);
    ChosenIsShifted(ref, deltaRps, flags, e);
    forall i | 0 <= i < |r.s0|
      ensures r.s0[i].delta < 0
    {
      assert r.s0[i] in r.s0;
    }
    forall i | 0 <= i < |r.s1|
      ensures r.s1[i].delta > 0
    {
      assert r.s1[i] in r.s1;
    }
  }

  // ----- The explicit form

  /** delta_poc_minus1 and the used flag. */
  datatype Gap = Gap(minus1: nat, used: bool)

  function GapBits(gaps: seq<Gap>, rest: seq<bool>): seq<bool> {
    if gaps == [] then rest else UeBits(gaps[0].minus1) + ([gaps[0].used] + GapBits(gaps[1..], rest))
  }

  /** How far the first n gaps lead. */
  function Reach(gaps: seq<Gap>, n: nat): nat
    requires n <= |gaps|
  {
    if n == 0 then 0 else Reach(gaps, n - 1) + gaps[n - 1].minus1 + 1
  }

  lemma {:induction false} ReachHead(gaps: seq<Gap>, n: nat)
    requires 0 < n <= |gaps|
    ensures Reach(gaps, n) == gaps[0].minus1 + 1 + Reach(gaps[1..], n - 1)
  {
    if n > 1 {
      ReachHead(gaps, n - 1);
    }
  }

  predicate Codable(gaps: seq<Gap>) {
    forall i :: 0 <= i < |gaps| ==> gaps[i].minus1 <= 32_767
  }

  lemma OneGap(acc: seq<DeltaPoc>, gaps: seq<Gap>, poc: int, negative: bool, rest: seq<bool>, next: int)
    requires gaps != [] && Codable(gaps)
    requires next == if negative then poc - gaps[0].minus1 - 1 else poc + gaps[0].minus1 + 1
    ensures TakeDeltas(acc, |acc| + |gaps|, poc, negative, GapBits(gaps, rest))
      == TakeDeltas(acc + [DeltaPoc(next, gaps[0].used)], |acc| + |gaps|, next, negative, GapBits(gaps[1..], rest))
  {
    hide UeBits, TakeUe;
    var after := GapBits(gaps[1..], rest);
    UeRoundTrip(gaps[0].minus1, [gaps[0].used] + after);
    assert TakeFlag([gaps[0].used] + after) == Some((gaps[0].used, after));
  }

  lemma {:induction false} DeltasAreSums(acc: seq<DeltaPoc>, gaps: seq<Gap>, poc: int, negative: bool, rest: seq<bool>)
    returns (side: seq<DeltaPoc>)
    requires Codable(gaps)
    ensures TakeDeltas(acc, |acc| + |gaps|, poc, negative, GapBits(gaps, rest)) == Some((acc + side, rest))
    ensures |side| == |gaps|
    ensures forall i :: 0 <= i < |side| ==>
      side[i] == DeltaPoc(if negative then poc - Reach(gaps, i + 1) else poc + Reach(gaps, i + 1), gaps[i].used)
    decreases gaps
  {
    hide TakeDeltas, GapBits, Reach;
    if gaps == [] {
      side := [];
      NoGaps(acc, poc, negative, rest);
    } else {
      var next := if negative then poc - gaps[0].minus1 - 1 else poc + gaps[0].minus1 + 1;
      var e := DeltaPoc(next, gaps[0].used);
      OneGap(acc, gaps, poc, negative, rest, next);
      var later := DeltasAreSums(acc + [e], gaps[1..], next, negative, rest);
      side := [e] + later;
      assert acc + [e] + later == acc + side;
      NoReach(gaps[1..]);
      forall i | 0 <= i < |side|
        ensures side[i]
          == DeltaPoc(if negative then poc - Reach(gaps, i + 1) else poc + Reach(gaps, i + 1), gaps[i].used)
      {
        ReachHead(gaps, i + 1);
      }
    }
  }

  lemma NoReach(gaps: seq<Gap>)
    ensures Reach(gaps, 0) == 0
  {
  }

  lemma NoGaps(acc: seq<DeltaPoc>, poc: int, negative: bool, rest: seq<bool>)
    ensures TakeDeltas(acc, |acc| + 0, poc, negative, GapBits([], rest)) == Some((acc + [], rest))
  {
    assert acc + [] == acc;
  }

  /**
   * An explicit set, from its coded gaps: the i-th picture of S0 lies below the
   * current one by the first i + 1 gaps, each one more than coded; S1 above it.
   */
  lemma ExplicitMeaning(before: seq<Gap>, after: seq<Gap>, rest: seq<bool>)
    requires |before| + |after| <= 16 && Codable(before) && Codable(after)
    ensures
      var r := TakeExplicit(UeBits(|before|) + (UeBits(|after|) + GapBits(before, GapBits(after, rest))));
      && r.Some? && r.value.1 == rest
      && |r.value.0.s0| == |before| && |r.value.0.s1| == |after|
      && (forall i :: 0 <= i < |before| ==> r.value.0.s0[i] == DeltaPoc(0 - Reach(before, i + 1), before[i].used))
      && (forall i :: 0 <= i < |after| ==> r.value.0.s1[i] == DeltaPoc(Reach(after, i + 1), after[i].used))
  {
    hide TakeDeltas, GapBits, Reach, TakeCounts, UeBits;
    var afterBits := GapBits(after, rest);
    CountsRoundTrip(|before|, |after|, GapBits(before, afterBits));
    var s0 := DeltasAreSums([], before, 0, true, afterBits);
    var s1 := DeltasAreSums([], after, 0, false, rest);
    assert [] + s0 == s0 && [] + s1 == s1;
  }
}
