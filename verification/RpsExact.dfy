/**
 * Short-term reference picture sets are read exactly where one of their two
 * forms stands: the converse of the read-back lemmas of RpsRoundTrip.
 */
module RpsExact {
  import opened Wrappers
  import opened Sequences
  import opened Bits
  import opened ExpGolomb
  import opened ShortTermRpsSets
  import opened RpsRoundTrip

  lemma FlagExact(bs: seq<bool>)
    requires TakeFlag(bs).Some?
    ensures bs == [TakeFlag(bs).value.0] + TakeFlag(bs).value.1
  {
  }

  // ----- The explicit form

  lemma {:induction false} DeltasExact(acc: seq<DeltaPoc>, n: nat, poc: int, negative: bool, bs: seq<bool>)
    requires |acc| <= n && TakeDeltas(acc, n, poc, negative, bs).Some?
    ensures var (side, rest) := TakeDeltas(acc, n, poc, negative, bs).value;
      && acc <= side && Codable(side[|acc|..], poc, negative)
      && bs == SideBits(side[|acc|..], poc, negative, rest)
    decreases n - |acc|
  {
    hide TakeUe, UeBits;
    var (side, rest) := TakeDeltas(acc, n, poc, negative, bs).value;
    if |acc| < n {
      var (deltaMinus1, afterDelta) := TakeUe(bs).value;
      var (used, afterFlag) := TakeFlag(afterDelta).value;
      UeExact(bs, deltaMinus1, afterDelta);
      FlagExact(afterDelta);
      var next := poc + Signed(negative, deltaMinus1 + 1);
      var e := DeltaPoc(next, used);
      DeltasExact(acc + [e], n, next, negative, afterFlag);
      assert side[|acc|] == (acc + [e])[|acc|] == e;
      assert side[|acc|..][1..] == side[|acc + [e]|..];
    } else {
      assert side[|acc|..] == [];
    }
  }

  lemma CountsExact(bs: seq<bool>)
    requires TakeCounts(bs).Some?
    ensures var (n, m, rest) := TakeCounts(bs).value;
      n + m <= 16 && bs == UeBits(n) + (UeBits(m) + rest)
  {
    hide TakeUe, UeBits;
    var (n, afterN) := TakeUe(bs).value;
    var (m, rest) := TakeUe(afterN).value;
    UeExact(bs, n, afterN);
    UeExact(afterN, m, rest);
  }

  lemma ExplicitExact(bs: seq<bool>)
    requires TakeExplicit(bs).Some?
    ensures var (r, rest) := TakeExplicit(bs).value;
      && Codable(r.s0, 0, true) && Codable(r.s1, 0, false) && |r.s0| + |r.s1| <= 16
      && bs == ExplicitBits(r, rest)
  {
    hide TakeCounts, TakeDeltas, SideBits, UeBits, Codable;
    var (n, m, afterCounts) := TakeCounts(bs).value;
    CountsExact(bs);
    var (s0, after0) := TakeDeltas([], n, 0, true, afterCounts).value;
    DeltasExact([], n, 0, true, afterCounts);
    var (s1, after1) := TakeDeltas([], m, 0, false, after0).value;
    DeltasExact([], m, 0, false, after0);
    assert s0[0..] == s0 && s1[0..] == s1;
  }

  // ----- The inter form

  lemma {:induction false} FlagsExact(acc: seq<Flags>, n: nat, bs: seq<bool>)
    requires |acc| <= n && TakeFlags(acc, n, bs).Some?
    ensures var (flags, rest) := TakeFlags(acc, n, bs).value;
      && acc <= flags && FlagsCodable(flags[|acc|..]) && bs == FlagsBits(flags[|acc|..]) + rest
    decreases n - |acc|
  {
    hide FlagsBits;
    var (flags, rest) := TakeFlags(acc, n, bs).value;
    if |acc| < n {
      var (used, afterUsed) := TakeFlag(bs).value;
      FlagExact(bs);
      var f, tail := Flags(true, true), afterUsed;
      if !used {
        FlagExact(afterUsed);
        f, tail := Flags(false, TakeFlag(afterUsed).value.0), TakeFlag(afterUsed).value.1;
      }
      FlagsExact(acc + [f], n, tail);
      assert flags[|acc|] == (acc + [f])[|acc|] == f;
      FlagsStep(flags[|acc|..], bs, tail, rest, f);
      assert flags[|acc|..][1..] == flags[|acc + [f]|..];
    } else {
      assert flags[|acc|..] == [];
      NoFlags(rest);
    }
  }

  lemma NoFlags(rest: seq<bool>)
    ensures FlagsBits([]) + rest == rest
  {
  }

  lemma FlagsStep(flags: seq<Flags>, bs: seq<bool>, tail: seq<bool>, rest: seq<bool>, f: Flags)
    requires flags != [] && flags[0] == f && (f.used ==> f.useDelta)
    requires bs == (if f.used then [true] else [false, f.useDelta]) + tail && tail == FlagsBits(flags[1..]) + rest
    ensures bs == FlagsBits(flags) + rest
  {
    ConcatAssoc(if f.used then [true] else [false, f.useDelta], FlagsBits(flags[1..]), rest);
  }

  lemma RefIdxExact(stRpsIdx: nat, numShortTermRps: nat, numSets: nat, bs: seq<bool>)
    requires TakeRefRpsIdx(stRpsIdx, numShortTermRps, numSets, bs).Some?
    ensures var (k, rest) := TakeRefRpsIdx(stRpsIdx, numShortTermRps, numSets, bs).value;
      && k < stRpsIdx && k < numSets && (stRpsIdx != numShortTermRps ==> k == stRpsIdx - 1)
      && bs == (if stRpsIdx == numShortTermRps then UeBits(stRpsIdx - k - 1) else []) + rest
  {
    hide TakeUe, UeBits;
    if stRpsIdx == numShortTermRps {
      var (d, rest) := TakeUe(bs).value;
      UeExact(bs, d, rest);
    }
  }

  lemma DeltaRpsExact(bs: seq<bool>)
    requires TakeDeltaRps(bs).Some?
    ensures var (deltaRps, rest) := TakeDeltaRps(bs).value;
      && deltaRps != 0 && -0x8000 <= deltaRps <= 0x8000
      && bs == [deltaRps < 0] + (UeBits((if deltaRps < 0 then -deltaRps else deltaRps) - 1) + rest)
  {
    hide TakeUe, UeBits;
    var (sign, afterSign) := TakeFlag(bs).value;
    FlagExact(bs);
    var (absMinus1, rest) := TakeUe(afterSign).value;
    UeExact(afterSign, absMinus1, rest);
  }

  lemma InterExact(stRpsIdx: nat, numShortTermRps: nat, sets: seq<ShortTermRps>, bs: seq<bool>)
    returns (k: nat, deltaRps: int, flags: seq<Flags>)
    requires stRpsIdx <= MAX_SHORT_TERM_RPS && TakeInter(stRpsIdx, numShortTermRps, sets, bs).Some?
    ensures InterCodable(stRpsIdx, numShortTermRps, sets, k, deltaRps, flags)
    ensures var (r, rest) := TakeInter(stRpsIdx, numShortTermRps, sets, bs).value;
      r == Derive(sets[k], deltaRps, flags)
      && [true] + bs == InterForm(stRpsIdx, numShortTermRps, k, deltaRps, flags) + rest
  {
    hide TakeRefRpsIdx, TakeDeltaRps, TakeFlags, Derive, UeBits, InterForm, FlagsBits;
    var (k', afterIdx) := TakeRefRpsIdx(stRpsIdx, numShortTermRps, |sets|, bs).value;
    RefIdxExact(stRpsIdx, numShortTermRps, |sets|, bs);
    var (deltaRps', afterDelta) := TakeDeltaRps(afterIdx).value;
    DeltaRpsExact(afterIdx);
    var (flags', rest) := TakeFlags([], NumDeltaPocs(sets[k']) + 1, afterDelta).value;
    FlagsExact([], NumDeltaPocs(sets[k']) + 1, afterDelta);
    k, deltaRps, flags := k', deltaRps', flags';
    assert flags[0..] == flags;
    InterFormAppend(stRpsIdx, numShortTermRps, k, deltaRps, flags, rest);
  }

  // ----- Either form

  lemma ExplicitFormIs(r: ShortTermRps, stRpsIdx: nat, rest: seq<bool>)
    requires Codable(r.s0, 0, true) && Codable(r.s1, 0, false)
    ensures ExplicitForm(r, stRpsIdx) + rest
      == if stRpsIdx != 0 then [false] + ExplicitBits(r, rest) else ExplicitBits(r, rest)
  {
    hide ExplicitBits, Codable;
    ExplicitBitsAppend(r, rest);
    ConcatAssoc(if stRpsIdx != 0 then [false] else [], ExplicitBits(r, []), rest);
    assert [] + ExplicitBits(r, rest) == ExplicitBits(r, rest);
  }

  /** Whether these bits are a coding of the set, explicit or inter-predicted. */
  ghost predicate IsForm(
    bits: seq<bool>, r: ShortTermRps, stRpsIdx: nat, numShortTermRps: nat, sets: seq<ShortTermRps>)
  {
    || (&& Codable(r.s0, 0, true) && Codable(r.s1, 0, false) && |r.s0| + |r.s1| <= 16
        && bits == ExplicitForm(r, stRpsIdx))
    || (exists k, deltaRps, flags :: IsInterForm(bits, r, stRpsIdx, numShortTermRps, sets, k, deltaRps, flags))
  }

  ghost predicate IsInterForm(
    bits: seq<bool>, r: ShortTermRps, stRpsIdx: nat, numShortTermRps: nat, sets: seq<ShortTermRps>, k: nat,
    deltaRps: int, flags: seq<Flags>)
  {
    && InterCodable(stRpsIdx, numShortTermRps, sets, k, deltaRps, flags)
    && r == Derive(sets[k], deltaRps, flags)
    && bits == InterForm(stRpsIdx, numShortTermRps, k, deltaRps, flags)
  }

  lemma FormCodes(bits: seq<bool>, r: ShortTermRps, stRpsIdx: nat, numShortTermRps: nat, sets: seq<ShortTermRps>)
    requires IsForm(bits, r, stRpsIdx, numShortTermRps, sets)
    ensures Codes(bits, r, stRpsIdx, numShortTermRps, sets)
  {
    hide Codes, Codable, ExplicitForm, InterForm, Derive, InterCodable;
    if k, deltaRps, flags :| IsInterForm(bits, r, stRpsIdx, numShortTermRps, sets, k, deltaRps, flags) {
      InterFormCodes(stRpsIdx, numShortTermRps, sets, k, deltaRps, flags);
    } else {
      ExplicitFormCodes(r, stRpsIdx, numShortTermRps, sets);
    }
  }

  lemma FormFound(stRpsIdx: nat, numShortTermRps: nat, sets: seq<ShortTermRps>, bs: seq<bool>)
    returns (bits: seq<bool>)
    requires stRpsIdx <= MAX_SHORT_TERM_RPS && TakeRps(stRpsIdx, numShortTermRps, sets, bs).Some?
    ensures var (r, rest) := TakeRps(stRpsIdx, numShortTermRps, sets, bs).value;
      IsForm(bits, r, stRpsIdx, numShortTermRps, sets) && bs == bits + rest
  {
    hide TakeInter, TakeExplicit, ExplicitForm, ExplicitBits, InterForm, Codable, Derive;
    var (r, rest) := TakeRps(stRpsIdx, numShortTermRps, sets, bs).value;
    var inter, tail := false, bs;
    if stRpsIdx != 0 {
      FlagExact(bs);
      inter, tail := TakeFlag(bs).value.0, TakeFlag(bs).value.1;
    }
    if inter {
      var k, deltaRps, flags := InterExact(stRpsIdx, numShortTermRps, sets, tail);
      bits := InterForm(stRpsIdx, numShortTermRps, k, deltaRps, flags);
      assert IsInterForm(bits, r, stRpsIdx, numShortTermRps, sets, k, deltaRps, flags);
    } else {
      ExplicitExact(tail);
      bits := ExplicitForm(r, stRpsIdx);
      ExplicitFormIs(r, stRpsIdx, rest);
    }
  }

  /**
   * st_ref_pic_set() accepts exactly the codings of sets: a bit string is read
   * as r, leaving rest, if and only if one of r's forms stands before rest.
   */
  lemma RpsReadExactly(stRpsIdx: nat, numShortTermRps: nat, sets: seq<ShortTermRps>, bs: seq<bool>, r: ShortTermRps,
                       rest: seq<bool>)
    requires stRpsIdx <= 64
    ensures TakeRps(stRpsIdx, numShortTermRps, sets, bs) == Some((r, rest))
      <==> exists bits :: IsForm(bits, r, stRpsIdx, numShortTermRps, sets) && bs == bits + rest
  {
    hide TakeRps, IsForm;
    if TakeRps(stRpsIdx, numShortTermRps, sets, bs) == Some((r, rest)) {
      var bits := FormFound(stRpsIdx, numShortTermRps, sets, bs);
    }
    if bits :| IsForm(bits, r, stRpsIdx, numShortTermRps, sets) && bs == bits + rest {
      FormCodes(bits, r, stRpsIdx, numShortTermRps, sets);
    }
  }
}
