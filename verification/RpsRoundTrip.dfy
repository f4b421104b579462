/**
 * Short-term reference picture sets written in either form, section 7.3.7 of
 * ITU-T H.265: both forms read back the set they stand for, so one set coded
 * both ways is the same set.
 */
module RpsRoundTrip {
  import opened Wrappers
  import opened Sequences
  import opened Bits
  import opened ShortTermRpsSets

  /** `bits` is a coding of `r` as set `stRpsIdx`, whatever follows it. */
  ghost predicate Codes(
    bits: seq<bool>, r: ShortTermRps, stRpsIdx: nat, numShortTermRps: nat, sets: seq<ShortTermRps>)
  {
    forall rest :: TakeRps(stRpsIdx, numShortTermRps, sets, bits + rest) == Some((r, rest))
  }

  // ----- The explicit form

  lemma {:induction false} SideBitsAppend(s: seq<DeltaPoc>, poc: int, negative: bool, rest: seq<bool>, more: seq<bool>)
    requires Codable(s, poc, negative)
    ensures SideBits(s, poc, negative, rest + more) == SideBits(s, poc, negative, rest) + more
    decreases s
  {
    hide UeBits;
    if s != [] {
      var tail := SideBits(s[1..], s[0].delta, negative, rest);
      SideBitsAppend(s[1..], s[0].delta, negative, rest, more);
      var code := UeBits(Signed(negative, s[0].delta - poc) - 1);
      Concat3(code, [s[0].used], tail, more);
    }
  }

  lemma Concat3(a: seq<bool>, b: seq<bool>, c: seq<bool>, more: seq<bool>)
    ensures (a + (b + c)) + more == a + (b + (c + more))
  {
  }

  lemma ExplicitBitsAppend(r: ShortTermRps, more: seq<bool>)
    requires Codable(r.s0, 0, true) && Codable(r.s1, 0, false)
    ensures ExplicitBits(r, more) == ExplicitBits(r, []) + more
  {
    hide UeBits, SideBits;
    SideBitsAppend(r.s1, 0, false, [], more);
    assert [] + more == more;
    SideBitsAppend(r.s0, 0, true, SideBits(r.s1, 0, false, []), more);
    Concat3(UeBits(|r.s0|), UeBits(|r.s1|), SideBits(r.s0, 0, true, SideBits(r.s1, 0, false, [])), more);
  }

  ghost function ExplicitForm(r: ShortTermRps, stRpsIdx: nat): seq<bool>
    requires Codable(r.s0, 0, true) && Codable(r.s1, 0, false)
  {
    (if stRpsIdx != 0 then [false] else []) + ExplicitBits(r, [])
  }

  lemma ExplicitFormCodes(r: ShortTermRps, stRpsIdx: nat, numShortTermRps: nat, sets: seq<ShortTermRps>)
    requires Codable(r.s0, 0, true) && Codable(r.s1, 0, false) && NumDeltaPocs(r) <= MAX_REF_PICS
    ensures Codes(ExplicitForm(r, stRpsIdx), r, stRpsIdx, numShortTermRps, sets)
  {
    hide ExplicitBits, TakeExplicit, TakeInter;
    forall rest
      ensures TakeRps(stRpsIdx, numShortTermRps, sets, ExplicitForm(r, stRpsIdx) + rest) == Some((r, rest))
    {
      var bits := ExplicitBits(r, []) + rest;
      ExplicitBitsAppend(r, rest);
      ExplicitRoundTrip(r, rest);
      var prefix := if stRpsIdx != 0 then [false] else [];
      ConcatAssoc(prefix, ExplicitBits(r, []), rest);
      if stRpsIdx != 0 {
        assert ([false] + bits)[1..] == bits;
      } else {
        assert [] + bits == bits;
      }
    }
  }

  // ----- The inter form

  /** Flag pairs as coded: use_delta_flag only after a clear used_by_curr_pic_flag. */
  function FlagsBits(flags: seq<Flags>): seq<bool> {
    if flags == [] then []
    else (if flags[0].used then [true] else [false, flags[0].useDelta]) + FlagsBits(flags[1..])
  }

  /** A used entry is always kept. */
  predicate FlagsCodable(flags: seq<Flags>) {
    forall j :: 0 <= j < |flags| ==> (flags[j].used ==> flags[j].useDelta)
  }

  lemma {:induction false} FlagsReadBack(acc: seq<Flags>, flags: seq<Flags>, rest: seq<bool>)
    requires FlagsCodable(flags)
    ensures TakeFlags(acc, |acc| + |flags|, FlagsBits(flags) + rest) == Some((acc + flags, rest))
    decreases flags
  {
    if flags == [] {
      assert [] + rest == rest && acc + flags == acc;
    } else {
      var f, tail := flags[0], FlagsBits(flags[1..]) + rest;
      var head := if f.used then [true] else [false, f.useDelta];
      ConcatAssoc(head, FlagsBits(flags[1..]), rest);
      FlagsReadBack(acc + [f], flags[1..], rest);
      assert acc + [f] + flags[1..] == acc + flags;
      FlagReadBack(acc, |acc| + |flags|, f, tail);
    }
  }

  lemma FlagReadBack(acc: seq<Flags>, n: nat, f: Flags, tail: seq<bool>)
    requires |acc| < n && (f.used ==> f.useDelta)
    ensures TakeFlags(acc, n, (if f.used then [true] else [false, f.useDelta]) + tail) == TakeFlags(acc + [f], n, tail)
  {
    if f.used {
      assert ([true] + tail)[1..] == tail;
    } else {
      assert ([false, f.useDelta] + tail)[1..] == [f.useDelta] + tail;
      assert ([f.useDelta] + tail)[1..] == tail;
    }
  }

  /** Reference set `k`, deltaRps and the flags; the index is coded only in a slice's own set. */
  function InterForm(stRpsIdx: nat, numShortTermRps: nat, k: nat, deltaRps: int, flags: seq<Flags>): seq<bool>
    requires k < stRpsIdx && deltaRps != 0
  {
    [true]
      + ((if stRpsIdx == numShortTermRps then UeBits(stRpsIdx - k - 1) else [])
         + ([deltaRps < 0] + (UeBits((if deltaRps < 0 then -deltaRps else deltaRps) - 1) + FlagsBits(flags))))
  }

  predicate InterCodable(stRpsIdx: nat, numShortTermRps: nat, sets: seq<ShortTermRps>, k: nat, deltaRps: int,
                         flags: seq<Flags>) {
    && k < stRpsIdx <= 64 && k < |sets|
    && (stRpsIdx != numShortTermRps ==> k == stRpsIdx - 1)
    && deltaRps != 0 && -0x8000 <= deltaRps <= 0x8000
    && |flags| == NumDeltaPocs(sets[k]) + 1 && FlagsCodable(flags)
    && NumDeltaPocs(Derive(sets[k], deltaRps, flags)) <= 16
  }

  lemma RefIdxReadBack(stRpsIdx: nat, numShortTermRps: nat, numSets: nat, k: nat, rest: seq<bool>)
    requires k < stRpsIdx <= MAX_SHORT_TERM_RPS && k < numSets && (stRpsIdx != numShortTermRps ==> k == stRpsIdx - 1)
    ensures TakeRefRpsIdx(stRpsIdx, numShortTermRps, numSets,
                          (if stRpsIdx == numShortTermRps then UeBits(stRpsIdx - k - 1) else []) + rest)
      == Some((k, rest))
  {
    hide TakeUe, UeBits;
    if stRpsIdx == numShortTermRps {
      UeRoundTrip(stRpsIdx - k - 1, rest);
    } else {
      assert [] + rest == rest;
    }
  }

  lemma DeltaRpsReadBack(deltaRps: int, rest: seq<bool>)
    requires deltaRps != 0 && -0x8000 <= deltaRps <= 0x8000
    ensures TakeDeltaRps([deltaRps < 0] + (UeBits((if deltaRps < 0 then -deltaRps else deltaRps) - 1) + rest))
      == Some((deltaRps, rest))
  {
    hide TakeUe, UeBits;
    var code := UeBits((if deltaRps < 0 then -deltaRps else deltaRps) - 1) + rest;
    assert ([deltaRps < 0] + code)[1..] == code;
    UeRoundTrip((if deltaRps < 0 then -deltaRps else deltaRps) - 1, rest);
  }

  /** Where the pieces of the inter form end when something follows it. */
  lemma InterFormAppend(stRpsIdx: nat, numShortTermRps: nat, k: nat, deltaRps: int, flags: seq<Flags>, rest: seq<bool>)
    requires k < stRpsIdx && deltaRps != 0
    ensures var idx := if stRpsIdx == numShortTermRps then UeBits(stRpsIdx - k - 1) else [];
      var abs := UeBits((if deltaRps < 0 then -deltaRps else deltaRps) - 1);
      InterForm(stRpsIdx, numShortTermRps, k, deltaRps, flags) + rest
        == [true] + (idx + ([deltaRps < 0] + (abs + (FlagsBits(flags) + rest))))
  {
    hide UeBits, FlagsBits;
  }

  lemma InterFormCodes(stRpsIdx: nat, numShortTermRps: nat, sets: seq<ShortTermRps>, k: nat, deltaRps: int,
                       flags: seq<Flags>)
    requires InterCodable(stRpsIdx, numShortTermRps, sets, k, deltaRps, flags)
    ensures Codes(InterForm(stRpsIdx, numShortTermRps, k, deltaRps, flags), Derive(sets[k], deltaRps, flags),
                  stRpsIdx, numShortTermRps, sets)
  {
    hide InterForm, UeBits, FlagsBits, Derive, TakeRefRpsIdx, TakeDeltaRps, TakeFlags, TakeExplicit;
    forall rest
      ensures TakeRps(stRpsIdx, numShortTermRps, sets, InterForm(stRpsIdx, numShortTermRps, k, deltaRps, flags) + rest)
        == Some((Derive(sets[k], deltaRps, flags), rest))
    {
      var idx := if stRpsIdx == numShortTermRps then UeBits(stRpsIdx - k - 1) else [];
      var flagBits := FlagsBits(flags) + rest;
      var deltaBits := [deltaRps < 0] + (UeBits((if deltaRps < 0 then -deltaRps else deltaRps) - 1) + flagBits);
      InterFormAppend(stRpsIdx, numShortTermRps, k, deltaRps, flags, rest);
      assert ([true] + (idx + deltaBits))[1..] == idx + deltaBits;
      RefIdxReadBack(stRpsIdx, numShortTermRps, |sets|, k, deltaBits);
      DeltaRpsReadBack(deltaRps, flagBits);
      FlagsReadBack([], flags, rest);
      assert [] + flags == flags;
    }
  }

  /**
   * One set coded both ways: if the chosen candidates of a reference set are
   * exactly the entries of `r`, the inter form and the explicit form read back
   * the very same lists.
   */
  lemma BothFormsCodeOneSet(r: ShortTermRps, stRpsIdx: nat, numShortTermRps: nat, sets: seq<ShortTermRps>, k: nat,
                            deltaRps: int, flags: seq<Flags>)
    requires WellFormed(r) && Codable(r.s0, 0, true) && Codable(r.s1, 0, false)
    requires InterCodable(stRpsIdx, numShortTermRps, sets, k, deltaRps, flags) && WellFormed(sets[k])
    requires forall e :: e in r.s0 || e in r.s1 <==> e.delta != 0 && Chosen(sets[k], deltaRps, flags, e)
    ensures Codes(ExplicitForm(r, stRpsIdx), r, stRpsIdx, numShortTermRps, sets)
    ensures Codes(InterForm(stRpsIdx, numShortTermRps, k, deltaRps, flags), r, stRpsIdx, numShortTermRps, sets)
  {
    ExplicitFormCodes(r, stRpsIdx, numShortTermRps, sets);
    ExplicitEqualsInter(r, sets[k], deltaRps, flags);
    InterFormCodes(stRpsIdx, numShortTermRps, sets, k, deltaRps, flags);
  }
}
