/**
 * The loops that resolve a picture's reference set against the DPB, the same
 * in both HEVC engines, proved against the functions of DpbMachine.
 */
module ReferenceDerivation {
  import opened Wrappers
  import opened ShortTermRpsSets
  import opened DpbMachine

  /** find_ref: the first reference with this POC. */
  method FindRef(dpb: seq<RefPic>, target: int) returns (e: RpsEntry)
    ensures e == Lookup(dpb, FindPoc(dpb, target))
  {
    for i := 0 to |dpb|
      invariant FindPoc(dpb, target) == FindPocFrom(dpb, target, i)
    {
      if dpb[i].poc == target {
        return Some(dpb[i]);
      }
    }
    return None;
  }

  /** A long-term entry: by full POC when the MSB cycle is coded, else by LSBs. */
  method FindLongTermRef(dpb: seq<RefPic>, lt: LongTermRef, poc: int, maxPocLsb: nat) returns (e: RpsEntry)
    requires maxPocLsb > 0
    ensures e == LtEntry(dpb, lt, poc, maxPocLsb)
  {
    if lt.msbPresent {
      e := FindRef(dpb, lt.pocLsb + poc - lt.msbCycle * maxPocLsb - poc % maxPocLsb);
      return;
    }
    for i := 0 to |dpb|
      invariant FindLongTerm(dpb, lt, poc, maxPocLsb) == FindLsbFrom(dpb, lt.pocLsb, maxPocLsb, i)
    {
      if dpb[i].poc % maxPocLsb == lt.pocLsb {
        return Some(dpb[i]);
      }
    }
    return None;
  }

  method DeriveSide(dpb: seq<RefPic>, side: seq<DeltaPoc>, poc: int) returns (curr: seq<RpsEntry>, kept: seq<int>)
    ensures curr == StCurr(dpb, side, poc) && kept == StKept(side, poc)
  {
    curr, kept := [], [];
    for i := 0 to |side|
      invariant curr == StCurr(dpb, side[..i], poc) && kept == StKept(side[..i], poc)
    {
      assert side[..i + 1][..i] == side[..i];
      var target := poc + side[i].delta;
      kept := kept + [target];
      if side[i].used {
        var e := FindRef(dpb, target);
        curr := curr + [e];
      }
    }
    assert side[..|side|] == side;
  }

  method DeriveLongTerm(dpb: seq<RefPic>, lts: seq<LongTermRef>, poc: int, maxPocLsb: nat)
    returns (curr: seq<RpsEntry>, found: seq<RefPic>)
    requires maxPocLsb > 0
    ensures curr == LtCurr(dpb, lts, poc, maxPocLsb)
    ensures found == LtFound(dpb, lts, poc, maxPocLsb)
  {
    hide LtEntry;
    curr, found := [], [];
    for i := 0 to |lts|
      invariant curr == LtCurr(dpb, lts[..i], poc, maxPocLsb)
      invariant found == LtFound(dpb, lts[..i], poc, maxPocLsb)
    {
      assert lts[..i + 1][..i] == lts[..i];
      var e := FindLongTermRef(dpb, lts[i], poc, maxPocLsb);
      if e.Some? {
        found := found + [e.value];
      }
      if lts[i].usedByCurr {
        curr := curr + [e];
      }
    }
    assert lts[..|lts|] == lts;
  }

  method DeriveReferences(dpb: seq<RefPic>, pic: Picture, poc: int, maxPocLsb: nat) returns (rps: RefPicSet)
    requires maxPocLsb > 0
    ensures rps == DeriveRps(dpb, pic, poc, maxPocLsb)
  {
    var before, kept0 := DeriveSide(dpb, pic.rps.s0, poc);
    var after, kept1 := DeriveSide(dpb, pic.rps.s1, poc);
    var longTerm, found := DeriveLongTerm(dpb, pic.longTerm, poc, maxPocLsb);
    var kept := kept0 + kept1;
    for i := 0 to |found|
      invariant kept == kept0 + kept1 + Pocs(found)[..i]
    {
      kept := kept + [found[i].poc];
    }
    return RefPicSet(before, after, longTerm, kept, found);
  }

  method OldestEntry(dpb: seq<RefPic>) returns (oldest: nat)
    requires dpb != []
    ensures oldest == Lowest(dpb)
  {
    oldest := 0;
    for i := 1 to |dpb|
      invariant oldest == Lowest(dpb[..i])
    {
      assert dpb[..i + 1][..i] == dpb[..i];
      if dpb[i].poc < dpb[oldest].poc {
        oldest := i;
      }
    }
    assert dpb[..|dpb|] == dpb;
  }
}
