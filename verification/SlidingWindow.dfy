/**
 * The H.264 sliding window as a FIFO: although references are compared by
 * numbers modulo MaxFrameNum, the window holds the most recent references in
 * order, for exactly the window sizes at which the numbers tell the oldest.
 */
module SlidingWindow {
  import opened VaapiH264Decoders
  import Bits

  function Newest(dpb: seq<RefEntry>): RefEntry
    requires dpb != []
  {
    dpb[|dpb| - 1]
  }

  /** Entry i was decoded |dpb| - 1 - i references before the newest: frame_num says so, modulo m. */
  predicate Consecutive(dpb: seq<RefEntry>, m: nat)
    requires m > 0
  {
    forall i :: 0 <= i < |dpb| ==> dpb[i].frameNum == (Newest(dpb).frameNum - (|dpb| - 1 - i)) % m
  }

  /** The current frame_num is the newest reference's plus one, modulo m. */
  predicate Follows(dpb: seq<RefEntry>, current: nat, m: nat)
    requires m > 0
  {
    current < m && (dpb != [] ==> current == (Newest(dpb).frameNum + 1) % m)
  }

  lemma ModIs(x: int, m: nat, r: int)
    requires m > 0 && 0 <= r < m && (x == r || x == r - m || x == r + m)
    ensures x % m == r
  {
    var k := if x == r then 0 else if x == r - m then -1 else 1;
    assert x == r + m * k;
    Bits.Congruent(x, r, k, m);
  }

  /** pic_num counts back from the current picture, by the reference's age modulo m. */
  lemma PicNumIsAge(dpb: seq<RefEntry>, current: nat, m: nat, i: nat)
    requires m > 0 && i < |dpb| && Consecutive(dpb, m) && Follows(dpb, current, m)
    ensures PicNumOf(dpb[i].frameNum, current, m) == current - (|dpb| - i) % m
  {
    var newest, age := Newest(dpb).frameNum, |dpb| - i;
    assert newest == (newest - 0) % m by {
      assert dpb[|dpb| - 1].frameNum == (newest - (|dpb| - 1 - (|dpb| - 1))) % m;
    }
    ModIs(newest + 1, m, if newest + 1 < m then newest + 1 else 0);
    assert dpb[i].frameNum == (newest - (age - 1)) % m;
    SameAge(newest + 1, current, age, m);
    var x := current - age % m;
    ModIs(x, m, if x >= 0 then x else x + m);
  }

  /** Going back by an age, or by the age modulo m, from congruent numbers leads to congruent numbers. */
  lemma SameAge(a: int, b: int, age: nat, m: nat)
    requires m > 0 && a % m == b % m
    ensures (a - age) % m == (b - age % m) % m
  {
    var k := a / m - b / m - age / m;
    assert a - age == (b - age % m) + m * k;
    Bits.Congruent(a - age, b - age % m, k, m);
  }

  /** How many references back entry i of n is, modulo m. */
  function Age(n: nat, i: nat, m: nat): nat
    requires m > 0 && i < n
  {
    (n - i) % m
  }

  /**
   * The victim, the entry of lowest pic_num, is the oldest reference if and
   * only if no younger one is more references back modulo MaxFrameNum: the
   * window is shorter than MaxFrameNum, or one short of a multiple.
   */
  lemma VictimIsOldestIff(dpb: seq<RefEntry>, current: nat, m: nat)
    requires m >= 2 && dpb != [] && Consecutive(dpb, m) && Follows(dpb, current, m)
    ensures Victim(Numbered(dpb, current, m)) == 0 <==> |dpb| < m || |dpb| % m == m - 1
  {
    var numbered := Numbered(dpb, current, m);
    forall i | 0 <= i < |dpb|
      ensures numbered[i].picNum == current - Age(|dpb|, i, m)
    {
      PicNumIsAge(dpb, current, m, i);
    }
    OldestAgeIff(|dpb|, m);
    hide Consecutive, Follows, Numbered, Age;
    assert forall i :: 0 <= i < |dpb| ==>
      (numbered[0].picNum <= numbered[i].picNum <==> Age(|dpb|, i, m) <= Age(|dpb|, 0, m));
  }

  lemma OldestAgeIff(n: nat, m: nat)
    requires m >= 2 && n > 0
    ensures (forall i :: 0 <= i < n ==> Age(n, i, m) <= Age(n, 0, m)) <==> n < m || n % m == m - 1
  {
    if n < m {
      forall i | 0 <= i < n
        ensures Age(n, i, m) == n - i
      {
        ModIs(n - i, m, n - i);
      }
    } else {
      ModIs(m - 1, m, m - 1);
      assert Age(n, n - (m - 1), m) == m - 1;
    }
  }

  predicate Ascending(s: seq<RefEntry>) {
    forall i, j :: 0 <= i < j < |s| ==> s[i].picNum < s[j].picNum
  }

  /** The descending order of distinct numbers is the reverse of the ascending one. */
  lemma {:induction false} DescendingIsReverse(s: seq<RefEntry>, list0: seq<RefEntry>, i: nat)
    requires Ascending(s) && IsList0(s, list0) && i < |s|
    ensures |list0| == |s| && list0[i] == s[|s| - 1 - i]
  {
    hide IsList0, Ascending;
    SameLength(s, list0);
    TopIsFirst(s, list0);
    if i > 0 {
      TopPeeled(s, list0);
      DescendingIsReverse(s[..|s| - 1], list0[1..], i - 1);
    }
  }

  lemma TopPeeled(s: seq<RefEntry>, list0: seq<RefEntry>)
    requires s != [] && Ascending(s) && IsList0(s, list0) && |list0| == |s| && list0[0] == s[|s| - 1]
    ensures Ascending(s[..|s| - 1]) && IsList0(s[..|s| - 1], list0[1..])
  {
    assert s == s[..|s| - 1] + [s[|s| - 1]];
    assert list0 == [list0[0]] + list0[1..];
    assert multiset(s[..|s| - 1]) == multiset(s) - multiset{list0[0]};
    assert multiset(list0[1..]) == multiset(list0) - multiset{list0[0]};
  }

  lemma SameLength(s: seq<RefEntry>, list0: seq<RefEntry>)
    requires IsList0(s, list0)
    ensures |list0| == |s|
  {
    assert |multiset(list0)| == |multiset(s)|;
  }

  lemma TopIsFirst(s: seq<RefEntry>, list0: seq<RefEntry>)
    requires s != [] && Ascending(s) && IsList0(s, list0) && |list0| == |s|
    ensures list0[0] == s[|s| - 1]
  {
    assert list0[0] in multiset(s) && s[|s| - 1] in multiset(list0);
    var k :| 0 <= k < |s| && s[k] == list0[0];
    var j :| 0 <= j < |list0| && list0[j] == s[|s| - 1];
    assert list0[0].picNum >= list0[j].picNum;
  }

  /** List 0 is the window, most recent reference first, whatever std::sort does with ties. */
  lemma List0MostRecentFirst(dpb: seq<RefEntry>, current: nat, m: nat, list0: seq<RefEntry>, i: nat)
    requires m > 0 && |dpb| < m && Consecutive(dpb, m) && Follows(dpb, current, m)
    requires IsList0(Numbered(dpb, current, m), list0) && i < |dpb|
    ensures |list0| == |dpb|
    ensures list0[i] == dpb[|dpb| - 1 - i].(picNum := current - 1 - i)
  {
    var numbered := Numbered(dpb, current, m);
    forall k | 0 <= k < |dpb|
      ensures numbered[k].picNum == current - (|dpb| - k)
    {
      PicNumIsAge(dpb, current, m, k);
      ModIs(|dpb| - k, m, |dpb| - k);
    }
    DescendingIsReverse(numbered, list0, i);
  }

  // ----- Over runs

  /** The window sizes at which numbers modulo m tell the oldest reference of a full window. */
  predicate Orders(window: nat, m: nat)
    requires m > 0
  {
    window >= 1 && (window < m || window % m == m - 1)
  }

  /** A reference as decoded, without its changing pic_num. */
  datatype Reference = Reference(slot: nat, frameNum: int, poc: int)

  function Keys(dpb: seq<RefEntry>): (ks: seq<Reference>)
    ensures |ks| == |dpb|
    ensures forall i :: 0 <= i < |ks| ==> ks[i] == Reference(dpb[i].slot, dpb[i].frameNum, dpb[i].poc)
  {
    seq(|dpb|, i requires 0 <= i < |dpb| => Reference(dpb[i].slot, dpb[i].frameNum, dpb[i].poc))
  }

  function Last<T>(s: seq<T>, n: nat): seq<T> {
    if |s| <= n then s else s[|s| - n..]
  }

  /** The references decoded since the last IDR or flush, oldest first. */
  function NextHistory(e: AvcEngine, ev: AvcEvent, history: seq<Reference>): seq<Reference>
    requires e.sps.Valid()
  {
    match ev
    case Flush => []
    case Decode(slice, rendered) =>
      var base := if slice.idr then [] else history;
      if AvcDecode(e, slice, rendered).1 && slice.refIdc != 0 then
        base + [Reference(AvcTarget(AvcBegin(e, slice)).value, slice.frameNum, AvcPoc(e, slice))]
      else base
    case Acquire(_) => history
    case Release(_) => history
  }

  /** What section 7.4.3 of H.264 asks of frame_num without gaps: one more than the last reference's. */
  predicate Advances(e: AvcEngine, ev: AvcEvent)
    requires e.sps.Valid()
  {
    ev.Decode? ==>
      if ev.slice.idr then ev.slice.frameNum < e.sps.MaxFrameNum()
      else Follows(e.dpb, ev.slice.frameNum, e.sps.MaxFrameNum())
  }

  lemma StepKeepsSps(e: AvcEngine, ev: AvcEvent)
    requires e.sps.Valid()
    ensures AvcStep(e, ev).sps == e.sps
  {
  }

  function AvcRun(e: AvcEngine, events: seq<AvcEvent>): AvcEngine
    requires e.sps.Valid()
    decreases |events|
  {
    if events == [] then e
    else
      StepKeepsSps(e, events[0]);
      AvcRun(AvcStep(e, events[0]), events[1..])
  }

  predicate AdvancingRun(e: AvcEngine, events: seq<AvcEvent>)
    requires e.sps.Valid()
    decreases |events|
  {
    if events == [] then true
    else
      StepKeepsSps(e, events[0]);
      Advances(e, events[0]) && AdvancingRun(AvcStep(e, events[0]), events[1..])
  }

  function History(e: AvcEngine, events: seq<AvcEvent>, history: seq<Reference>): seq<Reference>
    requires e.sps.Valid()
    decreases |events|
  {
    if events == [] then history
    else
      StepKeepsSps(e, events[0]);
      History(AvcStep(e, events[0]), events[1..], NextHistory(e, events[0], history))
  }

  /** The window is the tail of the history, with consecutive numbers. */
  predicate WindowIs(e: AvcEngine, history: seq<Reference>)
    requires e.sps.Valid()
  {
    && Keys(e.dpb) == Last(history, e.sps.Window())
    && Consecutive(e.dpb, e.sps.MaxFrameNum())
  }

  lemma NumberedKeeps(dpb: seq<RefEntry>, current: nat, m: nat)
    requires m > 0 && Consecutive(dpb, m)
    ensures Keys(Numbered(dpb, current, m)) == Keys(dpb) && Consecutive(Numbered(dpb, current, m), m)
  {
  }

  lemma JoinsConsecutive(dpb: seq<RefEntry>, r: RefEntry, m: nat)
    requires m > 0 && r.frameNum >= 0 && Consecutive(dpb, m) && Follows(dpb, r.frameNum, m)
    ensures Consecutive(dpb + [r], m)
  {
    var all := dpb + [r];
    forall i | 0 <= i < |all|
      ensures all[i].frameNum == (r.frameNum - (|all| - 1 - i)) % m
    {
      if i < |dpb| {
        ShiftMod(Newest(dpb).frameNum + 1, |dpb| - i, m);
      } else {
        ModIs(r.frameNum, m, r.frameNum);
      }
    }
  }

  lemma ShiftMod(x: int, k: int, m: nat)
    requires m > 0
    ensures (x % m - k) % m == (x - k) % m
  {
    Bits.Congruent(x - k, x % m - k, x / m, m);
  }

  lemma TailConsecutive(dpb: seq<RefEntry>, m: nat)
    requires m > 0 && dpb != [] && Consecutive(dpb, m)
    ensures Consecutive(dpb[1..], m)
  {
    forall i | 0 <= i < |dpb| - 1
      ensures dpb[1..][i].frameNum == (Newest(dpb).frameNum - (|dpb| - 2 - i)) % m
    {
      assert dpb[1..][i] == dpb[i + 1];
    }
  }

  /** Sliding drops the oldest entry of a full window. */
  lemma SlidDropsOldest(dpb: seq<RefEntry>, current: nat, m: nat, window: nat)
    requires m >= 2 && Orders(window, m) && |dpb| <= window && Consecutive(dpb, m) && Follows(dpb, current, m)
    ensures var numbered := Numbered(dpb, current, m);
      Slid(numbered, window) == if |dpb| == window then numbered[1..] else numbered
  {
    if |dpb| == window {
      VictimIsOldestIff(dpb, current, m);
    }
  }

  /** At every other size a full window drops a younger reference instead. */
  lemma DropsOldestIff(dpb: seq<RefEntry>, current: nat, m: nat)
    requires m >= 2 && dpb != [] && Consecutive(dpb, m) && Follows(dpb, current, m) && DistinctSlots(dpb)
    ensures Slid(Numbered(dpb, current, m), |dpb|) == Numbered(dpb, current, m)[1..] <==> Orders(|dpb|, m)
  {
    hide Consecutive, Follows, Victim;
    VictimIsOldestIff(dpb, current, m);
    var numbered := Numbered(dpb, current, m);
    if Victim(numbered) != 0 {
      assert Without(numbered, Victim(numbered))[0] == numbered[0];
      assert numbered[1..][0].slot == dpb[1].slot;
    }
  }

  lemma LastSnoc<T>(s: seq<T>, x: T, n: nat)
    requires n >= 1
    ensures Last(s + [x], n) == (if |s| >= n then Last(s, n)[1..] else s) + [x]
  {
  }

  /** A decoded reference joins the window; nothing else changes it. */
  lemma DecodeKeepsWindow(e: AvcEngine, slice: SliceInfo, rendered: bool, history: seq<Reference>)
    requires AvcInv(e) && WindowIs(e, history) && Advances(e, Decode(slice, rendered))
    requires Orders(e.sps.Window(), e.sps.MaxFrameNum())
    ensures WindowIs(AvcDecode(e, slice, rendered).0, NextHistory(e, Decode(slice, rendered), history))
  {
    var m, window := e.sps.MaxFrameNum(), e.sps.Window();
    hide AvcInv, AvcTarget, Victim, Keys, SlotsOf, AvcPocOf, FrameNumOffset, Consecutive;
    var begun := AvcBegin(e, slice);
    var base := if slice.idr then [] else history;
    NoneConsecutive(m);
    assert WindowIs(begun, base);
    NumberedKeeps(begun.dpb, slice.frameNum, m);
    var numbered := Numbered(begun.dpb, slice.frameNum, m);
    if AvcDecode(e, slice, rendered).1 && slice.refIdc != 0 {
      var slot := AvcTarget(begun).value;
      var r := RefEntry(slot, slice.frameNum, slice.frameNum, AvcPoc(e, slice));
      MarkKeepsWindow(begun.dpb, slice.frameNum, m, window, base, r);
    }
  }

  lemma NoneConsecutive(m: nat)
    requires m > 0
    ensures Consecutive([], m) && Keys([]) == []
  {
  }

  lemma MarkKeepsWindow(dpb: seq<RefEntry>, current: nat, m: nat, window: nat, history: seq<Reference>, r: RefEntry)
    requires m >= 2 && Orders(window, m) && Keys(dpb) == Last(history, window)
    requires Consecutive(dpb, m) && Follows(dpb, current, m) && r.frameNum == current
    ensures var after := Slid(Numbered(dpb, current, m), window) + [r];
      && Keys(after) == Last(history + [Reference(r.slot, r.frameNum, r.poc)], window)
      && Consecutive(after, m)
  {
    var numbered := Numbered(dpb, current, m);
    var key := Reference(r.slot, r.frameNum, r.poc);
    SlidDropsOldest(dpb, current, m, window);
    NumberedKeeps(dpb, current, m);
    NumberedFollows(dpb, current, m);
    WindowSize(dpb, history, window);
    LastSnoc(history, key, window);
    hide Slid, Consecutive, Numbered, Follows, Last, Keys;
    if |dpb| == window {
      TailConsecutive(numbered, m);
      TailFollows(numbered, current, m);
      JoinsConsecutive(numbered[1..], r, m);
      KeysSnoc(numbered[1..], r);
      KeysTail(numbered);
    } else {
      JoinsConsecutive(numbered, r, m);
      KeysSnoc(numbered, r);
    }
  }

  lemma WindowSize(dpb: seq<RefEntry>, history: seq<Reference>, window: nat)
    requires window >= 1 && Keys(dpb) == Last(history, window)
    ensures |dpb| <= window
    ensures |dpb| == window <==> |history| >= window
    ensures |dpb| < window ==> Keys(dpb) == history
  {
  }

  lemma NumberedFollows(dpb: seq<RefEntry>, current: nat, m: nat)
    requires m > 0 && Follows(dpb, current, m)
    ensures Follows(Numbered(dpb, current, m), current, m)
  {
  }

  lemma TailFollows(dpb: seq<RefEntry>, current: nat, m: nat)
    requires m > 0 && dpb != [] && Follows(dpb, current, m)
    ensures Follows(dpb[1..], current, m)
  {
  }

  lemma KeysSnoc(dpb: seq<RefEntry>, r: RefEntry)
    ensures Keys(dpb + [r]) == Keys(dpb) + [Reference(r.slot, r.frameNum, r.poc)]
  {
  }

  lemma KeysTail(dpb: seq<RefEntry>)
    requires dpb != []
    ensures Keys(dpb[1..]) == Keys(dpb)[1..]
  {
  }

  lemma StepKeepsWindow(e: AvcEngine, ev: AvcEvent, history: seq<Reference>)
    requires AvcInv(e) && WindowIs(e, history) && Advances(e, ev)
    requires Orders(e.sps.Window(), e.sps.MaxFrameNum())
    ensures AvcStep(e, ev).sps == e.sps
    ensures WindowIs(AvcStep(e, ev), NextHistory(e, ev, history))
  {
    StepKeepsSps(e, ev);
    if ev.Decode? {
      DecodeKeepsWindow(e, ev.slice, ev.rendered, history);
    }
  }

  /**
   * The window is a FIFO over every run whose references advance frame_num by
   * one: it is exactly the last max_num_ref_frames references decoded since
   * the last IDR or flush, oldest first.
   */
  lemma {:induction false} RunWindowIsFifo(e: AvcEngine, events: seq<AvcEvent>, history: seq<Reference>)
    requires AvcInv(e) && WindowIs(e, history) && AdvancingRun(e, events)
    requires Orders(e.sps.Window(), e.sps.MaxFrameNum())
    ensures var last := AvcRun(e, events);
      && AvcInv(last) && last.sps == e.sps
      && WindowIs(last, History(e, events, history))
    decreases |events|
  {
    hide AvcStep, AvcInv, WindowIs, NextHistory;
    if events != [] {
      AvcStepKeepsInv(e, events[0]);
      StepKeepsWindow(e, events[0], history);
      RunWindowIsFifo(AvcStep(e, events[0]), events[1..], NextHistory(e, events[0], history));
    }
  }

  /** From configuration on: the window, and list 0 for the next picture, are the history's tail. */
  lemma List0IsRecentHistory(poolSize: nat, sps: AvcSps, events: seq<AvcEvent>, slice: SliceInfo,
                             list0: seq<RefEntry>, i: nat)
    requires sps.Valid() && sps.Window() < sps.MaxFrameNum()
    requires AdvancingRun(AvcConfigured(poolSize, sps), events)
    requires var e := AvcRun(AvcConfigured(poolSize, sps), events);
      && e.sps.Valid() && !slice.idr && Advances(e, Decode(slice, true))
      && IsList0(AvcReady(e, slice).dpb, list0) && i < |list0|
    ensures var recent := Last(History(AvcConfigured(poolSize, sps), events, []), sps.Window());
      && |list0| == |recent|
      && Keys(list0)[i] == recent[|recent| - 1 - i]
  {
    hide AvcRun, History, AdvancingRun, AvcInv, AvcConfigured, AvcReady, IsList0, AvcSps.MaxFrameNum, AvcSps.Window,
         Numbered;
    var start := AvcConfigured(poolSize, sps);
    ConfiguredWindow(poolSize, sps);
    RunWindowIsFifo(start, events, []);
    var e := AvcRun(start, events);
    ReadyDpb(e, slice);
    NumberedLength(e.dpb, slice.frameNum, e.sps.MaxFrameNum(), list0);
    List0MostRecentFirst(e.dpb, slice.frameNum, e.sps.MaxFrameNum(), list0, i);
  }

  lemma ReadyDpb(e: AvcEngine, slice: SliceInfo)
    requires e.sps.Valid() && !slice.idr
    ensures AvcReady(e, slice).dpb == Numbered(e.dpb, slice.frameNum, e.sps.MaxFrameNum())
  {
  }

  lemma NumberedLength(dpb: seq<RefEntry>, current: nat, m: nat, list0: seq<RefEntry>)
    requires IsList0(Numbered(dpb, current, m), list0)
    ensures |list0| == |dpb|
  {
    SameLength(Numbered(dpb, current, m), list0);
  }

  lemma ConfiguredWindow(poolSize: nat, sps: AvcSps)
    requires sps.Valid()
    ensures AvcInv(AvcConfigured(poolSize, sps)) && AvcConfigured(poolSize, sps).sps == sps
    ensures WindowIs(AvcConfigured(poolSize, sps), [])
  {
  }

  // ----- Unwrapping frame_num

  /**
   * FrameNumOffset recovers the unwrapped frame number exactly, through any
   * number of wraps: for a true number at or after the last one, the result is
   * true if and only if fewer than MaxFrameNum numbers were skipped.
   */
  lemma FrameNumExact(e: AvcEngine, slice: SliceInfo, trueNum: nat)
    requires e.sps.Valid() && !slice.idr
    requires e.prevFrameNumOffset % e.sps.MaxFrameNum() == 0 && 0 <= e.prevFrameNum < e.sps.MaxFrameNum()
    requires trueNum % e.sps.MaxFrameNum() == slice.frameNum && trueNum >= e.prevFrameNumOffset + e.prevFrameNum
    ensures var begun := AvcBegin(e, slice);
      && (begun.prevFrameNumOffset + begun.prevFrameNum == trueNum
          <==> trueNum < e.prevFrameNumOffset + e.prevFrameNum + e.sps.MaxFrameNum())
      && begun.prevFrameNumOffset % e.sps.MaxFrameNum() == 0
  {
    hide AvcSps.MaxFrameNum;
    OffsetExact(e.sps.MaxFrameNum(), e.prevFrameNumOffset, e.prevFrameNum, slice.frameNum, trueNum);
  }

  lemma OffsetExact(m: nat, offset: int, prev: nat, frameNum: nat, trueNum: nat)
    requires m > 0 && offset % m == 0 && prev < m && trueNum % m == frameNum && trueNum >= offset + prev
    ensures var next := FrameNumOffset(false, frameNum, prev, offset, m);
      && (next + frameNum == trueNum <==> trueNum < offset + prev + m)
      && next % m == 0
  {
    var q, k := offset / m, trueNum / m;
    var a, b := m * q, m * k;
    assert offset == a && trueNum == b + frameNum;
    UnwrapStep(m, q, k, prev, frameNum);
    MultipleMod(m, q + (if prev > frameNum then 1 else 0));
  }

  lemma UnwrapStep(m: nat, q: int, k: int, prev: nat, frameNum: nat)
    requires prev < m && frameNum < m && m * k + frameNum >= m * q + prev
    ensures var step := if prev > frameNum then 1 else 0;
      && m * (q + step) == m * q + (if prev > frameNum then m else 0)
      && (m * q + (if prev > frameNum then m else 0) == m * k <==> m * k + frameNum < m * q + prev + m)
  {
    var d := k - q;
    assert m * k == m * q + m * d;
    if d < 0 {
      Bits.MulMonotone(m, d, -1);
    } else if d > 1 {
      Bits.MulMonotone(m, 2, d);
    }
  }

  lemma MultipleMod(m: nat, q: int)
    requires m > 0
    ensures m * q % m == 0
  {
    Bits.Congruent(m * q, 0, q, m);
  }

  /** The unwrapped frame number of every slice of a run, decoded or not. */
  ghost function RunNumbers(e: AvcEngine, events: seq<AvcEvent>): seq<int>
    requires e.sps.Valid()
    decreases |events|
  {
    if events == [] then []
    else
      StepKeepsSps(e, events[0]);
      (if events[0].Decode? then [NumberOf(AvcBegin(e, events[0].slice))] else [])
        + RunNumbers(AvcStep(e, events[0]), events[1..])
  }

  function NumberOf(e: AvcEngine): int {
    e.prevFrameNumOffset + e.prevFrameNum
  }

  /** A stream of these true numbers: coded modulo MaxFrameNum, from 0 at an IDR and never backwards between. */
  ghost predicate CodesNumbers(e: AvcEngine, events: seq<AvcEvent>, last: int, nums: seq<nat>)
    requires e.sps.Valid()
    decreases |events|
  {
    if events == [] then nums == []
    else
      StepKeepsSps(e, events[0]);
      if events[0].Decode? then
        && nums != [] && CodesNumber(e.sps, events[0].slice, last, nums[0])
        && CodesNumbers(AvcStep(e, events[0]), events[1..], nums[0], nums[1..])
      else CodesNumbers(AvcStep(e, events[0]), events[1..], last, nums)
  }

  predicate CodesNumber(sps: AvcSps, slice: SliceInfo, last: int, num: nat)
    requires sps.Valid()
  {
    num % sps.MaxFrameNum() == slice.frameNum && if slice.idr then num == slice.frameNum else num >= last
  }

  /** No slice but an IDR skips MaxFrameNum numbers. */
  ghost predicate NoWideGap(events: seq<AvcEvent>, last: int, nums: seq<nat>, m: nat)
    decreases |events|
  {
    if events == [] then true
    else if events[0].Decode? then
      nums != [] && (events[0].slice.idr || nums[0] < last + m) && NoWideGap(events[1..], nums[0], nums[1..], m)
    else NoWideGap(events[1..], last, nums, m)
  }

  /** Where the engine stands: it holds the last number, split at a multiple of MaxFrameNum. */
  predicate Holds(e: AvcEngine, last: int)
    requires e.sps.Valid()
  {
    && NumberOf(e) == last && e.prevFrameNumOffset % e.sps.MaxFrameNum() == 0
    && 0 <= e.prevFrameNum < e.sps.MaxFrameNum()
  }

  /**
   * Over every run, flushes and failures included, the numbers are unwrapped
   * exactly if and only if no slice but an IDR skips MaxFrameNum of them or
   * more.
   */
  lemma {:induction false} RunNumbersExact(e: AvcEngine, events: seq<AvcEvent>, last: int, nums: seq<nat>)
    requires e.sps.Valid() && Holds(e, last) && CodesNumbers(e, events, last, nums)
    ensures RunNumbers(e, events) == nums <==> NoWideGap(events, last, nums, e.sps.MaxFrameNum())
    decreases |events|
  {
    hide AvcStep, AvcBegin, Holds, CodesNumber, NumberOf, AvcSps.Valid, AvcSps.MaxFrameNum;
    if events != [] {
      var ev, next, rest := events[0], AvcStep(e, events[0]), events[1..];
      StepKeepsSps(e, ev);
      if ev.Decode? {
        NumberExact(e, ev, last, nums[0]);
        if ev.slice.idr || nums[0] < last + e.sps.MaxFrameNum() {
          RunNumbersExact(next, rest, nums[0], nums[1..]);
          assert nums == [nums[0]] + nums[1..];
        } else {
          assert RunNumbers(e, events)[0] == NumberOf(AvcBegin(e, ev.slice));
        }
      } else {
        OtherHolds(e, ev, last);
        RunNumbersExact(next, rest, last, nums);
        assert [] + RunNumbers(next, rest) == RunNumbers(next, rest);
      }
    }
  }

  lemma NumberExact(e: AvcEngine, ev: AvcEvent, last: int, num: nat)
    requires e.sps.Valid() && ev.Decode? && Holds(e, last) && CodesNumber(e.sps, ev.slice, last, num)
    ensures var good := ev.slice.idr || num < last + e.sps.MaxFrameNum();
      && (NumberOf(AvcBegin(e, ev.slice)) == num <==> good)
      && AvcStep(e, ev).sps == e.sps
      && (good ==> Holds(AvcStep(e, ev), num))
  {
    hide AvcSps.MaxFrameNum, AvcTarget, SlotsOf, AvcPocOf, Slid, Numbered;
    var begun, next := AvcBegin(e, ev.slice), AvcStep(e, ev);
    assert next.prevFrameNum == begun.prevFrameNum && next.prevFrameNumOffset == begun.prevFrameNumOffset;
    if ev.slice.idr {
      MultipleMod(e.sps.MaxFrameNum(), 0);
    } else {
      FrameNumExact(e, ev.slice, num);
    }
  }

  lemma OtherHolds(e: AvcEngine, ev: AvcEvent, last: int)
    requires e.sps.Valid() && !ev.Decode? && Holds(e, last)
    ensures AvcStep(e, ev).sps == e.sps && Holds(AvcStep(e, ev), last)
  {
  }

  /** The same from configuration on. */
  lemma NumbersFromConfiguration(poolSize: nat, sps: AvcSps, events: seq<AvcEvent>, nums: seq<nat>)
    requires sps.Valid() && CodesNumbers(AvcConfigured(poolSize, sps), events, 0, nums)
    ensures RunNumbers(AvcConfigured(poolSize, sps), events) == nums <==> NoWideGap(events, 0, nums, sps.MaxFrameNum())
  {
    assert Holds(AvcConfigured(poolSize, sps), 0);
    RunNumbersExact(AvcConfigured(poolSize, sps), events, 0, nums);
  }
}
