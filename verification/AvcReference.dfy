/**
 * The H.264 engine's parameters and POCs in the numbers of the stream: what
 * type 2 makes of a frame number, and how many references the window holds.
 */
module AvcReference {
  import opened VaapiH264Decoders
  import opened SlidingWindow
  import Bits

  /** The POC of every slice of a run, decoded or not. */
  ghost function RunPocs(e: AvcEngine, events: seq<AvcEvent>): seq<int>
    requires e.sps.Valid()
    decreases |events|
  {
    if events == [] then []
    else
      StepKeepsSps(e, events[0]);
      (if events[0].Decode? then [AvcPoc(e, events[0].slice)] else []) + RunPocs(AvcStep(e, events[0]), events[1..])
  }

  /**
   * POC type 2 of true frame numbers: a reference of number n stands at 2n, a
   * non-reference, which has the number of the next reference, just before it.
   */
  ghost predicate Type2(events: seq<AvcEvent>, nums: seq<nat>, pocs: seq<int>)
    decreases |events|
  {
    if events == [] then pocs == []
    else if !events[0].Decode? then Type2(events[1..], nums, pocs)
    else
      && nums != [] && pocs != []
      && (events[0].slice.refIdc > 0 ==> pocs[0] == nums[0] + nums[0])
      && (events[0].slice.refIdc == 0 ==> pocs[0] + 1 == nums[0] + nums[0])
      && Type2(events[1..], nums[1..], pocs[1..])
  }

  /**
   * The POCs of a run are those of the true numbers if and only if no slice
   * but an IDR skips 2^log2_max_frame_num numbers or more.
   */
  lemma RunPocsExact(e: AvcEngine, events: seq<AvcEvent>, last: int, nums: seq<nat>)
    requires e.sps.Valid() && Holds(e, last) && CodesNumbers(e, events, last, nums)
    ensures Type2(events, nums, RunPocs(e, events))
      <==> NoWideGap(events, last, nums, Bits.Pow2(e.sps.log2MaxFrameNum))
  {
    hide Holds, CodesNumber, RunNumbers, RunPocs, Type2, NoWideGap;
    RunNumbersExact(e, events, last, nums);
    PocsOfNumbers(e, events, last, nums);
  }

  lemma {:induction false} PocsOfNumbers(e: AvcEngine, events: seq<AvcEvent>, last: int, nums: seq<nat>)
    requires e.sps.Valid() && CodesNumbers(e, events, last, nums)
    ensures Type2(events, nums, RunPocs(e, events)) <==> RunNumbers(e, events) == nums
    decreases |events|
  {
    hide AvcStep, AvcBegin, CodesNumber, NumberOf, AvcPoc, AvcSps.Valid;
    if events != [] {
      var ev, next, rest := events[0], AvcStep(e, events[0]), events[1..];
      StepKeepsSps(e, ev);
      if ev.Decode? {
        PocOfNumber(e, ev.slice);
        PocsOfNumbers(next, rest, nums[0], nums[1..]);
        assert RunPocs(e, events)[1..] == RunPocs(next, rest);
        assert RunNumbers(e, events)[1..] == RunNumbers(next, rest);
        assert nums == [nums[0]] + nums[1..];
      } else {
        PocsOfNumbers(next, rest, last, nums);
        assert [] + RunPocs(next, rest) == RunPocs(next, rest);
        assert [] + RunNumbers(next, rest) == RunNumbers(next, rest);
      }
    }
  }

  lemma PocOfNumber(e: AvcEngine, slice: SliceInfo)
    requires e.sps.Valid()
    ensures AvcPoc(e, slice) == 2 * NumberOf(AvcBegin(e, slice)) - (if slice.refIdc > 0 then 0 else 1)
  {
  }

  /** In a stream's own order: of two slices the one with the later true number has the higher POC. */
  lemma LaterNumberHigherPoc(a: SliceInfo, b: SliceInfo, numA: nat, numB: nat, pocA: int, pocB: int)
    requires Type2([Decode(a, true), Decode(b, true)], [numA, numB], [pocA, pocB])
    ensures numA < numB ==> pocA < pocB
    ensures numA == numB && a.refIdc == 0 && b.refIdc > 0 ==> pocA < pocB
  {
    var events: seq<AvcEvent> := [Decode(a, true), Decode(b, true)];
    assert events[1..] == [Decode(b, true)];
    assert Type2([Decode(b, true)], [numA, numB][1..], [pocA, pocB][1..]);
    assert [numA, numB][1..] == [numB] && [pocA, pocB][1..] == [pocB];
  }

  // ----- The window's size

  /** The window with max_num_ref_frames as coded: one for 0, one for what an int takes for negative. */
  lemma WindowSizes(sps: AvcSps)
    requires sps.Valid()
    ensures 0 < sps.maxNumRefFrames < 2_147_483_648 ==> sps.Window() == sps.maxNumRefFrames
    ensures sps.maxNumRefFrames == 0 || sps.maxNumRefFrames >= 2_147_483_648 ==> sps.Window() == 1
  {
  }

  lemma FrameNumFits(sps: AvcSps)
    requires sps.Valid()
    ensures 16 <= Bits.Pow2(sps.log2MaxFrameNum) <= 65_536
  {
    Bits.Pow2Monotone(4, sps.log2MaxFrameNum);
    Bits.Pow2Monotone(sps.log2MaxFrameNum, 16);
    assert Bits.Pow2(16) == 65_536;
  }

  /**
   * From configuration on, the window is the last max_num_ref_frames
   * references decoded, and list 0 names them most recent first, when that
   * number is positive and below 2^log2_max_frame_num.
   */
  lemma List0IsLastCoded(poolSize: nat, sps: AvcSps, events: seq<AvcEvent>, slice: SliceInfo, list0: seq<RefEntry>,
                         i: nat)
    requires sps.Valid() && 0 < sps.maxNumRefFrames < Bits.Pow2(sps.log2MaxFrameNum)
    requires AdvancingRun(AvcConfigured(poolSize, sps), events)
    requires var e := AvcRun(AvcConfigured(poolSize, sps), events);
      && e.sps.Valid() && !slice.idr && Advances(e, Decode(slice, true))
      && IsList0(AvcReady(e, slice).dpb, list0) && i < |list0|
    ensures var history := History(AvcConfigured(poolSize, sps), events, []);
      && |list0| == (if |history| < sps.maxNumRefFrames then |history| else sps.maxNumRefFrames)
      && Keys(list0)[i] == history[|history| - 1 - i]
  {
    hide AvcRun, History, AdvancingRun, Advances, AvcConfigured, AvcReady, IsList0, Keys, Bits.Pow2;
    FrameNumFits(sps);
    WindowSizes(sps);
    List0IsRecentHistory(poolSize, sps, events, slice, list0, i);
  }
}
