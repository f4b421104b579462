/**
 * Splitting a stream into access units that are again Annex B streams
 * (SplitAccessUnits of pi/pi_hevc_backend_test.cc), and that nothing is lost.
 */
module AccessUnits {
  import opened Sequences
  import opened Bits
  import opened NalTypes
  import opened AnnexB
  import opened AnnexBRoundTrip

  predicate HasVcl(group: seq<Nal>) {
    exists i :: 0 <= i < |group| && IsVcl(group[i].nalType)
  }

  /** A slice segment whose first bit, first_slice_segment_in_pic_flag, is set. */
  predicate IsFirstSlice(n: Nal) {
    IsVcl(n.nalType) && n.rbsp != [] && n.rbsp[0] >= 0x80
  }

  /** Whether `n` starts a new access unit after `group`. */
  predicate Breaks(group: seq<Nal>, n: Nal) {
    HasVcl(group) && (!IsVcl(n.nalType) || IsFirstSlice(n))
  }

  /** The access units of a list of NAL units. */
  function Grouped(nals: seq<Nal>): (gs: seq<seq<Nal>>)
    ensures gs == [] <==> nals == []
  {
    if nals == [] then []
    else
      var n := nals[|nals| - 1];
      var gs := Grouped(nals[..|nals| - 1]);
      if gs == [] || Breaks(gs[|gs| - 1], n) then gs + [[n]]
      else gs[..|gs| - 1] + [gs[|gs| - 1] + [n]]
  }

  function Flatten<T>(gs: seq<seq<T>>): seq<T> {
    if gs == [] then [] else Flatten(gs[..|gs| - 1]) + gs[|gs| - 1]
  }

  /** The units behind 3-byte start codes. */
  function Emit(nals: seq<Nal>): seq<Byte> {
    if nals == [] then []
    else Emit(nals[..|nals| - 1]) + [0, 0, 1] + nals[|nals| - 1].raw
  }

  /** What SplitAccessUnits has pushed and what it still collects, for these groups. */
  predicate Collected(aus: seq<seq<Byte>>, cur: seq<Byte>, haveVcl: bool, gs: seq<seq<Nal>>) {
    if gs == [] then aus == [] && cur == [] && !haveVcl
    else
      && |aus| == |gs| - 1
      && (forall k :: 0 <= k < |aus| ==> aus[k] == Emit(gs[k]))
      && cur == Emit(gs[|gs| - 1])
      && haveVcl == HasVcl(gs[|gs| - 1])
  }

  /** `gs` after one more unit. */
  function Extended(gs: seq<seq<Nal>>, n: Nal): seq<seq<Nal>> {
    if gs == [] || Breaks(gs[|gs| - 1], n) then gs + [[n]]
    else gs[..|gs| - 1] + [gs[|gs| - 1] + [n]]
  }

  lemma GroupedSnoc(nals: seq<Nal>, n: Nal)
    ensures Grouped(nals + [n]) == Extended(Grouped(nals), n)
  {
    assert (nals + [n])[..|nals|] == nals;
  }

  lemma CollectStep(aus: seq<seq<Byte>>, cur: seq<Byte>, haveVcl: bool, gs: seq<seq<Nal>>, n: Nal)
    requires Collected(aus, cur, haveVcl, gs)
    ensures var vcl := IsVcl(n.nalType);
      if haveVcl && (!vcl || IsFirstSlice(n)) then Collected(aus + [cur], [] + [0, 0, 1] + n.raw, vcl, Extended(gs, n))
      else Collected(aus, cur + [0, 0, 1] + n.raw, haveVcl || vcl, Extended(gs, n))
  {
    hide Emit, HasVcl;
    if gs == [] || Breaks(gs[|gs| - 1], n) {
      EmitSnoc([], n);
      VclSnoc([], n);
      assert [n] == [] + [n];
    } else {
      EmitSnoc(gs[|gs| - 1], n);
      VclSnoc(gs[|gs| - 1], n);
    }
  }

  lemma EmitSnoc(group: seq<Nal>, n: Nal)
    ensures Emit([]) == []
    ensures Emit(group + [n]) == Emit(group) + [0, 0, 1] + n.raw
  {
    assert (group + [n])[..|group|] == group;
  }

  lemma VclSnoc(group: seq<Nal>, n: Nal)
    ensures !HasVcl([])
    ensures HasVcl(group + [n]) <==> HasVcl(group) || IsVcl(n.nalType)
  {
    var longer := group + [n];
    assert forall i :: 0 <= i < |group| ==> longer[i] == group[i];
    assert longer[|group|] == n;
  }

  method SplitAccessUnits(data: seq<Byte>) returns (aus: seq<seq<Byte>>)
    ensures |aus| == |Grouped(Parsed(data))|
    ensures forall k :: 0 <= k < |aus| ==> aus[k] == Emit(Grouped(Parsed(data))[k])
  {
    hide Collected, Grouped, Parsed, Emit, Extended;
    var nals := ParseAnnexB(data);
    aus := [];
    var cur: seq<Byte> := [];
    var haveVcl := false;
    CollectNothing();
    assert nals[..0] == [];
    for i := 0 to |nals|
      invariant Collected(aus, cur, haveVcl, Grouped(nals[..i]))
    {
      var n := nals[i];
      CollectStep(aus, cur, haveVcl, Grouped(nals[..i]), n);
      GroupedSnoc(nals[..i], n);
      assert nals[..i] + [n] == nals[..i + 1];
      var vcl := IsVcl(n.nalType);
      var first := vcl && n.rbsp != [] && n.rbsp[0] >= 0x80;
      if haveVcl && (!vcl || first) {
        aus := aus + [cur];
        cur := [];
        haveVcl := false;
      }
      cur := cur + [0, 0, 1] + n.raw;
      if vcl {
        haveVcl := true;
      }
    }
    assert nals[..|nals|] == nals;
    AllCollected(aus, cur, haveVcl, nals);
    if cur != [] {
      aus := aus + [cur];
    }
  }

  lemma CollectNothing()
    ensures Collected([], [], false, Grouped([]))
  {
  }

  lemma AllCollected(aus: seq<seq<Byte>>, cur: seq<Byte>, haveVcl: bool, nals: seq<Nal>)
    requires Collected(aus, cur, haveVcl, Grouped(nals))
    ensures var gs, all := Grouped(nals), if cur != [] then aus + [cur] else aus;
      |all| == |gs| && forall k :: 0 <= k < |all| ==> all[k] == Emit(gs[k])
  {
    hide Emit;
    var gs := Grouped(nals);
    if gs != [] {
      GroupedShape(nals);
      EmitNonempty(gs[|gs| - 1]);
    }
  }

  lemma EmitNonempty(group: seq<Nal>)
    requires group != []
    ensures Emit(group) != []
  {
  }

  // ----- The shape of the groups

  /** A run of units with no boundary inside. */
  predicate OneAccessUnit(group: seq<Nal>) {
    group != [] && forall i :: 0 < i < |group| ==> !Breaks(group[..i], group[i])
  }

  /** Access units, each starting where the one before it had to end. */
  predicate WellGrouped(gs: seq<seq<Nal>>) {
    && (forall k :: 0 <= k < |gs| ==> OneAccessUnit(gs[k]))
    && (forall k :: 0 <= k < |gs| - 1 ==> Breaks(gs[k], gs[k + 1][0]))
  }

  lemma NoGroups()
    ensures WellGrouped([]) && Grouped([]) == [] && Flatten<Nal>([]) == []
  {
  }

  lemma {:induction false} GroupedShape(nals: seq<Nal>)
    ensures WellGrouped(Grouped(nals))
    ensures Flatten(Grouped(nals)) == nals
  {
    hide WellGrouped, Flatten, Extended, Grouped;
    NoGroups();
    if nals != [] {
      var init, n := nals[..|nals| - 1], nals[|nals| - 1];
      GroupedShape(init);
      GroupedSnoc(init, n);
      ExtendedShape(Grouped(init), n);
      assert nals == init + [n];
    }
  }

  lemma ExtendedShape(gs: seq<seq<Nal>>, n: Nal)
    requires WellGrouped(gs)
    ensures WellGrouped(Extended(gs, n))
    ensures Flatten(Extended(gs, n)) == Flatten(gs) + [n]
  {
    hide Breaks;
    if gs == [] || Breaks(gs[|gs| - 1], n) {
      FlattenSnoc(gs, [n]);
    } else {
      var init, last := gs[..|gs| - 1], gs[|gs| - 1];
      LongerUnit(last, n);
      hide OneAccessUnit;
      FlattenSnoc(init, last);
      FlattenSnoc(init, last + [n]);
      assert gs == init + [last];
      ConcatAssoc(Flatten(init), last, [n]);
    }
  }

  lemma LongerUnit(last: seq<Nal>, n: Nal)
    requires OneAccessUnit(last) && !Breaks(last, n)
    ensures OneAccessUnit(last + [n])
  {
    hide Breaks;
    var longer := last + [n];
    assert forall i :: 0 <= i <= |last| ==> longer[..i] == last[..i];
    assert last[..|last|] == last;
  }

  lemma FlattenSnoc<T>(gs: seq<seq<T>>, g: seq<T>)
    ensures Flatten(gs + [g]) == Flatten(gs) + g
  {
    assert (gs + [g])[..|gs|] == gs;
  }

  lemma StartsNew(init: seq<seq<Nal>>, n: Nal)
    requires WellGrouped(init + [[n]])
    ensures WellGrouped(init) && Extended(init, n) == init + [[n]]
  {
    hide Breaks, OneAccessUnit;
    var gs := init + [[n]];
    assert forall k :: 0 <= k < |init| ==> gs[k] == init[k];
    assert init != [] ==> Breaks(gs[|init| - 1], gs[|init|][0]);
  }

  lemma Continues(init: seq<seq<Nal>>, shorter: seq<Nal>, n: Nal)
    requires shorter != [] && WellGrouped(init + [shorter + [n]])
    ensures WellGrouped(init + [shorter]) && Extended(init + [shorter], n) == init + [shorter + [n]]
  {
    hide Breaks;
    var gs, before, g := init + [shorter + [n]], init + [shorter], shorter + [n];
    assert forall k :: 0 <= k < |init| ==> gs[k] == before[k] == init[k];
    assert OneAccessUnit(gs[|init|]);
    assert forall i :: 0 <= i <= |shorter| ==> shorter[..i] == g[..i];
    assert shorter[..|shorter|] == shorter && g[|shorter|] == n;
    assert before[..|init|] == init;
  }

  /** The grouping is the only one of that shape. */
  lemma {:induction false} GroupingUnique(gs: seq<seq<Nal>>)
    requires WellGrouped(gs)
    ensures Grouped(Flatten(gs)) == gs
    decreases |gs|, if gs == [] then 0 else |gs[|gs| - 1]|
  {
    if gs != [] {
      LastNonempty(gs);
      hide WellGrouped, Flatten, Extended, Grouped;
      var init, g := gs[..|gs| - 1], gs[|gs| - 1];
      var shorter, n := g[..|g| - 1], g[|g| - 1];
      FlattenSnoc(init, g);
      assert gs == init + [g];
      assert g == shorter + [n];
      if shorter == [] {
        StartsNew(init, n);
        GroupingUnique(init);
        GroupedSnoc(Flatten(init), n);
      } else {
        Continues(init, shorter, n);
        GroupingUnique(init + [shorter]);
        FlattenSnoc(init, shorter);
        GroupedSnoc(Flatten(init + [shorter]), n);
        ConcatAssoc(Flatten(init), shorter, [n]);
      }
    }
  }

  lemma LastNonempty(gs: seq<seq<Nal>>)
    requires gs != [] && WellGrouped(gs)
    ensures gs[|gs| - 1] != []
  {
    assert OneAccessUnit(gs[|gs| - 1]);
  }

  // ----- Nothing is lost

  lemma {:induction false} EmitIsJoin(nals: seq<Nal>)
    ensures Emit(nals) == Join(Raws(nals), seq(|nals|, _ => 0), 0)
  {
    if nals == [] {
    } else {
      var init, n := nals[..|nals| - 1], nals[|nals| - 1];
      EmitIsJoin(init);
      JoinSnoc(Raws(init), n.raw);
      assert Raws(nals) == Raws(init) + [n.raw];
      assert seq(|nals|, _ => 0) == seq(|init|, _ => 0) + [0];
    }
  }

  lemma {:induction false} JoinSnoc(raws: seq<seq<Byte>>, raw: seq<Byte>)
    ensures Join(raws + [raw], seq(|raws|, _ => 0) + [0], 0) == Join(raws, seq(|raws|, _ => 0), 0) + [0, 0, 1] + raw
  {
    if raws == [] {
      assert Join([raw], [0], 0) == StartCode(0) + (raw + Join([], [], 0));
    } else {
      var tail := raws[1..];
      JoinSnoc(tail, raw);
      assert (raws + [raw])[1..] == tail + [raw];
      assert (seq(|raws|, _ => 0) + [0])[1..] == seq(|tail|, _ => 0) + [0];
      assert seq(|raws|, _ => 0)[1..] == seq(|tail|, _ => 0);
    }
  }

  lemma EmittedReparsed(nals: seq<Nal>)
    requires Faithful(nals)
    ensures Parsed(Emit(nals)) == nals
  {
    hide Parsed, Emit, Join;
    EmitIsJoin(nals);
    Reparsed(nals, seq(|nals|, _ => 0), 0);
  }

  lemma FaithfulParts(a: seq<Nal>, b: seq<Nal>)
    requires Faithful(a + b)
    ensures Faithful(a) && Faithful(b)
  {
    hide Framed, NalOf;
    var all := a + b;
    assert forall i :: 0 <= i < |a| ==> a[i] == all[i];
    assert forall i :: 0 <= i < |b| ==> b[i] == all[|a| + i];
  }

  lemma {:induction false} FlattenFaithful(gs: seq<seq<Nal>>, k: nat)
    requires k < |gs| && Faithful(Flatten(gs))
    ensures Faithful(gs[k])
  {
    hide Faithful;
    var init, last := gs[..|gs| - 1], gs[|gs| - 1];
    FaithfulParts(Flatten(init), last);
    if k < |init| {
      FlattenFaithful(init, k);
    }
  }

  /**
   * Splitting loses nothing, whatever the bytes: each access unit parses to
   * its own group, and the groups in order are the units of the stream.
   */
  lemma SplittingLosesNothing(data: seq<Byte>, aus: seq<seq<Byte>>)
    requires |aus| == |Grouped(Parsed(data))|
    requires forall k :: 0 <= k < |aus| ==> aus[k] == Emit(Grouped(Parsed(data))[k])
    ensures Flatten(seq(|aus|, k requires 0 <= k < |aus| => Parsed(aus[k]))) == Parsed(data)
  {
    hide Parsed, Emit, Grouped, Flatten, Faithful;
    var gs := Grouped(Parsed(data));
    ParsedFaithful(data);
    GroupedShape(Parsed(data));
    forall k | 0 <= k < |aus|
      ensures Parsed(aus[k]) == gs[k]
    {
      FlattenFaithful(gs, k);
      EmittedReparsed(gs[k]);
    }
    assert seq(|aus|, k requires 0 <= k < |aus| => Parsed(aus[k])) == gs;
  }

  lemma {:induction false} EmitConcat(a: seq<Nal>, b: seq<Nal>)
    ensures Emit(a + b) == Emit(a) + Emit(b)
  {
    if b == [] {
      assert a + b == a;
    } else {
      var init, n := b[..|b| - 1], b[|b| - 1];
      EmitConcat(a, init);
      EmitSnoc(a + init, n);
      assert a + b == a + init + [n];
    }
  }

  lemma {:induction false} FlattenEmitted(gs: seq<seq<Nal>>, aus: seq<seq<Byte>>)
    requires |aus| == |gs| && forall k :: 0 <= k < |aus| ==> aus[k] == Emit(gs[k])
    ensures Flatten(aus) == Emit(Flatten(gs))
  {
    if gs != [] {
      var n := |gs| - 1;
      FlattenEmitted(gs[..n], aus[..n]);
      EmitConcat(Flatten(gs[..n]), gs[n]);
    }
  }

  /** The access units' bytes one after the other parse to the same units as the stream. */
  lemma ConcatenationReparses(data: seq<Byte>, aus: seq<seq<Byte>>)
    requires |aus| == |Grouped(Parsed(data))|
    requires forall k :: 0 <= k < |aus| ==> aus[k] == Emit(Grouped(Parsed(data))[k])
    ensures Parsed(Flatten(aus)) == Parsed(data)
  {
    hide Parsed, Emit, Grouped, Flatten, Faithful;
    FlattenEmitted(Grouped(Parsed(data)), aus);
    GroupedShape(Parsed(data));
    ParsedFaithful(data);
    EmittedReparsed(Parsed(data));
  }
}
