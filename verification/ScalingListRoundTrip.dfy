/**
 * Scaling lists written and read back (section 7.3.4 of ITU-T H.265): every
 * choice of coding for every list decodes to what it denotes.
 */
module ScalingListRoundTrip {
  import opened Wrappers
  import opened Bits
  import opened DiagScans
  import opened ScalingLists

  /** How one list is coded. */
  datatype Coding = Default | Copy(delta: nat) | Explicit(matrix: Matrix)

  /** A copy of a list coded earlier at the same size; explicit lists in range. */
  predicate ValidCoding(c: Coding, slot: nat)
    requires slot < SLOTS
  {
    var sizeId := SizeOf(slot);
    match c
    case Default => true
    case Copy(delta) => 1 <= delta <= RowOf(slot)
    case Explicit(m) => |m.coefs| == CoefNum(sizeId) && (if sizeId <= 1 then m.dc == 16 else m.dc >= 1)
  }

  predicate ValidCodings(codings: seq<Coding>) {
    |codings| == SLOTS && forall k :: 0 <= k < SLOTS ==> ValidCoding(codings[k], k)
  }

  /** The list a coding denotes, given the lists before it. */
  function Denoted(c: Coding, before: seq<Matrix>): Matrix
    requires |before| < SLOTS && ValidCoding(c, |before|)
  {
    match c
    case Default => DefaultMatrix(|before|)
    case Copy(delta) => before[|before| - delta]
    case Explicit(m) => m
  }

  /** The first `n` lists that the codings denote. */
  function Meaning(codings: seq<Coding>, n: nat): (ls: seq<Matrix>)
    requires ValidCodings(codings) && n <= SLOTS
    ensures |ls| == n
  {
    if n == 0 then [] else
      var before := Meaning(codings, n - 1);
      before + [Denoted(codings[n - 1], before)]
  }

  // ----- The writer

  /** The delta from `next` to `value`, wrapped into the coded range. */
  function WrappedDelta(next: Byte, value: Byte): (d: int)
    ensures -128 <= d <= 127
    ensures NextCoef(next, d) == value
  {
    (value - next + 128) % 256 - 128
  }

  function CoefBits(values: seq<Byte>, next: Byte, rest: seq<bool>): seq<bool>
    decreases values
  {
    if values == [] then rest
    else SeBits(WrappedDelta(next, values[0])) + CoefBits(values[1..], values[0], rest)
  }

  /** A list's coefficients in scan order. */
  function Scanned(side: nat, coefs: seq<Byte>): (values: seq<Byte>)
    requires |coefs| == side * side
    ensures |values| == side * side
    ensures forall i :: 0 <= i < |values| ==> values[i] == coefs[ScanAt(side, i)]
  {
    seq(side * side, i requires 0 <= i < side * side => coefs[ScanAt(side, i)])
  }

  function ExplicitBits(m: Matrix, sizeId: nat, rest: seq<bool>): seq<bool>
    requires |m.coefs| == CoefNum(sizeId)
  {
    SideSquared(sizeId);
    var values := Scanned(Side(sizeId), m.coefs);
    if sizeId <= 1 then CoefBits(values, 8, rest) else SeBits(m.dc - 8) + CoefBits(values, m.dc, rest)
  }

  function CodingBits(c: Coding, slot: nat, rest: seq<bool>): seq<bool>
    requires slot < SLOTS && ValidCoding(c, slot)
  {
    match c
    case Default => [false] + (UeBits(0) + rest)
    case Copy(delta) => [false] + (UeBits(delta) + rest)
    case Explicit(m) => [true] + ExplicitBits(m, SizeOf(slot), rest)
  }

  /** scaling_list_data() from slot `slot` on, in front of `rest`. */
  function ListsBits(codings: seq<Coding>, slot: nat, rest: seq<bool>): seq<bool>
    requires ValidCodings(codings) && slot <= SLOTS
    decreases SLOTS - slot
  {
    if slot == SLOTS then rest else CodingBits(codings[slot], slot, ListsBits(codings, slot + 1, rest))
  }

  // ----- Reading it back

  lemma OneCoefReadBack(value: Byte, next: Byte, n: nat, tail: seq<bool>, acc: seq<Byte>)
    ensures TakeCoefs(SeBits(WrappedDelta(next, value)) + tail, next, n + 1, acc)
      == TakeCoefs(tail, value, n, acc + [value])
  {
    hide TakeSe, SeBits, NextCoef;
    SeRoundTrip(WrappedDelta(next, value), tail);
  }

  lemma NoCoefs(next: Byte, rest: seq<bool>, acc: seq<Byte>)
    ensures TakeCoefs(CoefBits([], next, rest), next, 0, acc) == Some((acc, rest))
  {
  }

  lemma Regroup<T>(acc: seq<T>, values: seq<T>)
    requires values != []
    ensures (acc + [values[0]]) + values[1..] == acc + values
  {
  }

  lemma {:induction false} CoefsReadBack(values: seq<Byte>, next: Byte, rest: seq<bool>, acc: seq<Byte>)
    ensures TakeCoefs(CoefBits(values, next, rest), next, |values|, acc) == Some((acc + values, rest))
    decreases values
  {
    hide TakeCoefs, SeBits, WrappedDelta;
    if values == [] {
      NoCoefs(next, rest, acc);
      assert acc + values == acc;
    } else {
      var value, later := values[0], values[1..];
      OneCoefReadBack(value, next, |later|, CoefBits(later, value, rest), acc);
      CoefsReadBack(later, value, rest, acc + [value]);
      Regroup(acc, values);
    }
  }

  /** Laying out in raster order undoes reading in scan order. */
  lemma PlacedScanned(side: nat, coefs: seq<Byte>)
    requires |coefs| == side * side
    ensures Placed(side, Scanned(side, coefs)) == coefs
  {
    forall p | 0 <= p < side * side
      ensures Placed(side, Scanned(side, coefs))[p] == coefs[p]
    {
      assert ScanAt(side, PositionOf(side, p)) == p;
    }
  }

  lemma ExplicitReadBack(m: Matrix, slot: nat, rest: seq<bool>)
    requires slot < SLOTS && ValidCoding(Explicit(m), slot)
    ensures TakeExplicit(ExplicitBits(m, SizeOf(slot), rest), SizeOf(slot)) == Some((m, rest))
  {
    hide TakeSe, SeBits, TakeCoefs, CoefBits, Placed, Scanned;
    var sizeId := SizeOf(slot);
    SideSquared(sizeId);
    var values := Scanned(Side(sizeId), m.coefs);
    PlacedScanned(Side(sizeId), m.coefs);
    assert [] + values == values;
    if sizeId <= 1 {
      CoefsReadBack(values, 8, rest, []);
    } else {
      CoefsReadBack(values, m.dc, rest, []);
      SeRoundTrip(m.dc - 8, CoefBits(values, m.dc, rest));
    }
  }

  lemma CopyReadBack(slot: nat, delta: nat)
    requires slot < SLOTS && 1 <= delta <= RowOf(slot)
    ensures CopyDistance(SizeOf(slot), delta) <= MatrixIdOf(slot) && CopySource(slot, delta) == slot - delta
  {
    hide CopyDistance, MatrixIdOf;
    if slot < 18 {
      OwnDistance(SizeOf(slot), delta);
      OwnRow(slot);
    } else {
      assert slot == 19 && delta == 1;
      OneDistance();
    }
  }

  lemma OwnRow(slot: nat)
    requires slot < 18
    ensures MatrixIdOf(slot) == RowOf(slot)
  {
    assert RowOf(slot) * 1 == RowOf(slot);
  }

  lemma OwnDistance(sizeId: nat, delta: nat)
    requires sizeId < 3 && delta < 6
    ensures CopyDistance(sizeId, delta) == delta
  {
    assert delta * 1 == delta;
  }

  lemma OneDistance()
    ensures CopyDistance(3, 1) == 3 && MatrixIdOf(19) == 3
  {
  }

  lemma MatrixReadBack(codings: seq<Coding>, slot: nat, rest: seq<bool>, lists: Lists)
    requires ValidCodings(codings) && slot < SLOTS && |lists| == SLOTS
    requires lists[..slot] == Meaning(codings, slot)
    ensures TakeMatrix(CodingBits(codings[slot], slot, rest), slot, lists)
      == Some((Denoted(codings[slot], Meaning(codings, slot)), rest))
  {
    hide TakeUe, UeBits, TakeExplicit, ExplicitBits, DefaultMatrix, Meaning;
    var c := codings[slot];
    var bits := CodingBits(c, slot, rest);
    assert ValidCoding(c, slot);
    match c
    case Default =>
      assert bits[1..] == UeBits(0) + rest;
      UeRoundTrip(0, rest);
    case Copy(delta) =>
      assert bits[1..] == UeBits(delta) + rest;
      UeRoundTrip(delta, rest);
      CopyReadBack(slot, delta);
      assert lists[slot - delta] == lists[..slot][slot - delta];
    case Explicit(m) =>
      assert bits[1..] == ExplicitBits(m, SizeOf(slot), rest);
      ExplicitReadBack(m, slot, rest);
  }

  lemma {:induction false} ListsReadBack(codings: seq<Coding>, slot: nat, rest: seq<bool>, lists: Lists)
    requires ValidCodings(codings) && slot <= SLOTS && |lists| == SLOTS
    requires lists[..slot] == Meaning(codings, slot)
    ensures TakeLists(ListsBits(codings, slot, rest), slot, lists) == Some((Meaning(codings, SLOTS), rest))
    decreases SLOTS - slot
  {
    hide TakeLists, TakeMatrix, CodingBits, Denoted;
    if slot == SLOTS {
      ListsDone(rest, lists);
      assert lists[..slot] == lists;
    } else {
      var tail := ListsBits(codings, slot + 1, rest);
      MatrixReadBack(codings, slot, tail, lists);
      ListsStep(CodingBits(codings[slot], slot, tail), slot, lists);
      var m := Denoted(codings[slot], Meaning(codings, slot));
      assert lists[slot := m][..slot + 1] == lists[..slot] + [m];
      ListsReadBack(codings, slot + 1, rest, lists[slot := m]);
    }
  }

  /**
   * The round trip over all codings: default, copied and explicit lists, in
   * any mixture, read back as what they denote, whatever the lists held before.
   */
  lemma CodedListsReadBack(codings: seq<Coding>, before: Lists, rest: seq<bool>)
    requires ValidCodings(codings) && |before| == SLOTS
    ensures TakeLists(ListsBits(codings, 0, rest), 0, before) == Some((Meaning(codings, SLOTS), rest))
  {
    ListsReadBack(codings, 0, rest, before);
  }

  function AllExplicit(lists: Lists): (codings: seq<Coding>)
    ensures |codings| == |lists| && forall k :: 0 <= k < |codings| ==> codings[k] == Explicit(lists[k])
  {
    seq(|lists|, k requires 0 <= k < |lists| => Explicit(lists[k]))
  }

  lemma {:induction false} AllExplicitMeaning(lists: Lists, n: nat)
    requires ValidCodings(AllExplicit(lists)) && n <= SLOTS
    ensures Meaning(AllExplicit(lists), n) == lists[..n]
  {
    if n > 0 {
      AllExplicitMeaning(lists, n - 1);
    }
  }

  /** Any lists with DCs in 1..255 are restored, every coefficient and every DC. */
  lemma ExplicitListsReadBack(lists: Lists, before: Lists, rest: seq<bool>)
    requires ValidCodings(AllExplicit(lists)) && |before| == SLOTS
    ensures TakeLists(ListsBits(AllExplicit(lists), 0, rest), 0, before) == Some((lists, rest))
  {
    hide TakeLists, ListsBits, Meaning, ValidCoding;
    CodedListsReadBack(AllExplicit(lists), before, rest);
    AllExplicitMeaning(lists, SLOTS);
    assert lists[..SLOTS] == lists;
  }

  function AllDefault(): (codings: seq<Coding>)
    ensures |codings| == SLOTS && forall k :: 0 <= k < SLOTS ==> codings[k] == Default
  {
    seq(SLOTS, _ => Default)
  }

  lemma {:induction false} AllDefaultMeaning(codings: seq<Coding>, n: nat)
    requires ValidCodings(codings) && n <= SLOTS
    requires forall k :: 0 <= k < n ==> codings[k] == Default
    ensures Meaning(codings, n) == DefaultLists()[..n]
  {
    if n > 0 {
      AllDefaultMeaning(codings, n - 1);
    }
  }

  /** A stream of defaults gives exactly what SetDefaultScalingList gives. */
  lemma DefaultStream(codings: seq<Coding>, before: Lists, rest: seq<bool>)
    requires codings == AllDefault() && |before| == SLOTS
    ensures ValidCodings(codings)
    ensures TakeLists(ListsBits(codings, 0, rest), 0, before) == Some((DefaultLists(), rest))
  {
    hide TakeLists, ListsBits, Meaning, DefaultMatrix;
    CodedListsReadBack(codings, before, rest);
    AllDefaultMeaning(codings, SLOTS);
    assert DefaultLists()[..SLOTS] == DefaultLists();
  }

  // ----- Copies

  /** A copy reads only a list of its own size that this data has already set. */
  lemma CopiesReadParsed(slot: nat, delta: nat)
    requires slot < SLOTS && 1 <= delta <= MAX_UE
    requires CopyDistance(SizeOf(slot), delta) <= MatrixIdOf(slot)
    ensures CopySource(slot, delta) < slot && SizeOf(CopySource(slot, delta)) == SizeOf(slot)
  {
    hide CopyDistance;
    DistancePositive(SizeOf(slot), delta);
  }

  lemma DistancePositive(sizeId: nat, delta: nat)
    requires 1 <= delta <= MAX_UE
    ensures CopyDistance(sizeId, delta) >= 1
  {
  }

  /**
   * When a copy is accepted: the distance stays inside the matrix ids, and,
   * because it is multiplied in 32 bits, for two more values at 32x32.
   */
  lemma CopyAcceptedIff(slot: nat, delta: nat)
    requires slot < SLOTS && 1 <= delta <= MAX_UE
    ensures CopyDistance(SizeOf(slot), delta) <= MatrixIdOf(slot)
      <==> delta * Stride(SizeOf(slot)) <= MatrixIdOf(slot)
           || (slot == SLOTS - 1 && (delta == 0x5555_5556 || delta == 0xAAAA_AAAB))
  {
  }

  /** The result depends on the bits alone, not on what the lists held before. */
  lemma {:induction false} EarlierListsDoNotMatter(bs: seq<bool>, slot: nat, a: Lists, b: Lists)
    requires slot <= SLOTS && |a| == |b| == SLOTS && a[..slot] == b[..slot]
    ensures TakeLists(bs, slot, a) == TakeLists(bs, slot, b)
    decreases SLOTS - slot
  {
    hide TakeLists, TakeMatrix;
    if slot == SLOTS {
      ListsDone(bs, a);
      ListsDone(bs, b);
      assert a[..slot] == a && b[..slot] == b;
    } else {
      SameMatrix(bs, slot, a, b);
      ListsStep(bs, slot, a);
      ListsStep(bs, slot, b);
      var m := TakeMatrix(bs, slot, a);
      if m.Some? {
        var a2, b2 := a[slot := m.value.0], b[slot := m.value.0];
        assert a2[..slot + 1] == a[..slot] + [m.value.0];
        assert b2[..slot + 1] == b[..slot] + [m.value.0];
        EarlierListsDoNotMatter(m.value.1, slot + 1, a2, b2);
      }
    }
  }

  lemma SameMatrix(bs: seq<bool>, slot: nat, a: Lists, b: Lists)
    requires slot < SLOTS && |a| == |b| == SLOTS && a[..slot] == b[..slot]
    ensures TakeMatrix(bs, slot, a) == TakeMatrix(bs, slot, b)
  {
    hide TakeExplicit, DefaultMatrix, TakeUe;
    if bs != [] && !bs[0] && TakeUe(bs[1..]).Some? {
      var delta := TakeUe(bs[1..]).value.0;
      DeltaInRange(bs[1..]);
      if delta > 0 && CopyDistance(SizeOf(slot), delta) <= MatrixIdOf(slot) {
        CopiesReadParsed(slot, delta);
        var source := CopySource(slot, delta);
        assert a[source] == a[..slot][source] && b[source] == b[..slot][source];
      }
    }
  }

  lemma DeltaInRange(bs: seq<bool>)
    requires TakeUe(bs).Some?
    ensures TakeUe(bs).value.0 <= MAX_UE
  {
    UeBound(0, bs);
  }
}
