/**
 * Scaling lists in the standard's own terms: Table 7-6 in scan order, what the
 * deltas of an explicit list make of its coefficients, and which list is where.
 */
module ScalingListReference {
  import opened Wrappers
  import opened Bits
  import opened ExpGolomb
  import opened DiagScans
  import opened ScalingLists

  // ----- The scan

  /** Of two scan indices the earlier is on the earlier diagonal, or to the left on the same one. */
  lemma RasterOrder(n: nat, i: nat, j: nat)
    requires i < n * n && j < n * n && n > 0
    ensures var p, q := ScanAt(n, i), ScanAt(n, j);
      i < j <==> p / n + p % n < q / n + q % n || (p / n + p % n == q / n + q % n && p % n < q % n)
  {
    hide CellAt, CellsBefore;
    ScanOrder(n, i, j);
    RasterInRange(n, CellAt(n, i));
    RasterInRange(n, CellAt(n, j));
  }

  // ----- Defaults

  /** Table 7-6 for intra prediction, by scan index. */
  const TABLE_INTRA: seq<Byte> :=
    [16, 16, 16, 16, 16, 16, 16, 16] +
    [16, 16, 17, 16, 17, 16, 17, 18] +
    [17, 18, 18, 17, 18, 21, 19, 20] +
    [21, 20, 19, 21, 24, 22, 22, 24] +
    [24, 22, 22, 24, 25, 25, 27, 30] +
    [27, 25, 25, 29, 31, 35, 35, 31] +
    [29, 36, 41, 44, 41, 36, 47, 54] +
    [54, 47, 65, 70, 65, 88, 88, 115]

  /** Table 7-6 for inter prediction, by scan index. */
  const TABLE_INTER: seq<Byte> :=
    [16, 16, 16, 16, 16, 16, 16, 16] +
    [16, 16, 17, 17, 17, 17, 17, 18] +
    [18, 18, 18, 18, 18, 20, 20, 20] +
    [20, 20, 20, 20, 24, 24, 24, 24] +
    [24, 24, 24, 24, 25, 25, 25, 25] +
    [25, 25, 25, 28, 28, 28, 28, 28] +
    [28, 33, 33, 33, 33, 33, 41, 41] +
    [41, 41, 54, 54, 54, 71, 71, 91]

  /** The scan index of each raster position of an 8x8 block. */
  const POSITIONS: seq<nat> :=
    [0, 2, 5, 9, 14, 20, 27, 35] +
    [1, 4, 8, 13, 19, 26, 34, 42] +
    [3, 7, 12, 18, 25, 33, 41, 48] +
    [6, 11, 17, 24, 32, 40, 47, 53] +
    [10, 16, 23, 31, 39, 46, 52, 57] +
    [15, 22, 30, 38, 45, 51, 56, 60] +
    [21, 29, 37, 44, 50, 55, 59, 62] +
    [28, 36, 43, 49, 54, 58, 61, 63]

  lemma CellsBefore8()
    ensures CellsBefore(8, 0) == 0 && CellsBefore(8, 1) == 1 && CellsBefore(8, 2) == 3 && CellsBefore(8, 3) == 6
    ensures CellsBefore(8, 4) == 10 && CellsBefore(8, 5) == 15 && CellsBefore(8, 6) == 21 && CellsBefore(8, 7) == 28
    ensures CellsBefore(8, 8) == 36 && CellsBefore(8, 9) == 43 && CellsBefore(8, 10) == 49
    ensures CellsBefore(8, 11) == 54 && CellsBefore(8, 12) == 58 && CellsBefore(8, 13) == 61
    ensures CellsBefore(8, 14) == 63
  {
    forall d | 0 <= d < 15
      ensures 2 * CellsBefore(8, d) == if d <= 8 then d * (d + 1) else 128 - (15 - d) * (16 - d)
    {
      CellsBeforeTwice(8, d);
    }
  }

  lemma IndexIn8(x: nat, y: nat)
    requires x < 8 && y < 8
    ensures IndexOf(8, Cell(x, y)) == POSITIONS[8 * y + x]
  {
    hide CellsBefore;
    CellsBefore8();
    EightCases(x);
    EightCases(y);
  }

  lemma EightCases(x: nat)
    requires x < 8
    ensures x == 0 || x == 1 || x == 2 || x == 3 || x == 4 || x == 5 || x == 6 || x == 7
  {
  }

  lemma PositionIn8(p: nat)
    requires p < 64
    ensures PositionOf(8, p) == POSITIONS[p]
  {
    hide IndexOf;
    IndexIn8(p % 8, p / 8);
  }

  lemma IntraUpper(p: nat)
    requires p < 32
    ensures POSITIONS[p] < 64 && DEFAULT_INTRA_8X8[p] == TABLE_INTRA[POSITIONS[p]]
  {
    hide TABLE_INTER, DEFAULT_INTER_8X8;
    EightCases(p % 8);
    EightCases(p / 8);
  }

  lemma IntraLower(p: nat)
    requires 32 <= p < 64
    ensures POSITIONS[p] < 64 && DEFAULT_INTRA_8X8[p] == TABLE_INTRA[POSITIONS[p]]
  {
    hide TABLE_INTER, DEFAULT_INTER_8X8;
    EightCases(p % 8);
    EightCases(p / 8);
  }

  lemma InterUpper(p: nat)
    requires p < 32
    ensures POSITIONS[p] < 64 && DEFAULT_INTER_8X8[p] == TABLE_INTER[POSITIONS[p]]
  {
    hide TABLE_INTRA, DEFAULT_INTRA_8X8;
    EightCases(p % 8);
    EightCases(p / 8);
  }

  lemma InterLower(p: nat)
    requires 32 <= p < 64
    ensures POSITIONS[p] < 64 && DEFAULT_INTER_8X8[p] == TABLE_INTER[POSITIONS[p]]
  {
    hide TABLE_INTRA, DEFAULT_INTRA_8X8;
    EightCases(p % 8);
    EightCases(p / 8);
  }

  lemma TablesByPosition(p: nat)
    requires p < 64
    ensures POSITIONS[p] < 64 && DEFAULT_INTRA_8X8[p] == TABLE_INTRA[POSITIONS[p]]
    ensures DEFAULT_INTER_8X8[p] == TABLE_INTER[POSITIONS[p]]
  {
    hide POSITIONS, TABLE_INTRA, TABLE_INTER, DEFAULT_INTRA_8X8, DEFAULT_INTER_8X8;
    if p < 32 {
      IntraUpper(p);
      InterUpper(p);
    } else {
      IntraLower(p);
      InterLower(p);
    }
  }

  /**
   * Every default: flat 16 at 4x4; in scan order Table 7-6 at 8x8, 16x16 and
   * 32x32, the first half of each size being intra; DC 16.
   */
  lemma DefaultsAreTables(slot: nat, i: nat)
    requires slot < 20 && i < 64
    ensures var m := DefaultMatrix(slot);
      && m.dc == 16
      && (slot < 6 ==> |m.coefs| == 16 && forall k :: 0 <= k < 16 ==> m.coefs[k] == 16)
      && (slot >= 6 ==> |m.coefs| == 64)
      && (6 <= slot < 9 || 12 <= slot < 15 || slot == 18 ==> m.coefs[ScanAt(8, i)] == TABLE_INTRA[i])
      && (9 <= slot < 12 || 15 <= slot < 18 || slot == 19 ==> m.coefs[ScanAt(8, i)] == TABLE_INTER[i])
  {
    hide ScanAt, PositionOf, POSITIONS, TABLE_INTRA, TABLE_INTER, DEFAULT_INTRA_8X8, DEFAULT_INTER_8X8;
    PositionOfScan(8, i);
    PositionIn8(ScanAt(8, i));
    TablesByPosition(ScanAt(8, i));
  }

  // ----- Explicit lists

  /** These deltas as coded, in front of `rest`. */
  function DeltaBits(deltas: seq<int>, rest: seq<bool>): seq<bool> {
    if deltas == [] then rest else SeBits(deltas[0]) + DeltaBits(deltas[1..], rest)
  }

  /** The sum of the first n deltas. */
  function Sum(deltas: seq<int>, n: nat): int
    requires n <= |deltas|
  {
    if n == 0 then 0 else Sum(deltas, n - 1) + deltas[n - 1]
  }

  lemma {:induction false} SumHead(deltas: seq<int>, n: nat)
    requires 0 < n <= |deltas|
    ensures Sum(deltas, n) == deltas[0] + Sum(deltas[1..], n - 1)
  {
    if n > 1 {
      SumHead(deltas, n - 1);
    }
  }

  predicate InRange(deltas: seq<int>) {
    forall k :: 0 <= k < |deltas| ==> -128 <= deltas[k] <= 127
  }

  lemma OneDelta(deltas: seq<int>, next: Byte, rest: seq<bool>, acc: seq<Byte>)
    requires deltas != [] && InRange(deltas)
    ensures var value := NextCoef(next, deltas[0]);
      && TakeCoefs(DeltaBits(deltas, rest), next, |deltas|, acc)
        == TakeCoefs(DeltaBits(deltas[1..], rest), value, |deltas| - 1, acc + [value])
      && (value - next - deltas[0]) % 256 == 0
  {
    hide TakeSe, SeBits;
    SeRoundTrip(deltas[0], DeltaBits(deltas[1..], rest));
    CoefStep(DeltaBits(deltas, rest), next, |deltas|, acc);
  }

  /** The k-th coefficient is the start value plus the deltas up to the k-th, modulo 256. */
  lemma {:induction false} CoefsAreSums(deltas: seq<int>, next: Byte, rest: seq<bool>, acc: seq<Byte>)
    returns (values: seq<Byte>)
    requires InRange(deltas)
    ensures TakeCoefs(DeltaBits(deltas, rest), next, |deltas|, acc) == Some((acc + values, rest))
    ensures |values| == |deltas|
    ensures forall k :: 0 <= k < |values| ==> (values[k] - next - Sum(deltas, k + 1)) % 256 == 0
    decreases deltas
  {
    hide TakeCoefs, DeltaBits, NextCoef, Sum;
    if deltas == [] {
      values := [];
      NoDeltas(next, rest, acc);
    } else {
      var value := NextCoef(next, deltas[0]);
      OneDelta(deltas, next, rest, acc);
      var later := CoefsAreSums(deltas[1..], value, rest, acc + [value]);
      values := [value] + later;
      assert acc + [value] + later == acc + values;
      forall k | 0 <= k < |values|
        ensures (values[k] - next - Sum(deltas, k + 1)) % 256 == 0
      {
        SumHead(deltas, k + 1);
        if k == 0 {
          NoSum(deltas[1..]);
        } else {
          assert (later[k - 1] - value - Sum(deltas[1..], k)) % 256 == 0;
        }
      }
    }
  }

  lemma NoSum(deltas: seq<int>)
    ensures Sum(deltas, 0) == 0
  {
  }

  lemma NoDeltas(next: Byte, rest: seq<bool>, acc: seq<Byte>)
    ensures TakeCoefs(DeltaBits([], rest), next, 0, acc) == Some((acc + [], rest))
  {
    assert acc + [] == acc;
  }

  /**
   * An explicit list, from its coded deltas: the coefficients in scan order are
   * running sums modulo 256 that start from 8, or at 16x16 and 32x32 from the
   * DC coded before them.
   */
  lemma ExplicitMeaning(deltas: seq<int>, sizeId: nat, dc: Byte, rest: seq<bool>)
    requires sizeId < 4 && |deltas| == (if sizeId == 0 then 16 else 64) && InRange(deltas) && dc >= 1
    ensures var side, first := if sizeId == 0 then 4 else 8, if sizeId <= 1 then 8 else dc;
      var bits := DeltaBits(deltas, rest);
      var r := TakeExplicit(if sizeId <= 1 then bits else SeBits(dc - 8) + bits, sizeId);
      && r.Some? && r.value.1 == rest
      && r.value.0.dc == (if sizeId <= 1 then 16 else dc)
      && |r.value.0.coefs| == side * side == |deltas|
      && forall k :: 0 <= k < |deltas| ==>
          (r.value.0.coefs[ScanAt(side, k)] - first - Sum(deltas, k + 1)) % 256 == 0
  {
    hide TakeCoefs, DeltaBits, Sum, TakeSe, SeBits, ScanAt, PositionOf, Placed, TakeExplicit;
    var first: Byte := if sizeId <= 1 then 8 else dc;
    var bits := DeltaBits(deltas, rest);
    var values := CoefsAreSums(deltas, first, rest, []);
    assert [] + values == values;
    if sizeId > 1 {
      SeRoundTrip(dc - 8, bits);
    }
    ExplicitOf(if sizeId <= 1 then bits else SeBits(dc - 8) + bits, sizeId, first, bits);
    forall k | 0 <= k < |deltas|
      ensures Placed(Side(sizeId), values)[ScanAt(Side(sizeId), k)] == values[k]
    {
      PositionOfScan(Side(sizeId), k);
    }
  }

  lemma {:induction false} DeltasFound(bs: seq<bool>, next: Byte, n: nat, acc: seq<Byte>) returns (deltas: seq<int>)
    requires TakeCoefs(bs, next, n, acc).Some?
    ensures |deltas| == n && InRange(deltas) && bs == DeltaBits(deltas, TakeCoefs(bs, next, n, acc).value.1)
    decreases n
  {
    hide TakeSe, SeBits, NextCoef;
    deltas := [];
    if n > 0 {
      var (delta, tail) := TakeSe(bs).value;
      SeExact(bs, delta, tail);
      var value := NextCoef(next, delta);
      var later := DeltasFound(tail, value, n - 1, acc + [value]);
      deltas := [delta] + later;
      assert deltas[1..] == later;
    }
  }

  /** The bits of an explicit list: its DC where one is coded, 16 or 64 deltas in range. */
  ghost predicate IsExplicit(bs: seq<bool>, sizeId: nat, dc: Byte, deltas: seq<int>, rest: seq<bool>) {
    && |deltas| == (if sizeId == 0 then 16 else 64) && InRange(deltas) && dc >= 1
    && bs == if sizeId <= 1 then DeltaBits(deltas, rest) else SeBits(dc - 8) + DeltaBits(deltas, rest)
  }

  /** An explicit list is accepted exactly there. */
  lemma ExplicitExact(bs: seq<bool>, sizeId: nat, rest: seq<bool>)
    requires sizeId < 4
    ensures TakeExplicit(bs, sizeId).Some? && TakeExplicit(bs, sizeId).value.1 == rest
      <==> exists dc, deltas :: IsExplicit(bs, sizeId, dc, deltas, rest)
  {
    hide TakeCoefs, DeltaBits, TakeSe, SeBits, Placed, InRange;
    if TakeExplicit(bs, sizeId).Some? && TakeExplicit(bs, sizeId).value.1 == rest {
      var dc: Byte, coefBits := 8, bs;
      if sizeId > 1 {
        var (dcMinus8, tail) := TakeSe(bs).value;
        SeExact(bs, dcMinus8, tail);
        dc, coefBits := dcMinus8 + 8, tail;
      }
      var deltas := DeltasFound(coefBits, dc, CoefNum(sizeId), []);
      assert IsExplicit(bs, sizeId, dc, deltas, rest);
    }
    if dc: Byte, deltas: seq<int> :| IsExplicit(bs, sizeId, dc, deltas, rest) {
      ExplicitMeaning(deltas, sizeId, dc, rest);
    }
  }

  // ----- Defaults and copies

  /**
   * Which earlier list a delta copies: that many before, inside the slot's
   * size; the last list has one before it, reached also by the two deltas
   * whose threefold wraps around in 32 bits.
   */
  function CopyOf(slot: nat, delta: nat): Option<nat> {
    if slot < 18 && 1 <= delta <= slot % 6 then Some(slot - delta)
    else if slot == 19 && (delta == 1 || delta == 0x5555_5556 || delta == 0xAAAA_AAAB) then Some(18)
    else None
  }

  lemma CopyIs(slot: nat, delta: nat)
    requires slot < 20 && 1 <= delta <= 0xFFFF_FFFE
    ensures CopyOf(slot, delta).Some? <==> CopyDistance(SizeOf(slot), delta) <= MatrixIdOf(slot)
    ensures CopyOf(slot, delta).Some? ==> CopySource(slot, delta) == CopyOf(slot, delta).value
  {
    hide CopyDistance, MatrixIdOf;
    if slot < 18 {
      NearDistance(slot, delta);
    } else {
      FarDistance(slot, delta);
    }
  }

  lemma NearDistance(slot: nat, delta: nat)
    requires slot < 18 && delta <= 0xFFFF_FFFE
    ensures MatrixIdOf(slot) == slot % 6 && CopyDistance(SizeOf(slot), delta) == delta
  {
    assert RowOf(slot) * 1 == RowOf(slot) && delta * 1 == delta;
  }

  /** At 32x32 the threefold distance is 1, 2 or 3 for just these values, and 0 for none. */
  lemma FarDistance(slot: nat, delta: nat)
    requires 18 <= slot < 20 && 1 <= delta <= 0xFFFF_FFFE
    ensures MatrixIdOf(slot) == 3 * (slot - 18) && CopyDistance(SizeOf(slot), delta) == delta * 3 % 0x1_0000_0000
    ensures CopyDistance(SizeOf(slot), delta) > 0
    ensures CopyDistance(SizeOf(slot), delta) <= 3 <==> delta == 1 || delta == 0x5555_5556 || delta == 0xAAAA_AAAB
  {
  }

  /** A list is read as a default or a copy exactly where its flag is clear and the delta names one. */
  lemma PredictedExact(bs: seq<bool>, slot: nat, lists: Lists, m: Matrix, rest: seq<bool>)
    requires slot < 20 && |lists| == 20 && bs != [] && !bs[0]
    ensures TakeMatrix(bs, slot, lists) == Some((m, rest)) <==>
      || (bs == [false] + (UeBits(0) + rest) && m == DefaultMatrix(slot))
      || (exists delta :: IsCopy(bs, slot, lists, m, rest, delta))
  {
    hide TakeExplicit, TakeUe, UeBits, DefaultMatrix, CopyDistance, CopyOf;
    if TakeMatrix(bs, slot, lists) == Some((m, rest)) {
      var (delta, tail) := TakeUe(bs[1..]).value;
      UeExact(bs[1..], delta, tail);
      assert bs == [false] + bs[1..];
      if delta > 0 {
        CopyIs(slot, delta);
        assert IsCopy(bs, slot, lists, m, rest, delta);
      }
    }
    if delta :| IsCopy(bs, slot, lists, m, rest, delta) {
      assert bs[1..] == UeBits(delta) + rest;
      UeRoundTrip(delta, rest);
      CopyIs(slot, delta);
    } else if bs == [false] + (UeBits(0) + rest) && m == DefaultMatrix(slot) {
      assert bs[1..] == UeBits(0) + rest;
      UeRoundTrip(0, rest);
    }
  }

  ghost predicate IsCopy(bs: seq<bool>, slot: nat, lists: Lists, m: Matrix, rest: seq<bool>, delta: nat)
    requires slot < 20 && |lists| == 20
  {
    && 1 <= delta <= 0xFFFF_FFFE && bs == [false] + (UeBits(delta) + rest)
    && CopyOf(slot, delta).Some? && m == lists[CopyOf(slot, delta).value]
  }

  // ----- Where each list is

  /** Coding order: six lists of each size up to 16x16, two at 32x32, DCs only for the last two sizes. */
  lemma ListPlaces(out: ScalingListData, row: nat)
    requires out.Valid() && row < 6
    ensures forall k :: 0 <= k < 16 ==> out.MatrixAt(row).coefs[k] == out.list4x4[row, k]
    ensures forall k :: 0 <= k < 64 ==> out.MatrixAt(6 + row).coefs[k] == out.list8x8[row, k]
    ensures forall k :: 0 <= k < 64 ==> out.MatrixAt(12 + row).coefs[k] == out.list16x16[row, k]
    ensures row < 2 ==> forall k :: 0 <= k < 64 ==> out.MatrixAt(18 + row).coefs[k] == out.list32x32[row, k]
    ensures out.MatrixAt(row).dc == out.MatrixAt(6 + row).dc == 16 && out.MatrixAt(12 + row).dc == out.dc16x16[row]
    ensures row < 2 ==> out.MatrixAt(18 + row).dc == out.dc32x32[row]
  {
  }
}
