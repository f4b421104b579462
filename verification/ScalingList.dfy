/**
 * Scaling lists (section 7.3.4 of ITU-T H.265): the parser and the in-place
 * list operations of parse/h265/scaling_list.cc, and their meaning.
 */
module ScalingLists {
  import opened Wrappers
  import opened Bits
  import opened BitReaders
  import opened DiagScans

  /** One list in raster order and its DC, which is 16 where none is stored. */
  datatype Matrix = Matrix(coefs: seq<Byte>, dc: Byte)

  /** The 20 lists of a scaling_list_data, in coding order. */
  const SLOTS: nat := 20

  type Lists = seq<Matrix>

  function SizeOf(slot: nat): (sizeId: nat)
    requires slot < SLOTS
    ensures sizeId < 4
  {
    if slot < 6 then 0 else if slot < 12 then 1 else if slot < 18 then 2 else 3
  }

  /** The row among the lists of the slot's size. */
  function RowOf(slot: nat): (row: nat)
    requires slot < SLOTS
    ensures row < RowsOf(SizeOf(slot))
  {
    slot - 6 * SizeOf(slot)
  }

  function RowsOf(sizeId: nat): nat {
    if sizeId == 3 then 2 else 6
  }

  /** The 32x32 size has only matrixId 0 and 3. */
  function Stride(sizeId: nat): nat {
    if sizeId == 3 then 3 else 1
  }

  function SlotOf(sizeId: nat, matrixId: nat): (slot: nat)
    requires sizeId < 4 && matrixId < 6
    ensures slot < SLOTS && SizeOf(slot) == sizeId
  {
    6 * sizeId + (if sizeId == 3 then matrixId / 3 else matrixId)
  }

  function MatrixIdOf(slot: nat): nat
    requires slot < SLOTS
  {
    RowOf(slot) * Stride(SizeOf(slot))
  }

  /** Side of the coded grid, and the number of coded coefficients. */
  function Side(sizeId: nat): nat {
    if sizeId == 0 then 4 else 8
  }

  function CoefNum(sizeId: nat): nat {
    if sizeId == 0 then 16 else 64
  }

  const DEFAULT_4X4: seq<Byte> := [16, 16, 16, 16, 16, 16, 16, 16, 16, 16, 16, 16, 16, 16, 16, 16]

  const DEFAULT_INTRA_8X8: seq<Byte> :=
    [16, 16, 16, 16, 17, 18, 21, 24] +
    [16, 16, 16, 16, 17, 19, 22, 25] +
    [16, 16, 17, 18, 20, 22, 25, 29] +
    [16, 16, 18, 21, 24, 27, 31, 36] +
    [17, 17, 20, 24, 30, 35, 41, 47] +
    [18, 19, 22, 27, 35, 44, 54, 65] +
    [21, 22, 25, 31, 41, 54, 70, 88] +
    [24, 25, 29, 36, 47, 65, 88, 115]

  const DEFAULT_INTER_8X8: seq<Byte> :=
    [16, 16, 16, 16, 17, 18, 20, 24] +
    [16, 16, 16, 17, 18, 20, 24, 25] +
    [16, 16, 17, 18, 20, 24, 25, 28] +
    [16, 17, 18, 20, 24, 25, 28, 33] +
    [17, 18, 20, 24, 25, 28, 33, 41] +
    [18, 20, 24, 25, 28, 33, 41, 54] +
    [20, 24, 25, 28, 33, 41, 54, 71] +
    [24, 25, 28, 33, 41, 54, 71, 91]

  /** Tables 7-5 and 7-6. */
  function DefaultCoefs(sizeId: nat, matrixId: nat): (coefs: seq<Byte>)
    ensures |coefs| == CoefNum(sizeId)
  {
    if sizeId == 0 then DEFAULT_4X4 else if matrixId < 3 then DEFAULT_INTRA_8X8 else DEFAULT_INTER_8X8
  }

  function DefaultMatrix(slot: nat): Matrix
    requires slot < SLOTS
  {
    Matrix(DefaultCoefs(SizeOf(slot), MatrixIdOf(slot)), 16)
  }

  function DefaultLists(): (ls: Lists)
    ensures |ls| == SLOTS
    ensures forall k :: 0 <= k < SLOTS ==> ls[k] == DefaultMatrix(k)
  {
    seq(SLOTS, k requires 0 <= k < SLOTS => DefaultMatrix(k))
  }

  // ----- The syntax

  function NextCoef(next: Byte, delta: int): Byte
    requires -128 <= delta <= 127
  {
    (next + delta + 256) % 256
  }

  /** `n` delta-coded coefficients after `acc`, the last value being `next`. */
  function TakeCoefs(bs: seq<bool>, next: Byte, n: nat, acc: seq<Byte>): (r: Option<(seq<Byte>, seq<bool>)>)
    ensures r.Some? ==> |r.value.0| == |acc| + n
    decreases n
  {
    if n == 0 then Some((acc, bs))
    else
      var (delta, rest) :- TakeSe(bs);
      if delta < -128 || delta > 127 then None
      else
        var value := NextCoef(next, delta);
        TakeCoefs(rest, value, n - 1, acc + [value])
  }

  /** Coefficients in scan order laid out in raster order. */
  function Placed(side: nat, values: seq<Byte>): (coefs: seq<Byte>)
    requires |values| == side * side
    ensures |coefs| == side * side
    ensures forall p :: 0 <= p < |coefs| ==> coefs[p] == values[PositionOf(side, p)]
  {
    seq(side * side, p requires 0 <= p < side * side => values[PositionOf(side, p)])
  }

  function TakeExplicit(bs: seq<bool>, sizeId: nat): Option<(Matrix, seq<bool>)> {
    if sizeId <= 1 then
      var (values, rest) :- TakeCoefs(bs, 8, CoefNum(sizeId), []);
      Some((Matrix(Placed(Side(sizeId), values), 16), rest))
    else
      var (dcMinus8, afterDc) :- TakeSe(bs);
      if dcMinus8 < -7 || dcMinus8 > 247 then None
      else
        var (values, rest) :- TakeCoefs(afterDc, dcMinus8 + 8, CoefNum(sizeId), []);
        Some((Matrix(Placed(Side(sizeId), values), dcMinus8 + 8), rest))
  }

  /** The distance in matrix ids, in the 32 bits it is multiplied in. */
  function CopyDistance(sizeId: nat, delta: nat): nat {
    delta * Stride(sizeId) % 0x1_0000_0000
  }

  /** The slot a copy reads. */
  function CopySource(slot: nat, delta: nat): (source: nat)
    requires slot < SLOTS && CopyDistance(SizeOf(slot), delta) <= MatrixIdOf(slot)
    ensures source < SLOTS && SizeOf(source) == SizeOf(slot)
  {
    SlotOf(SizeOf(slot), MatrixIdOf(slot) - CopyDistance(SizeOf(slot), delta))
  }

  function TakeMatrix(bs: seq<bool>, slot: nat, lists: Lists): Option<(Matrix, seq<bool>)>
    requires slot < SLOTS && |lists| == SLOTS
  {
    var (explicit, afterFlag) :- TakeFlag(bs);
    if explicit then TakeExplicit(afterFlag, SizeOf(slot))
    else
      var (delta, rest) :- TakeUe(afterFlag);
      if delta == 0 then Some((DefaultMatrix(slot), rest))
      else if CopyDistance(SizeOf(slot), delta) > MatrixIdOf(slot) then None
      else Some((lists[CopySource(slot, delta)], rest))
  }

  /** scaling_list_data() from slot `slot` on. */
  function TakeLists(bs: seq<bool>, slot: nat, lists: Lists): (r: Option<(Lists, seq<bool>)>)
    requires slot <= SLOTS && |lists| == SLOTS
    ensures r.Some? ==> |r.value.0| == SLOTS
    decreases SLOTS - slot
  {
    if slot == SLOTS then Some((lists, bs))
    else
      var (matrix, rest) :- TakeMatrix(bs, slot, lists);
      TakeLists(rest, slot + 1, lists[slot := matrix])
  }

  // ----- The lists in place

  /** The first `n` elements of one row. */
  function RowOfGrid(grid: array2<Byte>, row: nat, n: nat): (s: seq<Byte>)
    requires row < grid.Length0 && n <= grid.Length1
    reads grid
    ensures |s| == n && forall k :: 0 <= k < n ==> s[k] == grid[row, k]
  {
    if n == 0 then [] else RowOfGrid(grid, row, n - 1) + [grid[row, n - 1]]
  }

  class ScalingListData {
    const list4x4: array2<Byte>
    const list8x8: array2<Byte>
    const list16x16: array2<Byte>
    const list32x32: array2<Byte>
    const dc16x16: array<Byte>
    const dc32x32: array<Byte>

    ghost predicate Valid() {
      && list4x4.Length0 == 6 && list4x4.Length1 == 16
      && list8x8.Length0 == 6 && list8x8.Length1 == 64
      && list16x16.Length0 == 6 && list16x16.Length1 == 64
      && list32x32.Length0 == 2 && list32x32.Length1 == 64
      && dc16x16.Length == 6 && dc32x32.Length == 2
      && list8x8 != list16x16
    }

    ghost function Parts(): set<object> {
      {list4x4, list8x8, list16x16, list32x32, dc16x16, dc32x32}
    }

    /** The array that holds the lists of one size. */
    function Grid(sizeId: nat): (grid: array2<Byte>)
      ensures grid in Parts()
      ensures Valid() && sizeId < 4 ==> grid.Length0 == RowsOf(sizeId) && grid.Length1 == CoefNum(sizeId)
    {
      if sizeId == 0 then list4x4 else if sizeId == 1 then list8x8 else if sizeId == 2 then list16x16 else list32x32
    }

    function GetDc(sizeId: nat, row: nat): Byte
      requires Valid() && row < RowsOf(sizeId)
      reads dc16x16, dc32x32
    {
      if sizeId == 2 then dc16x16[row] else if sizeId == 3 then dc32x32[row] else 16
    }

    function MatrixAt(slot: nat): (m: Matrix)
      requires Valid() && slot < SLOTS
      reads Parts()
      ensures |m.coefs| == CoefNum(SizeOf(slot))
    {
      var sizeId, row := SizeOf(slot), RowOf(slot);
      Matrix(RowOfGrid(Grid(sizeId), row, CoefNum(sizeId)), GetDc(sizeId, row))
    }

    function Value(): (ls: Lists)
      requires Valid()
      reads Parts()
      ensures |ls| == SLOTS
      ensures forall k :: 0 <= k < SLOTS ==> ls[k] == MatrixAt(k)
    {
      seq(SLOTS, k requires 0 <= k < SLOTS reads Parts() => MatrixAt(k))
    }

    constructor ()
      ensures Valid() && fresh(Parts())
    {
      list4x4 := new Byte[6, 16]((i, j) => 0);
      list8x8 := new Byte[6, 64]((i, j) => 0);
      list16x16 := new Byte[6, 64]((i, j) => 0);
      list32x32 := new Byte[2, 64]((i, j) => 0);
      dc16x16 := new Byte[6](i => 0);
      dc32x32 := new Byte[2](i => 0);
    }

    method SetDc(sizeId: nat, row: nat, value: Byte)
      requires Valid() && sizeId < 4 && row < RowsOf(sizeId)
      modifies dc16x16, dc32x32
      ensures sizeId == 2 ==> dc16x16[..] == old(dc16x16[..])[row := value] && dc32x32[..] == old(dc32x32[..])
      ensures sizeId == 3 ==> dc32x32[..] == old(dc32x32[..])[row := value] && dc16x16[..] == old(dc16x16[..])
      ensures sizeId < 2 ==> dc16x16[..] == old(dc16x16[..]) && dc32x32[..] == old(dc32x32[..])
    {
      if sizeId == 2 {
        dc16x16[row] := value;
      } else if sizeId == 3 {
        dc32x32[row] := value;
      }
    }

    /** Copies `coefs` over one row and sets its DC: nothing else changes. */
    method Fill(slot: nat, coefs: seq<Byte>, dc: Byte)
      requires Valid() && slot < SLOTS && |coefs| == CoefNum(SizeOf(slot))
      modifies Parts()
      ensures MatrixAt(slot) == Matrix(coefs, if SizeOf(slot) < 2 then 16 else dc)
      ensures forall k :: 0 <= k < SLOTS && k != slot ==> MatrixAt(k) == old(MatrixAt(k))
    {
      var grid, row := Grid(SizeOf(slot)), RowOf(slot);
      forall k | 0 <= k < CoefNum(SizeOf(slot)) {
        grid[row, k] := coefs[k];
      }
      SetDc(SizeOf(slot), row, dc);
      forall k | 0 <= k < SLOTS && k != slot
        ensures MatrixAt(k) == old(MatrixAt(k))
      {
        var other, at := Grid(SizeOf(k)), RowOf(k);
        assert forall j :: 0 <= j < CoefNum(SizeOf(k)) ==> other[at, j] == old(other[at, j]);
      }
    }
  }

  method FillDefaultList(out: ScalingListData, slot: nat)
    requires out.Valid() && slot < SLOTS
    modifies out.Parts()
    ensures out.Value() == old(out.Value())[slot := DefaultMatrix(slot)]
  {
    out.Fill(slot, DefaultCoefs(SizeOf(slot), MatrixIdOf(slot)), 16);
  }

  method CopyList(out: ScalingListData, slot: nat, source: nat)
    requires out.Valid() && slot < SLOTS && source < SLOTS && SizeOf(slot) == SizeOf(source)
    modifies out.Parts()
    ensures out.Value() == old(out.Value())[slot := old(out.Value())[source]]
  {
    var sizeId := SizeOf(source);
    var coefs := RowOfGrid(out.Grid(sizeId), RowOf(source), CoefNum(sizeId));
    var dc := out.GetDc(sizeId, RowOf(source));
    assert out.MatrixAt(source) == Matrix(coefs, dc);
    out.Fill(slot, coefs, dc);
  }

  /** Every slot gets its default, in the order of the two loops. */
  method SetDefaultScalingList(out: ScalingListData)
    requires out.Valid()
    modifies out.Parts()
    ensures out.Value() == DefaultLists()
  {
    for sizeId := 0 to 4
      invariant forall k :: 0 <= k < 6 * sizeId && k < SLOTS ==> out.Value()[k] == DefaultMatrix(k)
    {
      var matrixId: nat := 0;
      while matrixId < 6
        invariant matrixId <= 6 && matrixId % Stride(sizeId) == 0
        invariant forall k :: 0 <= k < 6 * sizeId + matrixId / Stride(sizeId) ==> out.Value()[k] == DefaultMatrix(k)
        decreases 6 - matrixId
      {
        FillDefaultList(out, SlotOf(sizeId, matrixId));
        matrixId := matrixId + Stride(sizeId);
      }
    }
  }

  // ----- The parser

  ghost predicate ScanReady(scan: array<nat>, side: nat)
    reads scan
  {
    scan.Length == side * side && forall i :: 0 <= i < side * side ==> scan[i] == ScanAt(side, i)
  }

  /** A raster position not written yet: the scan visits none twice. */
  lemma ScanIsNew(side: nat, i: nat)
    requires i < side * side
    ensures forall j :: 0 <= j < i ==> ScanAt(side, j) != ScanAt(side, i)
  {
    hide ScanAt, PositionOf;
    PositionOfScan(side, i);
    forall j | 0 <= j < i
      ensures PositionOf(side, ScanAt(side, j)) == j
    {
      PositionOfScan(side, j);
    }
  }

  lemma CoefStep(bs: seq<bool>, next: Byte, n: nat, acc: seq<Byte>)
    requires n > 0
    ensures var delta := TakeSe(bs);
      TakeCoefs(bs, next, n, acc)
        == if delta.None? || delta.value.0 < -128 || delta.value.0 > 127 then None
           else TakeCoefs(delta.value.1, NextCoef(next, delta.value.0), n - 1, acc + [NextCoef(next, delta.value.0)])
  {
    hide TakeSe;
  }

  lemma CoefsDone(bs: seq<bool>, next: Byte, acc: seq<Byte>)
    ensures TakeCoefs(bs, next, 0, acc) == Some((acc, bs))
  {
  }

  /** Reads the delta-coded coefficients of one row and lays them out. */
  method ReadCoefs(br: BitReader, grid: array2<Byte>, row: nat, side: nat, n: nat, scan: array<nat>, first: Byte)
    returns (ok: bool)
    requires br.Valid() && row < grid.Length0 && grid.Length1 == n == side * side && ScanReady(scan, side)
    modifies br, grid
    ensures br.Valid()
    ensures ok <==> TakeCoefs(old(br.Rest()), first, n, []).Some?
    ensures ok ==>
      var values := TakeCoefs(old(br.Rest()), first, n, []).value.0;
      && TakeCoefs(old(br.Rest()), first, n, []).value.1 == br.Rest()
      && RowOfGrid(grid, row, n) == Placed(side, values)
    ensures forall r, k :: 0 <= r < grid.Length0 && r != row && 0 <= k < grid.Length1 ==> grid[r, k] == old(grid[r, k])
  {
    hide TakeSe, TakeCoefs, ScanAt, PositionOf, NextCoef;
    ghost var start := br.Rest();
    ghost var acc: seq<Byte> := [];
    var next := first;
    for i := 0 to n
      invariant br.Valid() && |acc| == i
      invariant TakeCoefs(start, first, n, []) == TakeCoefs(br.Rest(), next, n - i, acc)
      invariant forall j :: 0 <= j < i ==> grid[row, ScanAt(side, j)] == acc[j]
      invariant forall r, k :: 0 <= r < grid.Length0 && r != row && 0 <= k < grid.Length1 ==>
        grid[r, k] == old(grid[r, k])
    {
      CoefStep(br.Rest(), next, n - i, acc);
      ScanIsNew(side, i);
      var delta := br.ReadSe();
      if delta == None || delta.value < -128 || delta.value > 127 {
        return false;
      }
      next := NextCoef(next, delta.value);
      grid[row, scan[i]] := next;
      acc := acc + [next];
    }
    CoefsDone(br.Rest(), next, acc);
    forall p | 0 <= p < n
      ensures grid[row, p] == Placed(side, acc)[p]
    {
      assert ScanAt(side, PositionOf(side, p)) == p;
    }
    return true;
  }

  method MakeScan(side: nat, ghost others: set<object>) returns (scan: array<nat>)
    requires 1 <= side <= 16
    ensures fresh(scan) && scan !in others && ScanReady(scan, side)
  {
    scan := new nat[side * side];
    MakeDiagScan(side, scan);
    forall i | 0 <= i < side * side
      ensures scan[i] == ScanAt(side, i)
    {
      PositionsFit(side, i);
    }
  }

  /** The DC of a 16x16 or 32x32 list, from which its deltas start; 8 below those sizes. */
  method ReadDc(br: BitReader, out: ScalingListData, slot: nat) returns (next: Option<Byte>)
    requires br.Valid() && out.Valid() && slot < SLOTS
    modifies br, out.dc16x16, out.dc32x32
    ensures br.Valid()
    ensures SizeOf(slot) <= 1 ==> next == Some(8) && br.Rest() == old(br.Rest())
    ensures SizeOf(slot) > 1 ==>
      var dc := TakeSe(old(br.Rest()));
      && (next.Some? <==> dc.Some? && -7 <= dc.value.0 <= 247)
      && (next.Some? ==> next.value == dc.value.0 + 8 && br.Rest() == dc.value.1)
    ensures next.Some? ==> out.MatrixAt(slot).dc == if SizeOf(slot) <= 1 then 16 else next.value
    ensures forall k :: 0 <= k < SLOTS && k != slot ==> out.MatrixAt(k) == old(out.MatrixAt(k))
  {
    hide TakeSe;
    if SizeOf(slot) <= 1 {
      return Some(8);
    }
    var dcMinus8 := br.ReadSe();
    if dcMinus8 == None || dcMinus8.value < -7 || dcMinus8.value > 247 {
      return None;
    }
    out.SetDc(SizeOf(slot), RowOf(slot), dcMinus8.value + 8);
    return Some(dcMinus8.value + 8);
  }

  lemma SideSquared(sizeId: nat)
    ensures Side(sizeId) * Side(sizeId) == CoefNum(sizeId)
  {
  }

  lemma NoDc(bs: seq<bool>, sizeId: nat)
    requires sizeId > 1
    requires var dc := TakeSe(bs); dc.None? || dc.value.0 < -7 || dc.value.0 > 247
    ensures TakeExplicit(bs, sizeId) == None
  {
    hide TakeCoefs, TakeSe;
  }

  /** The explicit form once its DC is read. */
  lemma ExplicitOf(bs: seq<bool>, sizeId: nat, next: Byte, coefBits: seq<bool>)
    requires sizeId <= 1 ==> next == 8 && coefBits == bs
    requires sizeId > 1 ==> TakeSe(bs) == Some((next - 8, coefBits)) && next >= 1
    ensures var values, r := TakeCoefs(coefBits, next, CoefNum(sizeId), []), TakeExplicit(bs, sizeId);
      && (r.Some? <==> values.Some?)
      && Side(sizeId) * Side(sizeId) == CoefNum(sizeId)
      && (r.Some? ==>
          r.value == (Matrix(Placed(Side(sizeId), values.value.0), if sizeId <= 1 then 16 else next), values.value.1))
  {
    hide TakeCoefs, TakeSe, Placed;
    SideSquared(sizeId);
  }

  /** The coefficients of one list, in place: its DC and every other list stay. */
  method ReadList(br: BitReader, out: ScalingListData, slot: nat, scan: array<nat>, first: Byte) returns (ok: bool)
    requires br.Valid() && out.Valid() && slot < SLOTS
    requires ScanReady(scan, Side(SizeOf(slot))) && scan !in out.Parts()
    modifies br, out.Grid(SizeOf(slot))
    ensures br.Valid()
    ensures var taken := TakeCoefs(old(br.Rest()), first, CoefNum(SizeOf(slot)), []);
      && (ok <==> taken.Some?)
      && Side(SizeOf(slot)) * Side(SizeOf(slot)) == CoefNum(SizeOf(slot))
      && (ok ==>
          && out.MatrixAt(slot).coefs == Placed(Side(SizeOf(slot)), taken.value.0)
          && br.Rest() == taken.value.1)
    ensures out.MatrixAt(slot).dc == old(out.MatrixAt(slot).dc)
    ensures forall k :: 0 <= k < SLOTS && k != slot ==> out.MatrixAt(k) == old(out.MatrixAt(k))
  {
    hide TakeCoefs, Placed, ScanReady;
    var sizeId := SizeOf(slot);
    ok := ReadCoefs(br, out.Grid(sizeId), RowOf(slot), Side(sizeId), CoefNum(sizeId), scan, first);
    forall k | 0 <= k < SLOTS && k != slot
      ensures out.MatrixAt(k) == old(out.MatrixAt(k))
    {
      var other, at := out.Grid(SizeOf(k)), RowOf(k);
      assert forall j :: 0 <= j < CoefNum(SizeOf(k)) ==> other[at, j] == old(other[at, j]);
    }
  }

  /** An explicitly coded list. */
  method ReadExplicit(br: BitReader, out: ScalingListData, slot: nat, scan: array<nat>) returns (ok: bool)
    requires br.Valid() && out.Valid() && slot < SLOTS
    requires ScanReady(scan, Side(SizeOf(slot))) && scan !in out.Parts()
    modifies br, out.Parts()
    ensures br.Valid()
    ensures ok <==> TakeExplicit(old(br.Rest()), SizeOf(slot)).Some?
    ensures ok ==> TakeExplicit(old(br.Rest()), SizeOf(slot)) == Some((out.MatrixAt(slot), br.Rest()))
    ensures forall k :: 0 <= k < SLOTS && k != slot ==> out.MatrixAt(k) == old(out.MatrixAt(k))
  {
    hide TakeCoefs, Placed, TakeSe, ScanReady, TakeExplicit;
    var next := ReadDc(br, out, slot);
    if next == None {
      NoDc(old(br.Rest()), SizeOf(slot));
      return false;
    }
    ghost var coefBits := br.Rest();
    ok := ReadList(br, out, slot, scan, next.value);
    ExplicitOf(old(br.Rest()), SizeOf(slot), next.value, coefBits);
  }

  /** One list: default, copied, or explicit. */
  method ReadMatrix(br: BitReader, out: ScalingListData, slot: nat, scan: array<nat>) returns (ok: bool)
    requires br.Valid() && out.Valid() && slot < SLOTS
    requires ScanReady(scan, Side(SizeOf(slot))) && scan !in out.Parts()
    modifies br, out.Parts()
    ensures br.Valid()
    ensures ok <==> TakeMatrix(old(br.Rest()), slot, old(out.Value())).Some?
    ensures ok ==>
      var (matrix, rest) := TakeMatrix(old(br.Rest()), slot, old(out.Value())).value;
      out.Value() == old(out.Value())[slot := matrix] && br.Rest() == rest
  {
    hide TakeExplicit, TakeUe, ScanReady, DefaultMatrix;
    var predMode := br.ReadFlag();
    if predMode == None {
      return false;
    }
    if predMode.value {
      ok := ReadExplicit(br, out, slot, scan);
      return;
    }
    var delta := br.ReadUe();
    if delta == None {
      return false;
    }
    if delta.value == 0 {
      FillDefaultList(out, slot);
    } else {
      if CopyDistance(SizeOf(slot), delta.value) > MatrixIdOf(slot) {
        return false;
      }
      CopyList(out, slot, CopySource(slot, delta.value));
    }
    return true;
  }

  lemma ListsStep(bs: seq<bool>, slot: nat, lists: Lists)
    requires slot < SLOTS && |lists| == SLOTS
    ensures var m := TakeMatrix(bs, slot, lists);
      TakeLists(bs, slot, lists)
        == if m.None? then None else TakeLists(m.value.1, slot + 1, lists[slot := m.value.0])
  {
    hide TakeMatrix;
  }

  lemma ListsDone(bs: seq<bool>, lists: Lists)
    requires |lists| == SLOTS
    ensures TakeLists(bs, SLOTS, lists) == Some((lists, bs))
  {
  }

  /** The lists of one size. */
  method ReadSize(br: BitReader, out: ScalingListData, sizeId: nat, scan: array<nat>) returns (ok: bool)
    requires br.Valid() && out.Valid() && sizeId < 4
    requires ScanReady(scan, Side(sizeId)) && scan !in out.Parts()
    modifies br, out.Parts()
    ensures br.Valid()
    ensures ok ==>
      TakeLists(old(br.Rest()), 6 * sizeId, old(out.Value()))
        == TakeLists(br.Rest(), if sizeId < 3 then 6 * sizeId + 6 else SLOTS, out.Value())
    ensures !ok ==> TakeLists(old(br.Rest()), 6 * sizeId, old(out.Value())) == None
  {
    hide TakeMatrix, ScanReady, TakeLists;
    ghost var start, before := br.Rest(), out.Value();
    var matrixId: nat := 0;
    while matrixId < 6
      invariant matrixId <= 6 && matrixId % Stride(sizeId) == 0
      invariant br.Valid() && ScanReady(scan, Side(sizeId))
      invariant TakeLists(start, 6 * sizeId, before)
        == TakeLists(br.Rest(), 6 * sizeId + matrixId / Stride(sizeId), out.Value())
      decreases 6 - matrixId
    {
      ListsStep(br.Rest(), SlotOf(sizeId, matrixId), out.Value());
      ok := ReadMatrix(br, out, SlotOf(sizeId, matrixId), scan);
      if !ok {
        return;
      }
      matrixId := matrixId + Stride(sizeId);
    }
    return true;
  }

  /** The loop over the sizes: one scan for 4x4 lists, one for all others. */
  method ReadSizes(br: BitReader, out: ScalingListData, scan4x4: array<nat>, scan8x8: array<nat>) returns (ok: bool)
    requires br.Valid() && out.Valid() && ScanReady(scan4x4, 4) && ScanReady(scan8x8, 8)
    requires scan4x4 !in out.Parts() && scan8x8 !in out.Parts()
    modifies br, out.Parts()
    ensures br.Valid()
    ensures ok <==> TakeLists(old(br.Rest()), 0, old(out.Value())).Some?
    ensures ok ==> TakeLists(old(br.Rest()), 0, old(out.Value())) == Some((out.Value(), br.Rest()))
  {
    hide TakeMatrix, ScanReady, TakeLists, ScalingListData.Value, ScalingListData.Parts, ScalingListData.Valid,
         BitReader.Rest;
    ghost var start, before := br.Rest(), out.Value();
    for sizeId := 0 to 4
      invariant br.Valid() && ScanReady(scan4x4, 4) && ScanReady(scan8x8, 8)
      invariant TakeLists(start, 0, before)
        == TakeLists(br.Rest(), if sizeId < 4 then 6 * sizeId else SLOTS, out.Value())
    {
      var scan := if sizeId == 0 then scan4x4 else scan8x8;
      var good := ReadSize(br, out, sizeId, scan);
      if !good {
        return false;
      }
    }
    ListsDone(br.Rest(), out.Value());
    return true;
  }

  method ParseScalingListData(br: BitReader, out: ScalingListData) returns (ok: bool)
    requires br.Valid() && out.Valid()
    modifies br, out.Parts()
    ensures br.Valid()
    ensures ok <==> TakeLists(old(br.Rest()), 0, old(out.Value())).Some?
    ensures ok ==> TakeLists(old(br.Rest()), 0, old(out.Value())) == Some((out.Value(), br.Rest()))
  {
    hide TakeLists, ScanReady, ScalingListData.Value, BitReader.Rest;
    var scan4x4 := MakeScan(4, out.Parts());
    var scan8x8 := MakeScan(8, out.Parts());
    ok := ReadSizes(br, out, scan4x4, scan8x8);
  }
}
