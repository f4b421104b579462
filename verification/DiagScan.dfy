/**
 * The up-right diagonal scan of section 6.5.3 of ITU-T H.265, as
 * MakeDiagScan of parse/h265/scaling_list.cc fills it in, for every block size.
 */
module DiagScans {
  import opened Bits

  /** A position in the block. */
  datatype Cell = Cell(x: nat, y: nat) {
    function Raster(n: nat): nat {
      y * n + x
    }
  }

  /** The first column of diagonal `d` inside an n by n block. */
  function FirstColumn(n: nat, d: nat): nat {
    if d < n then 0 else d - n + 1
  }

  /** How many cells of diagonal `d` the block has. */
  function DiagonalLength(n: nat, d: nat): nat {
    if d < n then d + 1 else if d < 2 * n - 1 then 2 * n - 1 - d else 0
  }

  function CellsBefore(n: nat, d: nat): nat {
    if d == 0 then 0 else CellsBefore(n, d - 1) + DiagonalLength(n, d - 1)
  }

  /** The scan index of a cell: the diagonals before its own, then its place on it. */
  function IndexOf(n: nat, c: Cell): (i: nat)
    requires c.x < n && c.y < n
  {
    CellsBefore(n, c.x + c.y) + (c.x - FirstColumn(n, c.x + c.y))
  }

  /** Twice the count, in closed form. */
  lemma {:induction false} CellsBeforeTwice(n: nat, d: nat)
    requires d < 2 * n
    ensures 2 * CellsBefore(n, d)
      == if d <= n then d * (d + 1) else 2 * n * n - (2 * n - 1 - d) * (2 * n - d)
  {
    if d > 0 {
      CellsBeforeTwice(n, d - 1);
      if d > n {
        var k := 2 * n - 1 - d;
        TriangleStep(k);
        if d == n + 1 {
          FullTriangle(n);
        }
      } else {
        assert (d - 1) * d + 2 * d == d * (d + 1);
      }
    }
  }

  lemma TriangleStep(k: nat)
    ensures (k + 1) * (k + 2) == k * (k + 1) + 2 * (k + 1)
  {
  }

  lemma FullTriangle(n: nat)
    requires n >= 1
    ensures n * (n + 1) == 2 * n * n - (n - 1) * n
  {
  }

  /** The diagonals of the block hold all its cells. */
  lemma AllCells(n: nat)
    requires n >= 1
    ensures CellsBefore(n, 2 * n - 1) == n * n
  {
    CellsBeforeTwice(n, 2 * n - 1);
  }

  lemma {:induction false} CellsBeforeMonotone(n: nat, d: nat, e: nat)
    requires d <= e
    ensures CellsBefore(n, d) <= CellsBefore(n, e)
  {
    if d < e {
      CellsBeforeMonotone(n, d, e - 1);
    }
  }

  /** The diagonal that scan index `i` is on, searched from `d`. */
  function DiagonalOf(n: nat, i: nat, d: nat): (e: nat)
    requires n >= 1 && i < n * n && CellsBefore(n, d) <= i && d < 2 * n - 1
    ensures e < 2 * n - 1 && CellsBefore(n, e) <= i < CellsBefore(n, e + 1)
    decreases 2 * n - 1 - d
  {
    if i < CellsBefore(n, d + 1) then d
    else
      AllCells(n);
      DiagonalOf(n, i, d + 1)
  }

  /** The cell at scan index `i`. */
  function CellAt(n: nat, i: nat): (c: Cell)
    requires i < n * n
    ensures c.x < n && c.y < n && IndexOf(n, c) == i
  {
    PositiveSide(n, i);
    var d := DiagonalOf(n, i, 0);
    var x := FirstColumn(n, d) + (i - CellsBefore(n, d));
    Cell(x, d - x)
  }

  lemma PositiveSide(n: nat, i: nat)
    requires i < n * n
    ensures n >= 1
  {
  }

  lemma OnOneDiagonal(n: nat, i: nat, d: nat, e: nat)
    requires CellsBefore(n, d) <= i < CellsBefore(n, d + 1)
    requires CellsBefore(n, e) <= i < CellsBefore(n, e + 1)
    ensures d == e
  {
    if d < e {
      CellsBeforeMonotone(n, d + 1, e);
    } else if e < d {
      CellsBeforeMonotone(n, e + 1, d);
    }
  }

  lemma IndexInRange(n: nat, c: Cell)
    requires c.x < n && c.y < n
    ensures IndexOf(n, c) < CellsBefore(n, c.x + c.y + 1) <= n * n
  {
    AllCells(n);
    CellsBeforeMonotone(n, c.x + c.y + 1, 2 * n - 1);
  }

  /**
   * The scan is a permutation of the block, for every size: cells and indices
   * below n * n are matched one to one.
   */
  lemma ScanIsPermutation(n: nat, c: Cell)
    requires c.x < n && c.y < n
    ensures IndexOf(n, c) < n * n
    ensures CellAt(n, IndexOf(n, c)) == c
  {
    hide CellsBefore, CellAt;
    IndexInRange(n, c);
    var i, at := IndexOf(n, c), CellAt(n, IndexOf(n, c));
    IndexInRange(n, at);
    OnOneDiagonal(n, i, c.x + c.y, at.x + at.y);
  }

  /** The scan runs along the diagonals x + y, and up-right on each. */
  lemma ScanOrder(n: nat, i: nat, j: nat)
    requires i < n * n && j < n * n
    ensures var a, b := CellAt(n, i), CellAt(n, j);
      i < j <==> a.x + a.y < b.x + b.y || (a.x + a.y == b.x + b.y && a.x < b.x)
  {
    hide CellsBefore, CellAt;
    var a, b := CellAt(n, i), CellAt(n, j);
    IndexInRange(n, a);
    IndexInRange(n, b);
    if a.x + a.y < b.x + b.y {
      CellsBeforeMonotone(n, a.x + a.y + 1, b.x + b.y);
    } else if b.x + b.y < a.x + a.y {
      CellsBeforeMonotone(n, b.x + b.y + 1, a.x + a.y);
    }
  }

  // ----- In raster positions

  lemma RasterInRange(n: nat, c: Cell)
    requires c.x < n && c.y < n
    ensures c.Raster(n) < n * n
    ensures c.Raster(n) / n == c.y && c.Raster(n) % n == c.x
  {
    RowFits(n, c.y);
    DivUnique(c.Raster(n), n, c.y, c.x);
  }

  lemma RowFits(n: nat, y: nat)
    requires y < n
    ensures y * n + n <= n * n
  {
    var k := n - 1 - y;
    assert k * n >= 0;
    assert (y + 1 + k) * n == y * n + n + k * n;
  }

  /** The raster position at scan index `i`. */
  function ScanAt(n: nat, i: nat): (p: nat)
    requires i < n * n
    ensures p < n * n
  {
    RasterInRange(n, CellAt(n, i));
    CellAt(n, i).Raster(n)
  }

  lemma CellOfRaster(n: nat, p: nat)
    requires p < n * n
    ensures n >= 1 && p / n < n && p == (p / n) * n + p % n
  {
    PositiveSide(n, p);
    if p / n >= n {
      MulMonotone(n, n, p / n);
    }
  }

  /** The scan index of raster position `p`. */
  function PositionOf(n: nat, p: nat): (i: nat)
    requires p < n * n
    ensures i < n * n && ScanAt(n, i) == p
  {
    CellOfRaster(n, p);
    var c := Cell(p % n, p / n);
    ScanIsPermutation(n, c);
    IndexOf(n, c)
  }

  lemma PositionOfScan(n: nat, i: nat)
    requires i < n * n
    ensures PositionOf(n, ScanAt(n, i)) == i
  {
    var c := CellAt(n, i);
    RasterInRange(n, c);
    assert Cell(ScanAt(n, i) % n, ScanAt(n, i) / n) == c;
  }

  // ----- The loops

  /** The scan index of the next cell once columns below `x` of diagonal `d` are done. */
  function IndexAfter(n: nat, d: nat, x: nat): (i: nat)
    requires n >= 1
  {
    CellsBefore(n, d)
      + (if x <= FirstColumn(n, d) then 0
         else if x - FirstColumn(n, d) <= DiagonalLength(n, d) then x - FirstColumn(n, d)
         else DiagonalLength(n, d))
  }

  lemma InsideStep(n: nat, d: nat, x: nat)
    requires n >= 1 && x <= d
    ensures x < n && d - x < n ==>
      IndexAfter(n, d, x) < n * n && CellAt(n, IndexAfter(n, d, x)) == Cell(x, d - x)
      && IndexAfter(n, d, x + 1) == IndexAfter(n, d, x) + 1
    ensures !(x < n && d - x < n) ==> IndexAfter(n, d, x + 1) == IndexAfter(n, d, x)
  {
    if x < n && d - x < n {
      ScanIsPermutation(n, Cell(x, d - x));
    }
  }

  lemma DiagonalDone(n: nat, d: nat)
    requires n >= 1 && d < 2 * n - 1
    ensures IndexAfter(n, d, d + 1) == CellsBefore(n, d + 1) == IndexAfter(n, d + 1, 0) <= n * n
    ensures CellsBefore(n, d + 1) < n * n ==> d + 1 < 2 * n - 1
    ensures d + 1 == 2 * n - 1 ==> CellsBefore(n, d + 1) == n * n
  {
    AllCells(n);
    CellsBeforeMonotone(n, d + 1, 2 * n - 1);
  }

  /** MakeDiagScan; each position is cut to the byte it is stored in. */
  method MakeDiagScan(n: nat, pos: array<nat>)
    requires n >= 1 && pos.Length >= n * n
    modifies pos
    ensures forall i :: 0 <= i < n * n ==> pos[i] == ScanAt(n, i) % 256
    ensures forall i :: n * n <= i < pos.Length ==> pos[i] == old(pos[i])
  {
    hide CellsBefore, IndexAfter, CellAt;
    var i: nat, x: nat, y: int, stop := 0, 0, 0, false;
    FirstDiagonal(n);
    while !stop
      invariant !stop ==> x == 0 && 0 <= y < 2 * n - 1 && i == IndexAfter(n, y, 0)
      invariant stop ==> i == n * n
      invariant i <= n * n
      invariant forall k :: 0 <= k < i ==> pos[k] == ScanAt(n, k) % 256
      invariant forall k :: n * n <= k < pos.Length ==> pos[k] == old(pos[k])
      decreases !stop, 2 * n - y
    {
      ghost var d: nat := y;
      while y >= 0
        invariant -1 <= y && x + y == d
        invariant i == IndexAfter(n, d, x) && i <= n * n
        invariant forall k :: 0 <= k < i ==> pos[k] == ScanAt(n, k) % 256
        invariant forall k :: n * n <= k < pos.Length ==> pos[k] == old(pos[k])
      {
        InsideStep(n, d, x);
        if x < n && y < n {
          pos[i] := (y * n + x) % 256;
          i := i + 1;
        }
        y := y - 1;
        x := x + 1;
      }
      DiagonalDone(n, d);
      y := x;
      x := 0;
      if i >= n * n {
        stop := true;
      }
    }
  }

  lemma FirstDiagonal(n: nat)
    requires n >= 1
    ensures IndexAfter(n, 0, 0) == 0
  {
  }

  /** Up to 16 the byte holds every position. */
  lemma PositionsFit(n: nat, i: nat)
    requires n <= 16 && i < n * n
    ensures ScanAt(n, i) % 256 == ScanAt(n, i)
  {
    RowFits(n, n - 1);
    SquareMonotone(n);
  }

  lemma SquareMonotone(n: nat)
    requires n <= 16
    ensures n * n <= 256
  {
    var k := 16 - n;
    assert (n + k) * (n + k) == n * n + k * (2 * n + k);
    assert k * (2 * n + k) >= 0;
  }
}
