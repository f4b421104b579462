/**
 * The tile grid that the VAAPI engine derives for the driver
 * (src/vaapi_h265_decoder.cc), against the column widths and row heights of
 * section 6.5.1 of ITU-T H.265, in coding tree blocks.
 */
module TileGrid {
  import opened Bits

  /** Both loops' arithmetic is in 32 bits, each entry is stored in 16. */
  const WORD: nat := 0x1_0000_0000
  const ENTRY: nat := 0x1_0000

  /** The blocks that the first `k` coded sizes take up. */
  function Used(coded: seq<nat>, k: nat): nat
    requires k <= |coded|
  {
    if k == 0 then 0 else Used(coded, k - 1) + coded[k - 1] + 1
  }

  /** colWidth or rowHeight of section 6.5.1; not positive when the tiles do not fit. */
  function TileSize(uniform: bool, coded: seq<nat>, n: nat, size: nat, i: nat): int
    requires i < n && (!uniform ==> |coded| == n - 1)
  {
    if uniform then (i + 1) * size / n - i * size / n
    else if i < n - 1 then coded[i] + 1
    else size - Used(coded, n - 1)
  }

  /** The sizes of the first `k` tiles. */
  function Covered(uniform: bool, coded: seq<nat>, n: nat, size: nat, k: nat): int
    requires k <= n && (!uniform ==> |coded| == n - 1)
  {
    if k == 0 then 0 else Covered(uniform, coded, n, size, k - 1) + TileSize(uniform, coded, n, size, k - 1)
  }

  /** One entry of the grid as the loops compute it. */
  function Entry(uniform: bool, coded: seq<nat>, n: nat, size: nat, i: nat): nat
    requires i < n && (!uniform ==> |coded| == n - 1)
  {
    if uniform then (TileSize(uniform, coded, n, size, i) - 1) % ENTRY
    else if i < n - 1 then coded[i] % ENTRY
    else
      var used := Used(coded, n - 1) % WORD;
      if size > used then (size - used - 1) % ENTRY else 0
  }

  method DeriveSizes(uniform: bool, coded: seq<nat>, n: nat, size: nat) returns (grid: seq<nat>)
    requires 0 < n && (!uniform ==> |coded| == n - 1) && size < ENTRY
    requires forall i :: 0 <= i < |coded| ==> coded[i] < WORD
    ensures |grid| == n && forall i :: 0 <= i < n ==> grid[i] == Entry(uniform, coded, n, size, i)
  {
    grid := [];
    if uniform {
      for i := 0 to n
        invariant |grid| == i && forall k :: 0 <= k < i ==> grid[k] == Entry(uniform, coded, n, size, k)
      {
        grid := grid + [((i + 1) * size / n - i * size / n - 1) % ENTRY];
      }
      return;
    }
    var used: nat := 0;
    for i := 0 to n - 1
      invariant |grid| == i && forall k :: 0 <= k < i ==> grid[k] == Entry(uniform, coded, n, size, k)
      invariant used == Used(coded, i) % WORD
    {
      WrapAdd(Used(coded, i), coded[i] + 1);
      grid := grid + [coded[i] % ENTRY];
      used := (used + coded[i] + 1) % WORD;
    }
    grid := grid + [if size > used then (size - used - 1) % ENTRY else 0];
  }

  lemma WrapAdd(a: nat, b: nat)
    ensures (a % WORD + b) % WORD == (a + b) % WORD
  {
  }

  // ----- The standard's tiles cover the picture

  lemma {:induction false} UniformCovers(n: nat, size: nat, k: nat)
    requires 0 < n && k <= n
    ensures Covered(true, [], n, size, k) == k * size / n
  {
    if k > 0 {
      UniformCovers(n, size, k - 1);
    } else {
      assert 0 * size == 0;
    }
  }

  lemma WholeQuotient(n: nat, size: nat)
    requires n > 0
    ensures n * size / n == size
  {
    DivUnique(n * size, n, size, 0);
  }

  lemma {:induction false} ExplicitCovers(coded: seq<nat>, size: nat, k: nat)
    requires k <= |coded|
    ensures Covered(false, coded, |coded| + 1, size, k) == Used(coded, k)
  {
    if k > 0 {
      ExplicitCovers(coded, size, k - 1);
    }
  }

  /** The tiles' sizes always add up to the picture. */
  lemma TilesCover(uniform: bool, coded: seq<nat>, n: nat, size: nat)
    requires 0 < n && (if uniform then coded == [] else |coded| == n - 1)
    ensures Covered(uniform, coded, n, size, n) == size
  {
    if uniform {
      UniformCovers(n, size, n);
      WholeQuotient(n, size);
    } else {
      ExplicitCovers(coded, size, n - 1);
    }
  }

  // ----- When every tile has room

  /** What the standard asks: no more uniform tiles than blocks; coded sizes short of the picture. */
  predicate Fits(uniform: bool, coded: seq<nat>, n: nat, size: nat)
    requires 0 < n && (!uniform ==> |coded| == n - 1)
  {
    if uniform then n <= size else Used(coded, n - 1) < size
  }

  lemma UniformPositive(n: nat, size: nat, i: nat)
    requires 0 < n <= size && i < n
    ensures (i + 1) * size / n - i * size / n >= 1
  {
    var q, r := i * size / n, i * size % n;
    assert i * size == n * q + r;
    assert (i + 1) * size == i * size + size;
    var q2 := (i + 1) * size / n;
    assert n * q2 + (i + 1) * size % n == (i + 1) * size;
    if q2 <= q {
      MulMonotone(n, q2, q);
    }
  }

  lemma {:induction false} PositiveNeedRoom(uniform: bool, coded: seq<nat>, n: nat, size: nat, k: nat)
    requires k <= n && (!uniform ==> |coded| == n - 1)
    requires forall i :: 0 <= i < n ==> TileSize(uniform, coded, n, size, i) >= 1
    ensures Covered(uniform, coded, n, size, k) >= k
  {
    if k > 0 {
      PositiveNeedRoom(uniform, coded, n, size, k - 1);
    }
  }

  /** Every tile is at least one block wide exactly when the tiles fit. */
  lemma TilesPositiveIff(uniform: bool, coded: seq<nat>, n: nat, size: nat)
    requires 0 < n && (if uniform then coded == [] else |coded| == n - 1)
    ensures (forall i :: 0 <= i < n ==> TileSize(uniform, coded, n, size, i) >= 1) <==> Fits(uniform, coded, n, size)
  {
    if Fits(uniform, coded, n, size) {
      if uniform {
        forall i | 0 <= i < n
          ensures TileSize(uniform, coded, n, size, i) >= 1
        {
          UniformPositive(n, size, i);
        }
      }
    } else if uniform {
      if forall i :: 0 <= i < n ==> TileSize(uniform, coded, n, size, i) >= 1 {
        TilesCover(uniform, coded, n, size);
        PositiveNeedRoom(uniform, coded, n, size, n);
      }
    } else {
      assert TileSize(uniform, coded, n, size, n - 1) < 1;
    }
  }

  lemma {:induction false} UsedBound(coded: seq<nat>, k: nat, i: nat)
    requires i < k <= |coded|
    ensures Used(coded, k) > coded[i]
    ensures Used(coded, k) >= Used(coded, i)
  {
    if i < k - 1 {
      UsedBound(coded, k - 1, i);
    }
  }

  /**
   * The driver gets the standard's grid, every size less one in its 16 bits,
   * if and only if every tile has room; a grid that does not fit is passed on
   * wrong instead of being refused.
   */
  lemma GridExactIff(uniform: bool, coded: seq<nat>, n: nat, size: nat)
    requires 0 < n <= 21 && (if uniform then coded == [] else |coded| == n - 1) && size < ENTRY
    ensures (forall i :: 0 <= i < n ==>
        Entry(uniform, coded, n, size, i) == TileSize(uniform, coded, n, size, i) - 1)
      <==> Fits(uniform, coded, n, size)
  {
    TilesPositiveIff(uniform, coded, n, size);
    if Fits(uniform, coded, n, size) {
      forall i | 0 <= i < n
        ensures Entry(uniform, coded, n, size, i) == TileSize(uniform, coded, n, size, i) - 1
      {
        FitsExact(uniform, coded, n, size, i);
      }
    }
  }

  lemma FitsExact(uniform: bool, coded: seq<nat>, n: nat, size: nat, i: nat)
    requires 0 < n <= 21 && i < n && (if uniform then coded == [] else |coded| == n - 1) && size < ENTRY
    requires Fits(uniform, coded, n, size)
    ensures Entry(uniform, coded, n, size, i) == TileSize(uniform, coded, n, size, i) - 1
  {
    if uniform {
      UniformPositive(n, size, i);
      UniformSmall(n, size, i);
      WithinEntry(TileSize(true, coded, n, size, i), size);
    } else {
      if i < n - 1 {
        UsedBound(coded, n - 1, i);
      }
      ExplicitExact(coded, n, size, i);
    }
  }

  lemma WithinEntry(x: int, size: nat)
    requires 1 <= x <= size < ENTRY
    ensures (x - 1) % ENTRY == x - 1
  {
  }

  lemma ExplicitExact(coded: seq<nat>, n: nat, size: nat, i: nat)
    requires i < n == |coded| + 1 && Used(coded, n - 1) < size < ENTRY
    requires i < n - 1 ==> coded[i] < Used(coded, n - 1)
    ensures Entry(false, coded, n, size, i) == TileSize(false, coded, n, size, i) - 1
  {
    hide Used;
    var used := Used(coded, n - 1);
    assert used % WORD == used;
    WithinEntry(size - used, size);
    if i < n - 1 {
      WithinEntry(coded[i] + 1, size);
    }
  }

  lemma UniformSmall(n: nat, size: nat, i: nat)
    requires 0 < n && i < n
    ensures (i + 1) * size / n - i * size / n <= size
  {
    StepQuotient(i * size, size, n);
    assert (i + 1) * size == i * size + size;
  }

  /** Adding `b` moves a quotient by at most `b`. */
  lemma StepQuotient(a: nat, b: nat, n: nat)
    requires n > 0
    ensures (a + b) / n - a / n <= b
  {
    var d := (a + b) / n - a / n;
    assert n * d == b + a % n - (a + b) % n;
    if d > b {
      MulMonotone(n, b + 1, d);
      assert n * (b + 1) == n * b + n;
      MulMonotone(b, 1, n);
    }
  }
}
