/** Grid geometry of the finite-difference solver: the side q of the
    processor grid, and the block partition of the N-by-N domain that gives
    each rank the rows [row0, row1] and columns [col0, col1] it owns.
    The source evaluates N/q*k in double precision and adds 0.0001 before
    truncating; this model uses the exact integer form N*k/q. */
module Partition {
  import Arith
  import opened Failures
  import PG = ProcessorGrid

  function Square(k: nat): nat { k * k }

  /** Integer square root, rounded down. */
  function IntSqrt(n: nat): (r: nat)
    ensures Square(r) <= n < Square(r + 1)
  {
    if n == 0 then 0
    else
      var s := IntSqrt(n - 1);
      if Square(s + 1) <= n then s + 1 else s
  }

  lemma SquareMonotone(j: nat, k: nat)
    requires j <= k
    ensures Square(j) <= Square(k)
  {
    Arith.MulMonotone(j, j, k);
    Arith.MulMonotone(k, j, k);
  }

  /** The side of the processor grid for `workers` processes; construction
      fails unless the worker count is a perfect square. */
  function GridSide(workers: nat): (r: Result<nat>)
    ensures r.Ok? <==> exists k: nat :: Square(k) == workers
    ensures r.Ok? ==> Square(r.value) == workers
    ensures r.Err? ==> r.error == NotSquareGrid(workers)
  {
    var q := IntSqrt(workers);
    if Square(q) == workers then Ok(q)
    else
      assert forall k: nat :: Square(k) != workers by {
        forall k: nat ensures Square(k) != workers {
          if k <= q - 1 { SquareMonotone(k, q - 1); }
          else if k >= q + 1 { SquareMonotone(q + 1, k); }
        }
      }
      Err(NotSquareGrid(workers))
  }

  /** First index of tile k of N cells split q ways. */
  function TileLo(n: nat, q: nat, k: nat): nat
    requires q > 0
  {
    n * k / q
  }

  /** Last index of tile k (one below the first index of tile k+1). */
  function TileHi(n: nat, q: nat, k: nat): int
    requires q > 0
  {
    n * (k + 1) / q - 1
  }

  function Extent(n: nat, q: nat, k: nat): int
    requires q > 0
  {
    TileHi(n, q, k) - TileLo(n, q, k) + 1
  }

  ghost predicate InTile(n: nat, q: nat, k: nat, x: int)
    requires q > 0
  {
    TileLo(n, q, k) <= x <= TileHi(n, q, k)
  }

  /** Tile starts never decrease with the tile index. */
  lemma {:induction false} TileLoMonotone(n: nat, q: nat, j: nat, k: nat)
    requires q > 0 && j <= k
    ensures TileLo(n, q, j) <= TileLo(n, q, k)
  {
    Arith.MulMonotone(n, j, k);
    Arith.DivMonotone(n * j, n * k, q);
  }

  /** Consecutive tiles abut, the first starts at 0 and the last ends at
      N-1, and no tile has a negative extent. */
  lemma {:induction false} TilesSpanDomain(n: nat, q: nat, k: nat)
    requires q > 0 && k < q
    ensures TileHi(n, q, k) + 1 == TileLo(n, q, k + 1)
    ensures Extent(n, q, k) >= 0
    ensures TileLo(n, q, 0) == 0 && TileHi(n, q, q - 1) == n - 1
  {
    TileLoMonotone(n, q, k, k + 1);
    Arith.DivModUnique(n * q, q, n, 0);
  }

  /** Every index of [0, N-1] lies in some tile k < q ... */
  lemma {:induction false} TileContaining(n: nat, q: nat, x: nat) returns (k: nat)
    requires q > 0 && x < n
    ensures k < q && InTile(n, q, k, x)
  {
    TilesSpanDomain(n, q, q - 1);
    k := TileBelow(n, q, x, q - 1);
  }

  lemma {:induction false} TileBelow(n: nat, q: nat, x: nat, m: nat) returns (k: nat)
    requires q > 0 && x < TileLo(n, q, m + 1)
    ensures k <= m && InTile(n, q, k, x)
  {
    if x >= TileLo(n, q, m) {
      k := m;
    } else {
      assert m > 0;
      k := TileBelow(n, q, x, m - 1);
    }
  }

  /** ... and in no other: tiles do not overlap. */
  lemma {:induction false} TilesDisjoint(n: nat, q: nat, x: int, j: nat, k: nat)
    requires q > 0 && InTile(n, q, j, x) && InTile(n, q, k, x)
    ensures j == k
  {
    if j < k {
      TileLoMonotone(n, q, j + 1, k);
    } else if k < j {
      TileLoMonotone(n, q, k + 1, j);
    }
  }

  function SumExtents(n: nat, q: nat, m: nat): int
    requires q > 0
  {
    if m == 0 then 0 else SumExtents(n, q, m - 1) + Extent(n, q, m - 1)
  }

  /** The extents of the q tiles along a grid row or column add up to N. */
  lemma {:induction false} ExtentsSumToN(n: nat, q: nat)
    requires q > 0
    ensures SumExtents(n, q, q) == n
  {
    ExtentsTelescope(n, q, q);
    Arith.DivModUnique(n * q, q, n, 0);
  }

  lemma {:induction false} ExtentsTelescope(n: nat, q: nat, m: nat)
    requires q > 0
    ensures SumExtents(n, q, m) == TileLo(n, q, m)
  {
    if m > 0 {
      ExtentsTelescope(n, q, m - 1);
    }
  }

  /** The partition is balanced: every tile has floor(N/q) or
      floor(N/q) + 1 cells. */
  lemma {:induction false} ExtentBalanced(n: nat, q: nat, k: nat)
    requires q > 0
    ensures n / q <= Extent(n, q, k) <= n / q + 1
  {
    var a, b := n / q, n % q;
    var x := b * k;
    var s, t := x / q, x % q;
    assert n * k == q * (a * k + s) + t by {
      assert n == q * a + b;
      assert n * k == q * a * k + b * k;
    }
    Arith.DivModUnique(n * k, q, a * k + s, t);
    assert n * (k + 1) == q * (a * k + s + a) + (t + b) by {
      assert n * (k + 1) == n * k + n;
    }
    if t + b < q {
      Arith.DivModUnique(n * (k + 1), q, a * k + s + a, t + b);
    } else {
      Arith.DivModUnique(n * (k + 1), q, a * k + s + a + 1, t + b - q);
    }
  }

  /** With at least one cell per tile (q <= N), only the first tile starts
      at 0 and only the last one ends at N-1. */
  lemma {:induction false} TileAtEdge(n: nat, q: nat, k: nat)
    requires 0 < q <= n && k < q
    ensures TileLo(n, q, k) == 0 <==> k == 0
    ensures TileHi(n, q, k) == n - 1 <==> k == q - 1
  {
    TilesSpanDomain(n, q, q - 1);
    Arith.DivMonotone(q, n, q);
    Arith.DivModUnique(q, q, 1, 0);
    if k > 0 {
      TileLoMonotone(n, q, 1, k);
      assert TileLo(n, q, 1) == n / q;
    }
    if k < q - 1 {
      TilesSpanDomain(n, q, k);
      TileLoMonotone(n, q, k + 1, q - 1);
      ExtentBalanced(n, q, q - 1);
    }
  }
}
