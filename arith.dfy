/** Integer arithmetic behind the grid geometry: the integer square root that
    stands for the floating-point `sqrt` the grid uses to derive its sizes, and
    facts about the box origin `x - x % k` that the feasibility checks
    compute. */
module Arith {

  /** The square root of `n`, rounded down. */
  function FloorSqrt(n: nat): (r: nat)
    ensures r * r <= n < (r + 1) * (r + 1)
  {
    if n == 0 then 0
    else
      var s := FloorSqrt(n - 1);
      if (s + 1) * (s + 1) <= n then s + 1 else s
  }

  lemma MulMonotonic(k: nat, a: nat, b: nat)
    requires a <= b
    ensures k * a <= k * b
  {
  }

  /** The defining property of FloorSqrt determines it. */
  lemma FloorSqrtUnique(n: nat, r: nat)
    requires r * r <= n < (r + 1) * (r + 1)
    ensures FloorSqrt(n) == r
  {
    var s := FloorSqrt(n);
    if s < r {
      SquareMonotonic(s + 1, r);
    } else if s > r {
      SquareMonotonic(r + 1, s);
    }
  }

  lemma SquareMonotonic(a: nat, b: nat)
    requires a <= b
    ensures a * a <= b * b
  {
    MulMonotonic(a, a, b);
    MulMonotonic(b, a, b);
  }

  lemma FloorSqrtOfSquare(n: nat)
    ensures FloorSqrt(n * n) == n
  {
    FloorSqrtUnique(n * n, n);
  }

  /** The row-major position of cell (i, j) in a table of row length n. */
  function Flat(i: nat, j: nat, n: nat): nat
  {
    i * n + j
  }

  /** The row-major position of cell (i, j) of an m-by-n table lies inside it. */
  lemma FlatIndexBound(i: nat, j: nat, m: nat, n: nat)
    requires i < m && j < n
    ensures Flat(i, j, n) < m * n
  {
    MulMonotonic(n, i + 1, m);
  }

  /** Row-major order: a cell at or after (i, j) has position at least Flat(i, j, n). */
  lemma FlatOrder(i: nat, j: nat, u: nat, v: nat, n: nat)
    requires j < n && (i < u || (i == u && j <= v))
    ensures Flat(i, j, n) <= Flat(u, v, n)
  {
    if i < u {
      MulMonotonic(n, i + 1, u);
    }
  }

  /** The position after the last cell of row i is the first of row i + 1. */
  lemma FlatNextRow(i: nat, n: nat)
    requires n > 0
    ensures Flat(i + 1, 0, n) == Flat(i, n - 1, n) + 1
  {
  }

  /** The first row of the box (or column of the box) that holds coordinate x. */
  function BoxOrigin(x: nat, k: nat): (o: nat)
    requires k > 0
    ensures o <= x < o + k
  {
    x - x % k
  }

  lemma DivUnique(a: nat, k: nat, q: nat)
    requires k > 0 && k * q <= a < k * q + k
    ensures a / k == q
  {
    var d := a / k;
    if d < q {
      MulMonotonic(k, d + 1, q);
    } else if d > q {
      MulMonotonic(k, q + 1, d);
    }
  }

  /** Boxes of side k tile a side of length n. */
  predicate Tiles(n: nat, k: nat)
  {
    k > 0 && n % k == 0
  }

  /** A square side is tiled by boxes of its square root. */
  lemma SquareTiles(k: nat)
    requires k > 0
    ensures Tiles(k * k, k)
  {
    DivUnique(k * k, k, k);
  }

  /** When boxes of side k tile the side n, the box that holds a coordinate
      inside the side ends inside it. */
  lemma BoxFitsTiling(x: nat, k: nat, n: nat)
    requires Tiles(n, k) && x < n
    ensures BoxOrigin(x, k) + k <= n
  {
    var q, m := x / k, n / k;
    assert n == k * m;
    if q >= m {
      MulMonotonic(k, m, q);
    }
    MulMonotonic(k, q + 1, m);
  }

  /** Stepping from one box origin to the next along a tiled side: the box
      at a multiple of k ends inside the side, and the next origin is again a
      multiple of k. */
  lemma TileStep(x: nat, k: nat, n: nat)
    requires Tiles(n, k) && x < n && x % k == 0
    ensures x + k <= n && (x + k) % k == 0
  {
    BoxFitsTiling(x, k, n);
    DivUnique(x + k, k, x / k + 1);
  }

  /** Coordinate a lies in the box band of coordinate x exactly when both have
      the same origin: membership in a box is an equivalence. */
  lemma SameBoxOrigin(a: nat, x: nat, k: nat)
    requires k > 0
    ensures BoxOrigin(x, k) <= a < BoxOrigin(x, k) + k <==> BoxOrigin(a, k) == BoxOrigin(x, k)
  {
    if BoxOrigin(x, k) <= a < BoxOrigin(x, k) + k {
      DivUnique(a, k, x / k);
    }
  }

  /** The sides 4, 9 and 16, the ones the string constructor fills, are tiled
      by boxes of their integer square root. */
  lemma SupportedSideTiles(n: nat)
    requires n == 4 || n == 9 || n == 16
    ensures Tiles(n, FloorSqrt(n))
  {
    var k := if n == 4 then 2 else if n == 9 then 3 else 4;
    FloorSqrtOfSquare(k);
    SquareTiles(k);
  }
}
