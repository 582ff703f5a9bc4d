/** The constraint questions a grid answers, stated on its table of cells:
    where a value may be placed (`isSafe` and its row, column and box parts),
    what the whole-grid checks `isComplete` and `isCorrect` accept, and the
    facts that connect them. */
module Rules {
  import opened Arith
  import opened Cells

  // ------------------------------------------------------------ feasibility

  /** v occurs nowhere in row `row`. */
  predicate NotInRow(g: seq<seq<int>>, n: nat, row: nat, v: int)
    requires IsSquare(g, n) && row < n
  {
    forall j :: 0 <= j < n ==> g[row][j] != v
  }

  /** v occurs nowhere in column `col`. */
  predicate NotInCol(g: seq<seq<int>>, n: nat, col: nat, v: int)
    requires IsSquare(g, n) && col < n
  {
    forall i :: 0 <= i < n ==> g[i][col] != v
  }

  /** v occurs nowhere in the k-by-k box whose top-left cell is (sr, sc). */
  predicate NotInBox(g: seq<seq<int>>, n: nat, sr: nat, sc: nat, k: nat, v: int)
    requires IsSquare(g, n) && sr + k <= n && sc + k <= n
  {
    forall i, j :: sr <= i < sr + k && sc <= j < sc + k ==> g[i][j] != v
  }

  /** `isSafe`: cell (r, c) is empty and v occurs neither in its row, nor in
      its column, nor in the box that holds it. */
  predicate SafeAt(g: seq<seq<int>>, n: nat, k: nat, r: nat, c: nat, v: int)
    requires IsSquare(g, n) && Tiles(n, k) && r < n && c < n
  {
    BoxFitsTiling(r, k, n);
    BoxFitsTiling(c, k, n);
    g[r][c] == 0 && NotInRow(g, n, r, v) && NotInCol(g, n, c, v) &&
    NotInBox(g, n, BoxOrigin(r, k), BoxOrigin(c, k), k, v)
  }

  /** Two cells lie in the same k-by-k box. */
  predicate SameBox(r1: nat, c1: nat, r2: nat, c2: nat, k: nat)
    requires k > 0
  {
    BoxOrigin(r1, k) == BoxOrigin(r2, k) && BoxOrigin(c1, k) == BoxOrigin(c2, k)
  }

  predicate RowsDistinct(g: seq<seq<int>>, n: nat)
    requires IsSquare(g, n)
  {
    forall r, c1, c2 :: 0 <= r < n && 0 <= c1 < n && 0 <= c2 < n && c1 != c2 && g[r][c1] != 0 ==>
      g[r][c1] != g[r][c2]
  }

  predicate ColsDistinct(g: seq<seq<int>>, n: nat)
    requires IsSquare(g, n)
  {
    forall c, r1, r2 :: 0 <= c < n && 0 <= r1 < n && 0 <= r2 < n && r1 != r2 && g[r1][c] != 0 ==>
      g[r1][c] != g[r2][c]
  }

  predicate BoxesDistinct(g: seq<seq<int>>, n: nat, k: nat)
    requires IsSquare(g, n) && k > 0
  {
    forall r1, c1, r2, c2 ::
      0 <= r1 < n && 0 <= c1 < n && 0 <= r2 < n && 0 <= c2 < n &&
      (r1 != r2 || c1 != c2) && SameBox(r1, c1, r2, c2, k) && g[r1][c1] != 0 ==>
      g[r1][c1] != g[r2][c2]
  }

  /** No non-zero value is repeated in a row, a column or a box: the state
      that the solver keeps while it places values with `isSafe`. */
  predicate NoDuplicates(g: seq<seq<int>>, n: nat, k: nat)
    requires IsSquare(g, n) && k > 0
  {
    RowsDistinct(g, n) && ColsDistinct(g, n) && BoxesDistinct(g, n, k)
  }

  /** The table with cell (r, c) set to v. */
  function Place(g: seq<seq<int>>, n: nat, r: nat, c: nat, v: int): (h: seq<seq<int>>)
    requires IsSquare(g, n) && r < n && c < n
    ensures IsSquare(h, n) && h[r][c] == v
    ensures forall i, j :: 0 <= i < n && 0 <= j < n && (i != r || j != c) ==> h[i][j] == g[i][j]
  {
    g[r := g[r][c := v]]
  }

  /** Clearing a cell that was empty before a placement restores the table. */
  lemma PlaceThenClear(g: seq<seq<int>>, n: nat, r: nat, c: nat, v: int)
    requires IsSquare(g, n) && r < n && c < n && g[r][c] == 0
    ensures Place(Place(g, n, r, c, v), n, r, c, 0) == g
  {
    SquareExtensional(Place(Place(g, n, r, c, v), n, r, c, 0), g, n);
  }

  lemma RowsAfterPlace(g: seq<seq<int>>, n: nat, r: nat, c: nat, v: int)
    requires IsSquare(g, n) && r < n && c < n && v != 0 && g[r][c] == 0
    requires RowsDistinct(g, n)
    ensures NotInRow(g, n, r, v) <==> RowsDistinct(Place(g, n, r, c, v), n)
  {
    var h := Place(g, n, r, c, v);
    if RowsDistinct(h, n) {
      forall j | 0 <= j < n
        ensures g[r][j] != v
      {
        if j != c {
          assert h[r][c] != h[r][j];
        }
      }
    }
  }

  lemma ColsAfterPlace(g: seq<seq<int>>, n: nat, r: nat, c: nat, v: int)
    requires IsSquare(g, n) && r < n && c < n && v != 0 && g[r][c] == 0
    requires ColsDistinct(g, n)
    ensures NotInCol(g, n, c, v) <==> ColsDistinct(Place(g, n, r, c, v), n)
  {
    var h := Place(g, n, r, c, v);
    if ColsDistinct(h, n) {
      forall i | 0 <= i < n
        ensures g[i][c] != v
      {
        if i != r {
          assert h[r][c] != h[i][c];
        }
      }
    }
  }

  lemma BoxesAfterPlace(g: seq<seq<int>>, n: nat, k: nat, r: nat, c: nat, v: int)
    requires IsSquare(g, n) && Tiles(n, k) && r < n && c < n && v != 0 && g[r][c] == 0
    requires BoxesDistinct(g, n, k)
    ensures BoxOrigin(r, k) + k <= n && BoxOrigin(c, k) + k <= n
    ensures NotInBox(g, n, BoxOrigin(r, k), BoxOrigin(c, k), k, v) <==> BoxesDistinct(Place(g, n, r, c, v), n, k)
  {
    BoxFitsTiling(r, k, n);
    BoxFitsTiling(c, k, n);
    var h := Place(g, n, r, c, v);
    var sr, sc := BoxOrigin(r, k), BoxOrigin(c, k);
    forall a | 0 <= a < n
      ensures sr <= a < sr + k <==> BoxOrigin(a, k) == sr
      ensures sc <= a < sc + k <==> BoxOrigin(a, k) == sc
    {
      SameBoxOrigin(a, r, k);
      SameBoxOrigin(a, c, k);
    }
    if BoxesDistinct(h, n, k) {
      forall i, j | sr <= i < sr + k && sc <= j < sc + k
        ensures g[i][j] != v
      {
        if i != r || j != c {
          assert SameBox(r, c, i, j, k);
          assert h[r][c] != h[i][j];
        }
      }
    }
    if NotInBox(g, n, sr, sc, k, v) {
      forall r1, c1, r2, c2 |
        0 <= r1 < n && 0 <= c1 < n && 0 <= r2 < n && 0 <= c2 < n &&
        (r1 != r2 || c1 != c2) && SameBox(r1, c1, r2, c2, k) && h[r1][c1] != 0
        ensures h[r1][c1] != h[r2][c2]
      {
        if r1 == r && c1 == c {
          assert g[r2][c2] != v;
        } else if r2 == r && c2 == c {
          assert g[r1][c1] != v;
        }
      }
    }
  }

  /** The safe placement property: on a table without duplicates, placing a
      non-zero v at (r, c) keeps it free of duplicates exactly when `isSafe`
      allows the placement. The solver's undo step (setting the cell back to
      0) restores the table, and no other cell changes. */
  lemma SafePlacement(g: seq<seq<int>>, n: nat, k: nat, r: nat, c: nat, v: int)
    requires IsSquare(g, n) && Tiles(n, k) && r < n && c < n && v != 0
    requires NoDuplicates(g, n, k)
    ensures SafeAt(g, n, k, r, c, v) <==> g[r][c] == 0 && NoDuplicates(Place(g, n, r, c, v), n, k)
    ensures SafeAt(g, n, k, r, c, v) ==> Place(Place(g, n, r, c, v), n, r, c, 0) == g
  {
    if g[r][c] == 0 {
      RowsAfterPlace(g, n, r, c, v);
      ColsAfterPlace(g, n, r, c, v);
      BoxesAfterPlace(g, n, k, r, c, v);
      PlaceThenClear(g, n, r, c, v);
    }
  }

  // ----------------------------------------------------------- completeness

  /** Some cell is empty: what `isIncomplete` reports. */
  predicate HasEmpty(g: seq<seq<int>>, n: nat)
    requires IsSquare(g, n)
  {
    exists i, j :: 0 <= i < n && 0 <= j < n && g[i][j] == 0
  }

  /** No cell is empty: what `isComplete` reports. */
  predicate NoEmpty(g: seq<seq<int>>, n: nat)
    requires IsSquare(g, n)
  {
    forall i, j :: 0 <= i < n && 0 <= j < n ==> g[i][j] != 0
  }

  lemma CompleteIsNotIncomplete(g: seq<seq<int>>, n: nat)
    requires IsSquare(g, n)
    ensures NoEmpty(g, n) <==> !HasEmpty(g, n)
  {
  }

  // ------------------------------------------------------------ correctness

  /** Every cell of row `row` holds a value from 1 to n. */
  predicate RowInRange(g: seq<seq<int>>, n: nat, row: nat)
    requires IsSquare(g, n) && row < n
  {
    forall j :: 0 <= j < n ==> 1 <= g[row][j] <= n
  }

  predicate ColInRange(g: seq<seq<int>>, n: nat, col: nat)
    requires IsSquare(g, n) && col < n
  {
    forall i :: 0 <= i < n ==> 1 <= g[i][col] <= n
  }

  /** Every cell holds a value from 1 to n: what `isCorrect` accepts. */
  predicate AllInRange(g: seq<seq<int>>, n: nat)
    requires IsSquare(g, n)
  {
    forall i, j :: 0 <= i < n && 0 <= j < n ==> 1 <= g[i][j] <= n
  }

  /** No 1 occurs in the box at (sr, sc) strictly before cell (i, j) in
      row-major order. */
  predicate NoOneBefore(g: seq<seq<int>>, n: nat, sr: nat, sc: nat, k: nat, i: nat, j: nat)
    requires IsSquare(g, n) && sr + k <= n && sc + k <= n
  {
    forall a, b :: sr <= a < sr + k && sc <= b < sc + k && (a < i || (a == i && b < j)) ==> g[a][b] != 1
  }

  /** What `correctInSqr` accepts. Its search for the value 1 range-checks the
      cells in row-major order; once a 1 is found it finishes the row early,
      looks only at the first cell of each later row and stops. So a cell is
      checked exactly when it is in the box's first column or no 1 precedes
      it, and the box is accepted when every checked cell is in range. */
  predicate BoxScanInRange(g: seq<seq<int>>, n: nat, sr: nat, sc: nat, k: nat)
    requires IsSquare(g, n) && sr + k <= n && sc + k <= n
  {
    ExaminedInRange(g, n, sr, sc, k, sr + k)
  }

  /** Every examined cell of the box in a row above `rows` is in range. */
  predicate ExaminedInRange(g: seq<seq<int>>, n: nat, sr: nat, sc: nat, k: nat, rows: nat)
    requires IsSquare(g, n) && sr + k <= n && sc + k <= n
  {
    forall i, j :: sr <= i < rows && i < sr + k && sc <= j < sc + k && Examined(g, n, sr, sc, k, i, j) ==>
      1 <= g[i][j] <= n
  }

  /** The cells of the box that the first pass of `correctInSqr` looks at. */
  predicate Examined(g: seq<seq<int>>, n: nat, sr: nat, sc: nat, k: nat, i: nat, j: nat)
    requires IsSquare(g, n) && sr + k <= n && sc + k <= n
  {
    j == sc || NoOneBefore(g, n, sr, sc, k, i, j)
  }

  /** Scanning row i of the box from its first column: no 1 precedes (i, j)
      exactly when none precedes (i, sc) and none occurs in row i before j. */
  lemma NoOneBeforeInRow(g: seq<seq<int>>, n: nat, sr: nat, sc: nat, k: nat, i: nat, j: nat)
    requires IsSquare(g, n) && sr + k <= n && sc + k <= n && sr <= i < sr + k && sc <= j <= sc + k
    ensures NoOneBefore(g, n, sr, sc, k, i, j) <==>
            NoOneBefore(g, n, sr, sc, k, i, sc) && forall b :: sc <= b < j ==> g[i][b] != 1
  {
  }

  /** Passing to the next row of the box. */
  lemma NoOneBeforeNextRow(g: seq<seq<int>>, n: nat, sr: nat, sc: nat, k: nat, i: nat)
    requires IsSquare(g, n) && sr + k <= n && sc + k <= n && sr <= i < sr + k
    ensures NoOneBefore(g, n, sr, sc, k, i + 1, sc) <==>
            NoOneBefore(g, n, sr, sc, k, i, sc) && forall b :: sc <= b < sc + k ==> g[i][b] != 1
  {
  }

  /** A cell that no 1 precedes has no 1 before any earlier cell either. */
  lemma NoOneBeforeEarlier(g: seq<seq<int>>, n: nat, sr: nat, sc: nat, k: nat, a: nat, b: nat, i: nat, j: nat)
    requires IsSquare(g, n) && sr + k <= n && sc + k <= n
    requires a < i || (a == i && b <= j)
    requires NoOneBefore(g, n, sr, sc, k, i, j)
    ensures NoOneBefore(g, n, sr, sc, k, a, b)
  {
  }

  /** One row of the first `correctInSqr` pass. `before` says whether a 1 was
      seen in earlier rows; the row scan then stopped at column j, and `after`
      says whether a 1 has been seen by then. If one was seen before, only the
      first cell was looked at; otherwise the cells before j hold no 1, and j
      is either the column of the row's first 1 or the end of the row. The
      examined cells of the row are then in range, and `after` tells whether
      a 1 precedes the next row. */
  lemma RowScanned(g: seq<seq<int>>, n: nat, sr: nat, sc: nat, k: nat, i: nat, j: nat, before: bool, after: bool)
    requires IsSquare(g, n) && sr + k <= n && sc + k <= n && sr <= i < sr + k && sc <= j <= sc + k
    requires ExaminedInRange(g, n, sr, sc, k, i)
    requires before <==> !NoOneBefore(g, n, sr, sc, k, i, sc)
    requires before ==> after && j == sc && 1 <= g[i][sc] <= n
    requires !before ==> forall b :: sc <= b < j ==> g[i][b] != 1 && 1 <= g[i][b] <= n
    requires !before && after ==> j < sc + k && g[i][j] == 1
    requires !before && !after ==> j == sc + k
    ensures after <==> !NoOneBefore(g, n, sr, sc, k, i + 1, sc)
    ensures ExaminedInRange(g, n, sr, sc, k, i + 1)
  {
    NoOneBeforeNextRow(g, n, sr, sc, k, i);
    if !before && after {
      forall b | j < b < sc + k
        ensures !NoOneBefore(g, n, sr, sc, k, i, b)
      {
        assert g[i][j] == 1;
      }
    }
    if before {
      forall b | sc < b < sc + k
        ensures !NoOneBefore(g, n, sr, sc, k, i, b)
      {
        NoOneBeforeInRow(g, n, sr, sc, k, i, b);
      }
    }
  }

  /** A cell of the first pass that fails the range check makes the box
      check fail: it is examined, being either the first cell of its row
      after a 1 was seen, or preceded by no 1. */
  lemma ScanFailure(g: seq<seq<int>>, n: nat, sr: nat, sc: nat, k: nat, i: nat, j: nat, before: bool)
    requires IsSquare(g, n) && sr + k <= n && sc + k <= n && sr <= i < sr + k && sc <= j < sc + k
    requires before <==> !NoOneBefore(g, n, sr, sc, k, i, sc)
    requires before ==> j == sc
    requires !before ==> forall b :: sc <= b < j ==> g[i][b] != 1
    requires !(1 <= g[i][j] <= n)
    ensures !BoxScanInRange(g, n, sr, sc, k)
  {
    if !before {
      NoOneBeforeInRow(g, n, sr, sc, k, i, j);
    }
    assert Examined(g, n, sr, sc, k, i, j);
  }

  /** The box holds no 1 and only values from 1 to n. */
  predicate BoxClean(g: seq<seq<int>>, n: nat, sr: nat, sc: nat, k: nat)
    requires IsSquare(g, n) && sr + k <= n && sc + k <= n
  {
    forall a, b :: sr <= a < sr + k && sc <= b < sc + k ==> g[a][b] != 1 && 1 <= g[a][b] <= n
  }

  /** If the first pass ends without seeing a 1, the box holds no 1 and, as
      every cell was examined, every cell is in range. */
  lemma ScanWithoutOne(g: seq<seq<int>>, n: nat, sr: nat, sc: nat, k: nat)
    requires IsSquare(g, n) && sr + k <= n && sc + k <= n
    requires NoOneBefore(g, n, sr, sc, k, sr + k, sc)
    requires BoxScanInRange(g, n, sr, sc, k)
    ensures BoxClean(g, n, sr, sc, k)
  {
    forall a, b | sr <= a < sr + k && sc <= b < sc + k
      ensures g[a][b] != 1
    {
      NoOneBeforeEarlier(g, n, sr, sc, k, a, b + 1, sr + k, sc);
    }
    BoxScanWithoutOne(g, n, sr, sc, k);
  }

  /** Without a 1 in the box, `correctInSqr` is a plain range check of the box. */
  lemma BoxScanWithoutOne(g: seq<seq<int>>, n: nat, sr: nat, sc: nat, k: nat)
    requires IsSquare(g, n) && sr + k <= n && sc + k <= n
    requires forall i, j :: sr <= i < sr + k && sc <= j < sc + k ==> g[i][j] != 1
    ensures BoxScanInRange(g, n, sr, sc, k) <==>
            forall i, j :: sr <= i < sr + k && sc <= j < sc + k ==> 1 <= g[i][j] <= n
  {
    if BoxScanInRange(g, n, sr, sc, k) {
      forall i, j | sr <= i < sr + k && sc <= j < sc + k
        ensures 1 <= g[i][j] <= n
      {
        assert NoOneBefore(g, n, sr, sc, k, i, j);
      }
    }
  }

  /** `correctInSqr` can accept a box with an empty cell: in the 4-by-4 table
      whose first row is 1, 0, 2, 3 (and the rest 2), the empty cell (0, 1)
      comes after the 1 and is never looked at. */
  lemma BoxScanSkipsCellAfterOne()
    ensures var g := [[1, 0, 2, 3], [2, 2, 2, 2], [2, 2, 2, 2], [2, 2, 2, 2]];
            IsSquare(g, 4) && BoxScanInRange(g, 4, 0, 0, 2) && g[0][1] == 0
  {
    var g := [[1, 0, 2, 3], [2, 2, 2, 2], [2, 2, 2, 2], [2, 2, 2, 2]];
    forall i | 0 <= i < 2
      ensures !NoOneBefore(g, 4, 0, 0, 2, i, 1)
    {
      assert g[0][0] == 1;
    }
  }

  /** Every value in range means every row, column and box check passes. */
  lemma AllInRangeChecks(g: seq<seq<int>>, n: nat, sr: nat, sc: nat, k: nat)
    requires IsSquare(g, n) && sr + k <= n && sc + k <= n
    requires AllInRange(g, n)
    ensures BoxScanInRange(g, n, sr, sc, k)
  {
  }

  /** A correct grid is complete. */
  lemma CorrectIsComplete(g: seq<seq<int>>, n: nat)
    requires IsSquare(g, n) && AllInRange(g, n)
    ensures NoEmpty(g, n)
  {
  }

  /** The range check accepts duplicates: the table of all 1s of any side
      n >= 2 passes it although its first row and first column repeat 1, and
      so does its first box once boxes have side 2 or more. */
  lemma CorrectAcceptsDuplicates(n: nat, k: nat)
    requires Tiles(n, k) && n >= 2
    ensures var g := seq(n, _ => seq(n, _ => 1));
            IsSquare(g, n) && AllInRange(g, n) && !RowsDistinct(g, n) && !NoDuplicates(g, n, k)
    ensures var g := seq(n, _ => seq(n, _ => 1));
            !ColsDistinct(g, n) && (k >= 2 ==> !BoxesDistinct(g, n, k))
  {
    var g := seq(n, _ => seq(n, _ => 1));
    assert g[0][0] == g[0][1] == g[1][0] == 1;
    if k >= 2 {
      assert BoxOrigin(1, k) == 0;
      assert SameBox(0, 0, 0, 1, k);
    }
  }

  // ---------------------------------------------------- genuine solutions

  /** The cells of column c, top to bottom. */
  function Column(g: seq<seq<int>>, n: nat, c: nat): (col: seq<int>)
    requires IsSquare(g, n) && c < n
    ensures |col| == n && forall i :: 0 <= i < n ==> col[i] == g[i][c]
  {
    seq(n, i requires 0 <= i < n => g[i][c])
  }

  /** Value v occurs in the k-by-k box whose top-left cell is (sr, sc). */
  predicate BoxHas(g: seq<seq<int>>, n: nat, sr: nat, sc: nat, k: nat, v: int)
    requires IsSquare(g, n)
  {
    exists i, j :: sr <= i < sr + k && sc <= j < sc + k && i < n && j < n && g[i][j] == v
  }

  /** Every row, column and box contains every value from 1 to n: a solved
      puzzle in the usual sense. */
  predicate Solved(g: seq<seq<int>>, n: nat, k: nat)
    requires IsSquare(g, n) && Tiles(n, k)
  {
    && (forall r, v :: 0 <= r < n && 1 <= v <= n ==> v in g[r])
    && (forall c, v :: 0 <= c < n && 1 <= v <= n ==> v in Column(g, n, c))
    && (forall r, c, v :: 0 <= r < n && 0 <= c < n && 1 <= v <= n ==>
          BoxHas(g, n, BoxOrigin(r, k), BoxOrigin(c, k), k, v))
  }

  /** The values from 1 to n. */
  function ValueSet(n: nat): (vs: set<int>)
    ensures forall w :: w in vs <==> 1 <= w <= n
  {
    if n == 0 then {} else ValueSet(n - 1) + {n}
  }

  lemma {:induction false} ValueSetCard(n: nat)
    ensures |ValueSet(n)| == n
  {
    if n > 0 {
      ValueSetCard(n - 1);
      assert n !in ValueSet(n - 1);
    }
  }

  lemma {:induction false} SeqSetCard(s: seq<int>)
    ensures |set x | x in s| <= |s|
  {
    if s != [] {
      SeqSetCard(s[1..]);
      assert (set x | x in s) == {s[0]} + (set x | x in s[1..]);
    }
  }

  /** A sequence that contains every value from 1 to n has at least n elements. */
  lemma Pigeonhole(s: seq<int>, n: nat)
    requires forall w :: 1 <= w <= n ==> w in s
    ensures n <= |s|
  {
    var values := ValueSet(n);
    var held := set x | x in s;
    assert values <= held;
    assert held == values + (held - values);
    assert values * (held - values) == {};
    ValueSetCard(n);
    SeqSetCard(s);
  }

  /** A row of n cells that contains every value from 1 to n has all its
      cells in range. */
  lemma FullRowInRange(row: seq<int>, n: nat)
    requires |row| == n
    requires forall w :: 1 <= w <= n ==> w in row
    ensures forall j :: 0 <= j < n ==> 1 <= row[j] <= n
  {
    forall p | 0 <= p < n
      ensures 1 <= row[p] <= n
    {
      if !(1 <= row[p] <= n) {
        var rest := row[..p] + row[p + 1..];
        forall w | 1 <= w <= n
          ensures w in rest
        {
          assert w in row;
          var q :| 0 <= q < n && row[q] == w;
          if q < p {
            assert rest[q] == w;
          } else {
            assert rest[q - 1] == w;
          }
        }
        Pigeonhole(rest, n);
      }
    }
  }

  /** `isCorrect` never rejects a genuine solution. */
  lemma SolvedIsCorrect(g: seq<seq<int>>, n: nat, k: nat)
    requires IsSquare(g, n) && Tiles(n, k)
    requires Solved(g, n, k)
    ensures AllInRange(g, n)
  {
    forall i | 0 <= i < n
      ensures forall j :: 0 <= j < n ==> 1 <= g[i][j] <= n
    {
      FullRowInRange(g[i], n);
    }
  }

  // ----------------------------------------------------- the solution check

  /** `verifyResult` of the solver's tests: the result passes `isCorrect`,
      has the puzzle's side and keeps every clue (non-zero cell) of the
      puzzle. An accepted result has no empty cell left. */
  predicate AcceptedSolution(puzzle: GridValue, result: GridValue): (ok: bool)
    requires IsSquare(puzzle.cells, puzzle.size) && IsSquare(result.cells, result.size)
    ensures ok ==> NoEmpty(result.cells, result.size)
  {
    && AllInRange(result.cells, result.size)
    && puzzle.size == result.size
    && forall i, j :: 0 <= i < puzzle.size && 0 <= j < puzzle.size && puzzle.cells[i][j] != 0 ==>
         result.cells[i][j] == puzzle.cells[i][j]
  }

  /** A genuine solution that keeps the clues passes the check. */
  lemma SolvedIsAccepted(puzzle: GridValue, result: GridValue, k: nat)
    requires IsSquare(puzzle.cells, puzzle.size) && IsSquare(result.cells, result.size)
    requires Tiles(result.size, k) && Solved(result.cells, result.size, k)
    requires puzzle.size == result.size
    requires forall i, j :: 0 <= i < puzzle.size && 0 <= j < puzzle.size && puzzle.cells[i][j] != 0 ==>
               result.cells[i][j] == puzzle.cells[i][j]
    ensures AcceptedSolution(puzzle, result)
  {
    SolvedIsCorrect(result.cells, result.size, k);
  }

  /** The check also passes results that are no solution: for the empty
      puzzle of any side n >= 2, the table of all 1s. */
  lemma AcceptsNonSolution(n: nat, k: nat)
    requires Tiles(n, k) && n >= 2
    ensures var puzzle := GridValue(n, k, Zeros(n));
            var result := GridValue(n, k, seq(n, _ => seq(n, _ => 1)));
            AcceptedSolution(puzzle, result) && !NoDuplicates(result.cells, n, k)
  {
    CorrectAcceptsDuplicates(n, k);
  }
}
