/** The grid object: its side, its box side and its square table of cells,
    with the operations that build, copy, compare, print and inspect it. Each
    operation is proved against the value-level definitions of the grid
    modules. */
module SudokuBoard {
  import opened Arith
  import opened Text
  import opened Cells
  import opened Rules

  class Sudoku {
    /** The side of the grid. */
    var size: nat
    /** The side of a box: the integer square root of `size`. */
    var sqrSize: nat
    /** The cells, row by row; 0 is an empty cell. */
    var cells: array2<int>

    ghost predicate Valid()
      reads this
    {
      cells.Length0 == size && cells.Length1 == size && sqrSize == FloorSqrt(size)
    }

    /** The table of cell values. */
    ghost function Grid(): (g: seq<seq<int>>)
      reads this, cells
      requires Valid()
      ensures IsSquare(g, size)
      ensures forall i, j :: 0 <= i < size && 0 <= j < size ==> g[i][j] == cells[i, j]
    {
      var a, n := cells, size;
      seq(n, i requires 0 <= i < n reads a => seq(n, j requires 0 <= j < n reads a => a[i, j]))
    }

    /** The grid as a value: side, box side and table. */
    ghost function Value(): (v: GridValue)
      reads this, cells
      requires Valid()
      ensures v.size == size && v.sqrSize == sqrSize && v.cells == Grid()
    {
      GridValue(size, sqrSize, Grid())
    }

    /** `initCells`: a fresh size-by-size table of 0s. */
    method InitCells()
      modifies this
      ensures size == old(size) && sqrSize == old(sqrSize)
      ensures fresh(cells) && cells.Length0 == size && cells.Length1 == size
      ensures forall i, j :: 0 <= i < size && 0 <= j < size ==> cells[i, j] == 0
    {
      cells := new int[size, size]((i, j) => 0);
    }

    /** The cell-by-cell copy loop shared by the array constructor, the copy
        constructor and the assignment operator. */
    method CopyCells(src: array2<int>)
      requires cells.Length0 == size && cells.Length1 == size
      requires src != cells && size <= src.Length0 && size <= src.Length1
      modifies cells
      ensures forall i, j :: 0 <= i < size && 0 <= j < size ==> cells[i, j] == src[i, j]
    {
      var i := 0;
      while i < size
        invariant 0 <= i <= size
        invariant forall u, v :: 0 <= u < i && 0 <= v < size ==> cells[u, v] == src[u, v]
      {
        var j := 0;
        while j < size
          invariant 0 <= j <= size
          invariant forall u, v :: 0 <= u < i && 0 <= v < size ==> cells[u, v] == src[u, v]
          invariant forall v :: 0 <= v < j ==> cells[i, v] == src[i, v]
        {
          cells[i, j] := src[i, j];
          j := j + 1;
        }
        i := i + 1;
      }
    }

    /** The constructor from a table: the side is `pSize`, the box side its
        integer square root, and the cells are copied from the top-left
        pSize-by-pSize corner of `arr`. */
    constructor FromArray(arr: array2<int>, pSize: nat)
      requires pSize <= arr.Length0 && pSize <= arr.Length1
      ensures Valid() && fresh(cells)
      ensures size == pSize
      ensures forall i, j :: 0 <= i < size && 0 <= j < size ==> Grid()[i][j] == arr[i, j]
      ensures size == 4 || size == 9 || size == 16 ==> Tiles(size, sqrSize)
    {
      size := pSize;
      sqrSize := FloorSqrt(pSize);
      cells := new int[0, 0];
      new;
      InitCells();
      CopyCells(arr);
      if size == 4 || size == 9 || size == 16 {
        SupportedSideTiles(size);
      }
    }

    /** The copy constructor: same sides, same cells, its own buffer. */
    constructor Copy(other: Sudoku)
      requires other.Valid()
      ensures Valid() && fresh(cells)
      ensures Value() == other.Value()
    {
      size := other.size;
      sqrSize := other.sqrSize;
      cells := new int[0, 0];
      new;
      InitCells();
      CopyCells(other.cells);
      SquareExtensional(Grid(), other.Grid(), size);
    }

    /** The body of the fill loops for one character c and cell (i, j): '.'
        empties the cell, '2' to '9' store their digit, with hex 'A' to 'F'
        and 'a' to 'f' store 10 to 15; any other character leaves it. */
    method ReadChar(c: char, i: nat, j: nat, hex: bool)
      requires i < cells.Length0 && j < cells.Length1
      modifies cells
      ensures cells[i, j] == if CharValue(c, hex).Some? then CharValue(c, hex).value else old(cells[i, j])
      ensures forall u, v :: 0 <= u < cells.Length0 && 0 <= v < cells.Length1 && (u != i || v != j) ==>
                cells[u, v] == old(cells[u, v])
    {
      CharValueDigits(c, hex);
      if c == '.' {
        cells[i, j] := 0;
      } else if '1' < c <= '9' {
        cells[i, j] := c as int - '0' as int;
      } else if hex && 'A' <= c <= 'F' {
        cells[i, j] := c as int - 'A' as int + 10;
      } else if hex && 'a' <= c <= 'f' {
        cells[i, j] := c as int - 'a' as int + 10;
      }
    }

    /** `fillSudokuCell` (hex false) and `fillHexadokuCell` (hex true): reads
        the line character by character into the cells in row-major order,
        stopping once the last cell has been read. A '.' empties its cell, '2'
        to '9' (and with hex, 'A' to 'F' and 'a' to 'f') set it, and any other
        character, '1' included, leaves it as it was. */
    method FillCells(input: string, hex: bool)
      requires Valid() && size > 0
      modifies cells
      ensures Valid()
      ensures Grid() == Filled(old(Grid()), size, input, hex)
    {
      ghost var g0 := Grid();
      ghost var h := Filled(g0, size, input, hex);
      var i, j := 0, 0;
      var p := 0;
      while p < |input|
        invariant 0 <= p <= |input|
        invariant i < size && j < size && p == Flat(i, j, size)
        invariant forall u, v :: 0 <= u < i && 0 <= v < size ==> cells[u, v] == h[u][v]
        invariant forall v :: 0 <= v < j ==> cells[i, v] == h[i][v]
        invariant forall v :: j <= v < size ==> cells[i, v] == g0[i][v]
        invariant forall u, v :: i < u < size && 0 <= v < size ==> cells[u, v] == g0[u][v]
      {
        ReadChar(input[p], i, j, hex);
        j := j + 1;
        if j >= size {
          FlatNextRow(i, size);
          i := i + 1;
          j := 0;
          if i >= size {
            break;
          }
        }
        p := p + 1;
      }
      forall u, v | 0 <= u < size && 0 <= v < size
        ensures cells[u, v] == h[u][v]
      {
        if i < size && (u > i || (u == i && v >= j)) {
          FlatOrder(i, j, u, v, size);
        }
      }
      SquareExtensional(Grid(), h, size);
    }

    /** The constructor from a line of text: trailing blanks are trimmed, the
        side is the integer square root of the remaining length, the box side
        the integer square root of the side, and the cells start at 0 and are
        filled for sides 4 and 9 (digits) and 16 (digits and hex letters). */
    constructor FromString(input: string)
      ensures Valid() && fresh(cells)
      ensures Value() == Parse(input)
      ensures size == 4 || size == 9 || size == 16 ==> Tiles(size, sqrSize)
    {
      var line := Rtrim(input, ' ');
      size := FloorSqrt(|line|);
      sqrSize := FloorSqrt(FloorSqrt(|line|));
      cells := new int[0, 0];
      new;
      InitCells();
      SquareExtensional(Grid(), Zeros(size), size);
      if size == 4 || size == 9 {
        FillCells(line, false);
      } else if size == 16 {
        FillCells(line, true);
      }
      if size == 4 || size == 9 || size == 16 {
        SupportedSideTiles(size);
      }
    }

    /** `operator=`: unless rhs is this very grid, takes over its sides and a
        fresh copy of its cells; assigning a grid to itself changes nothing. */
    method Assign(rhs: Sudoku)
      requires Valid() && rhs.Valid()
      modifies this
      ensures Valid()
      ensures Value() == old(rhs.Value())
      ensures rhs.Valid() && rhs.Value() == old(rhs.Value())
      ensures rhs == this ==> unchanged(this)
      ensures rhs != this ==> fresh(cells)
    {
      if rhs != this {
        size := rhs.size;
        sqrSize := rhs.sqrSize;
        InitCells();
        CopyCells(rhs.cells);
        SquareExtensional(Grid(), rhs.Grid(), size);
      }
    }

    /** `operator==`: equal sides and equal cells, compared row by row up to
        the first difference. The box sides then agree as well. */
    method Equals(rhs: Sudoku) returns (r: bool)
      requires Valid() && rhs.Valid()
      ensures r <==> Value() == rhs.Value()
    {
      if size != rhs.size {
        return false;
      }
      var i := 0;
      while i < size
        invariant 0 <= i <= size
        invariant forall u, v :: 0 <= u < i && 0 <= v < size ==> cells[u, v] == rhs.cells[u, v]
      {
        var j := 0;
        while j < size
          invariant 0 <= j <= size
          invariant forall v :: 0 <= v < j ==> cells[i, v] == rhs.cells[i, v]
        {
          if cells[i, j] != rhs.cells[i, j] {
            assert Grid()[i][j] != rhs.Grid()[i][j];
            return false;
          }
          j := j + 1;
        }
        i := i + 1;
      }
      SquareExtensional(Grid(), rhs.Grid(), size);
      return true;
    }

    /** `toSimpleString`: every cell in row-major order, "." for an empty one
        and the decimal text of its value otherwise. */
    method ToSimpleString() returns (s: string)
      requires Valid()
      ensures s == GridText(Grid())
    {
      ghost var g := Grid();
      s := "";
      var row := 0;
      while row < size
        invariant 0 <= row <= size
        invariant s == GridText(g[..row])
      {
        ghost var prefix := s;
        var col := 0;
        while col < size
          invariant 0 <= col <= size
          invariant s == prefix + RowText(g[row][..col])
        {
          RowTextStep(g[row], col);
          ghost var before := s;
          if cells[row, col] == 0 {
            s := s + ".";
          } else {
            s := s + IntText(cells[row, col]);
          }
          assert s == before + CellText(g[row][col]);
          ConcatAssoc(prefix, RowText(g[row][..col]), CellText(g[row][col]));
          col := col + 1;
        }
        GridTextStep(g, row, size);
        row := row + 1;
      }
      assert g[..size] == g;
    }

    /** `isIncomplete`: some cell is empty. */
    method IsIncomplete() returns (r: bool)
      requires Valid()
      ensures r <==> HasEmpty(Grid(), size)
    {
      var i := 0;
      while i < size
        invariant 0 <= i <= size
        invariant forall u, v :: 0 <= u < i && 0 <= v < size ==> cells[u, v] != 0
      {
        var j := 0;
        while j < size
          invariant 0 <= j <= size
          invariant forall v :: 0 <= v < j ==> cells[i, v] != 0
        {
          if cells[i, j] == 0 {
            assert Grid()[i][j] == 0;
            return true;
          }
          j := j + 1;
        }
        i := i + 1;
      }
      return false;
    }

    /** `isComplete`: no cell is empty. */
    method IsComplete() returns (r: bool)
      requires Valid()
      ensures r <==> NoEmpty(Grid(), size)
    {
      var incomplete := IsIncomplete();
      CompleteIsNotIncomplete(Grid(), size);
      return !incomplete;
    }

    /** `safeInRow`: num occurs nowhere in the row. */
    method SafeInRow(row: nat, num: int) returns (r: bool)
      requires Valid() && row < size
      ensures r <==> NotInRow(Grid(), size, row, num)
    {
      var i := 0;
      while i < size
        invariant 0 <= i <= size
        invariant forall v :: 0 <= v < i ==> cells[row, v] != num
      {
        if cells[row, i] == num {
          assert Grid()[row][i] == num;
          return false;
        }
        i := i + 1;
      }
      return true;
    }

    /** `safeInCol`: num occurs nowhere in the column. */
    method SafeInCol(col: nat, num: int) returns (r: bool)
      requires Valid() && col < size
      ensures r <==> NotInCol(Grid(), size, col, num)
    {
      var i := 0;
      while i < size
        invariant 0 <= i <= size
        invariant forall u :: 0 <= u < i ==> cells[u, col] != num
      {
        if cells[i, col] == num {
          assert Grid()[i][col] == num;
          return false;
        }
        i := i + 1;
      }
      return true;
    }

    /** `safeInSqr`: num occurs nowhere in the sqrSize-by-sqrSize box whose
        top-left cell is (startRow, startCol). */
    method SafeInSqr(startRow: nat, startCol: nat, num: int) returns (r: bool)
      requires Valid() && startRow + sqrSize <= size && startCol + sqrSize <= size
      ensures r <==> NotInBox(Grid(), size, startRow, startCol, sqrSize, num)
    {
      var endRow, endCol := startRow + sqrSize, startCol + sqrSize;
      var i := startRow;
      while i < endRow
        invariant startRow <= i <= endRow
        invariant forall u, v :: startRow <= u < i && startCol <= v < endCol ==> cells[u, v] != num
      {
        var j := startCol;
        while j < endCol
          invariant startCol <= j <= endCol
          invariant forall v :: startCol <= v < j ==> cells[i, v] != num
        {
          if cells[i, j] == num {
            assert Grid()[i][j] == num;
            return false;
          }
          j := j + 1;
        }
        i := i + 1;
      }
      return true;
    }

    /** `cellIsEmpty`: the cell holds 0. */
    method CellIsEmpty(row: nat, col: nat) returns (r: bool)
      requires Valid() && row < size && col < size
      ensures r <==> Grid()[row][col] == 0
    {
      return cells[row, col] == 0;
    }

    /** `isSafe`: the cell is empty and num is safe in its row, its column and
        the box that holds it; the checks stop at the first that fails. */
    method IsSafe(row: nat, col: nat, num: int) returns (r: bool)
      requires Valid() && row < size && col < size
      requires Tiles(size, sqrSize) ||
               !(Grid()[row][col] == 0 && NotInRow(Grid(), size, row, num) && NotInCol(Grid(), size, col, num))
      ensures Tiles(size, sqrSize) ==> (r <==> SafeAt(Grid(), size, sqrSize, row, col, num))
      ensures !Tiles(size, sqrSize) ==> !r
    {
      var empty := CellIsEmpty(row, col);
      if !empty {
        return false;
      }
      r := SafeInRow(row, num);
      if r {
        r := SafeInCol(col, num);
      }
      if r {
        BoxFitsTiling(row, sqrSize, size);
        BoxFitsTiling(col, sqrSize, size);
        r := SafeInSqr(row - row % sqrSize, col - col % sqrSize, num);
      }
    }

    /** `correctInRow`: for each value from 1 to size in turn, scans the row
        up to the first cell holding it, failing at any cell outside 1 to size.
        Every cell before the first occurrence of each value is range-checked,
        and a row in which every value occurs has no room for a value out of
        range, so the check succeeds exactly when the whole row is in range. */
    method CorrectInRow(row: nat) returns (r: bool)
      requires Valid() && row < size
      ensures r <==> RowInRange(Grid(), size, row)
    {
      ghost var g := Grid();
      var val := 1;
      while val <= size
        invariant 1 <= val <= size + 1
        invariant RowInRange(g, size, row) || forall w :: 1 <= w < val ==> w in g[row]
      {
        var i := 0;
        while i < size
          invariant 0 <= i <= size
          invariant forall p :: 0 <= p < i ==> 1 <= g[row][p] <= size
        {
          var checkVal := cells[row, i];
          if checkVal <= 0 || checkVal > size {
            assert !(1 <= g[row][i] <= size);
            return false;
          }
          if checkVal == val {
            assert g[row][i] == val;
            break;
          }
          i := i + 1;
        }
        val := val + 1;
      }
      if !RowInRange(g, size, row) {
        FullRowInRange(g[row], size);
      }
      return true;
    }

    /** `correctInCol`: the same scan down a column. */
    method CorrectInCol(col: nat) returns (r: bool)
      requires Valid() && col < size
      ensures r <==> ColInRange(Grid(), size, col)
    {
      ghost var g := Grid();
      ghost var column := Column(g, size, col);
      var val := 1;
      while val <= size
        invariant 1 <= val <= size + 1
        invariant ColInRange(g, size, col) || forall w :: 1 <= w < val ==> w in column
      {
        var i := 0;
        while i < size
          invariant 0 <= i <= size
          invariant forall p :: 0 <= p < i ==> 1 <= column[p] <= size
        {
          var checkVal := cells[i, col];
          if checkVal <= 0 || checkVal > size {
            assert !(1 <= column[i] <= size);
            return false;
          }
          if checkVal == val {
            assert column[i] == val;
            break;
          }
          i := i + 1;
        }
        val := val + 1;
      }
      if !ColInRange(g, size, col) {
        FullRowInRange(column, size);
      }
      return true;
    }

    /** `correctInSqr`: for each value from 1 to size in turn, scans the box
        in row-major order, failing at any cell outside 1 to size; the scan of
        a row stops at the first cell holding the value, and once the value has
        been seen only the first cell of each later row is looked at. The first
        pass (value 1) therefore looks at every cell up to the first 1 and at
        the first column; if the box holds no 1 it looks at every cell, whose
        values are then all in range, and the later passes cannot fail. */
    method CorrectInSqr(startRow: nat, startCol: nat) returns (r: bool)
      requires Valid() && startRow + sqrSize <= size && startCol + sqrSize <= size
      ensures r <==> BoxScanInRange(Grid(), size, startRow, startCol, sqrSize)
    {
      ghost var g := Grid();
      ghost var n, k := size, sqrSize;
      var endRow, endCol := startRow + sqrSize, startCol + sqrSize;
      var val := 1;
      while val <= size
        invariant 1 <= val <= size + 1
        invariant val > 1 ==> BoxScanInRange(g, n, startRow, startCol, k)
        invariant val > 1 ==> BoxClean(g, n, startRow, startCol, k)
      {
        var numExist := false;
        var i := startRow;
        while i < endRow
          invariant startRow <= i <= endRow
          invariant val == 1 ==> (numExist <==> !NoOneBefore(g, n, startRow, startCol, k, i, startCol))
          invariant val == 1 ==> ExaminedInRange(g, n, startRow, startCol, k, i)
        {
          ghost var had := numExist;
          var j := startCol;
          while j < endCol
            invariant startCol <= j <= endCol
            invariant had ==> j == startCol && numExist
            invariant !had ==> !numExist
            invariant val == 1 && !had ==> forall b :: startCol <= b < j ==> g[i][b] != 1 && 1 <= g[i][b] <= n
          {
            var checkVal := cells[i, j];
            if checkVal <= 0 || checkVal > size {
              ScanFailure(g, n, startRow, startCol, k, i, j, had);
              return false;
            }
            if checkVal == val {
              numExist := true;
            }
            if numExist {
              break;
            }
            j := j + 1;
          }
          if val == 1 {
            RowScanned(g, n, startRow, startCol, k, i, j, had, numExist);
          }
          i := i + 1;
        }
        if numExist {
          break;
        }
        if val == 1 {
          ScanWithoutOne(g, n, startRow, startCol, k);
        }
        val := val + 1;
      }
      return true;
    }

    /** `isCorrect`: every row and every column must pass its check, then
        every box, the boxes starting at multiples of sqrSize. A grid whose
        cells are all in range passes every box check, so the whole check
        comes down to every cell holding a value from 1 to size: it rejects a
        value out of range but accepts repeated values. */
    method IsCorrect() returns (r: bool)
      requires Valid() && (size == 0 || Tiles(size, sqrSize) || !AllInRange(Grid(), size))
      ensures r <==> AllInRange(Grid(), size)
    {
      ghost var g := Grid();
      var i := 0;
      while i < size
        invariant 0 <= i <= size
        invariant forall a, b :: 0 <= a < i && 0 <= b < size ==> 1 <= g[a][b] <= size
      {
        var rowOk := CorrectInRow(i);
        if !rowOk {
          return false;
        }
        var colOk := CorrectInCol(i);
        if !colOk {
          return false;
        }
        i := i + 1;
      }
      i := 0;
      while i < size
        invariant size > 0 ==> i % sqrSize == 0
      {
        TileStep(i, sqrSize, size);
        var j := 0;
        while j < size
          invariant size > 0 ==> j % sqrSize == 0
        {
          TileStep(j, sqrSize, size);
          var boxOk := CorrectInSqr(i, j);
          AllInRangeChecks(g, size, i, j, sqrSize);
          if !boxOk {
            return false;
          }
          j := j + sqrSize;
        }
        i := i + sqrSize;
      }
      return true;
    }
  }
}
