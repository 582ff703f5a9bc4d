/** The grid as a value: a square table of cell values (0 means empty), the
    text decoding that the string constructor performs, and the compact text
    produced by `toSimpleString`, with the round-trip properties that relate
    the two. */
module Cells {
  import opened Arith
  import opened Text

  datatype Option<T> = None | Some(value: T)

  /** The observable state of a grid object: its side, its box side and its
      cells, row by row. */
  datatype GridValue = GridValue(size: nat, sqrSize: nat, cells: seq<seq<int>>)

  predicate IsSquare(g: seq<seq<int>>, n: nat)
  {
    |g| == n && forall i :: 0 <= i < n ==> |g[i]| == n
  }

  /** Two square tables of the same side are equal when they agree cell by cell. */
  lemma SquareExtensional(g: seq<seq<int>>, h: seq<seq<int>>, n: nat)
    requires IsSquare(g, n) && IsSquare(h, n)
    requires forall i, j :: 0 <= i < n && 0 <= j < n ==> g[i][j] == h[i][j]
    ensures g == h
  {
    forall i | 0 <= i < n
      ensures g[i] == h[i]
    {
      assert forall j :: 0 <= j < n ==> g[i][j] == h[i][j];
    }
  }

  /** The table of a freshly allocated grid: every cell 0. */
  function Zeros(n: nat): (g: seq<seq<int>>)
    ensures IsSquare(g, n)
    ensures forall i, j :: 0 <= i < n && 0 <= j < n ==> g[i][j] == 0
  {
    seq(n, _ => seq(n, _ => 0))
  }

  // ---------------------------------------------------------------- decoding

  /** The value one input character writes into its cell, or None when the
      character is left without effect. '.' is 0; the filter `c > '1'` admits
      '2' to '9' only, so '1' is not decoded; the hexadecimal letters count
      only for a 16-by-16 grid. */
  function CharValue(ch: char, hex: bool): (r: Option<int>)
    ensures r.Some? ==> 0 <= r.value <= (if hex then 15 else 9) && r.value != 1
    ensures r == Some(0) <==> ch == '.'
  {
    if ch == '.' then Some(0)
    else if '1' < ch <= '9' then Some(ch as int - '0' as int)
    else if hex && 'A' <= ch <= 'F' then Some(ch as int - 'A' as int + 10)
    else if hex && 'a' <= ch <= 'f' then Some(ch as int - 'a' as int + 10)
    else None
  }

  /** The character '1' never sets a cell, in either alphabet. */
  lemma OneIsNotDecoded(hex: bool)
    ensures CharValue('1', hex) == None
  {
  }

  /** Which characters set which value: decimal digits 2-9, and for
      hexadecimal grids both cases of the letters A-F. */
  lemma CharValueDigits(ch: char, hex: bool)
    ensures '2' <= ch <= '9' ==> CharValue(ch, hex) == Some(ch as int - '0' as int)
    ensures hex && 'A' <= ch <= 'F' ==> CharValue(ch, hex) == Some(ch as int - 'A' as int + 10)
    ensures hex && 'a' <= ch <= 'f' ==> CharValue(ch, hex) == Some(ch as int - 'a' as int + 10)
    ensures !hex && !('2' <= ch <= '9') && ch != '.' ==> CharValue(ch, hex) == None
  {
  }

  /** The value of a cell after the character at flat position k has been
      read over a cell holding `prior`; positions past the input keep it. */
  function DecodeAt(prior: int, s: string, k: nat, hex: bool): int
  {
    if k < |s| && CharValue(s[k], hex).Some? then CharValue(s[k], hex).value else prior
  }

  /** The table after `fillSudokuCell` (hex false) or `fillHexadokuCell` (hex
      true) has read s over g: character k goes to cell (k / n, k % n). */
  function Filled(g: seq<seq<int>>, n: nat, s: string, hex: bool): (h: seq<seq<int>>)
    requires IsSquare(g, n)
    ensures IsSquare(h, n)
    ensures forall i, j :: 0 <= i < n && 0 <= j < n ==> h[i][j] == DecodeAt(g[i][j], s, Flat(i, j, n), hex)
  {
    seq(n, i requires 0 <= i < n => seq(n, j requires 0 <= j < n => DecodeAt(g[i][j], s, Flat(i, j, n), hex)))
  }

  /** The grid built by the string constructor: trailing blanks are trimmed,
      the side is the integer square root of the remaining length and the box
      side the integer square root of that; only sides 4, 9 and 16 are
      filled, every other side stays all 0. */
  function Parse(input: string): GridValue
  {
    Decode(TrimRight(input, ' '))
  }

  /** The grid built from an already trimmed line t. */
  function Decode(t: string): (b: GridValue)
    ensures b.size * b.size <= |t| && IsSquare(b.cells, b.size)
  {
    var n := FloorSqrt(|t|);
    var cells :=
      if n == 4 || n == 9 then Filled(Zeros(n), n, t, false)
      else if n == 16 then Filled(Zeros(n), n, t, true)
      else Zeros(n);
    GridValue(n, FloorSqrt(n), cells)
  }

  /** The value a character gives its cell in a freshly built grid of side n. */
  function DecodedValue(ch: char, n: nat): int
  {
    var v := CharValue(ch, n == 16);
    if (n == 4 || n == 9 || n == 16) && v.Some? then v.value else 0
  }

  /** Decoding cell by cell: the cell (i, j) holds the value of character
      i * n + j of the trimmed line, or 0 when that character is not
      recognised or the side is not 4, 9 or 16. Only the first n * n
      characters reach a cell. */
  lemma DecodeCell(t: string, i: nat, j: nat)
    requires i < Decode(t).size && j < Decode(t).size
    ensures var n := Decode(t).size;
            Flat(i, j, n) < n * n <= |t| &&
            Decode(t).cells[i][j] == DecodedValue(t[Flat(i, j, n)], n)
  {
    var n := Decode(t).size;
    FlatIndexBound(i, j, n, n);
  }

  /** A side other than 4, 9 or 16 leaves every cell 0, and the sides always
      satisfy sqrSize * sqrSize <= size < |trimmed input| + 1. */
  lemma ParseUnsupportedSide(input: string)
    ensures var b := Parse(input);
            IsSquare(b.cells, b.size) &&
            b.size * b.size <= |TrimRight(input, ' ')| &&
            b.sqrSize * b.sqrSize <= b.size &&
            (b.size != 4 && b.size != 9 && b.size != 16 ==>
               forall i, j :: 0 <= i < b.size && 0 <= j < b.size ==> b.cells[i][j] == 0)
  {
  }

  // ------------------------------------------------------------ compact text

  /** The compact text of one cell: "." for 0, otherwise `std::to_string`. */
  function CellText(v: int): string
  {
    if v == 0 then "." else IntText(v)
  }

  function RowText(row: seq<int>): string
  {
    if row == [] then "" else CellText(row[0]) + RowText(row[1..])
  }

  /** The compact text of a table: every cell in row-major order. */
  function GridText(g: seq<seq<int>>): string
  {
    if g == [] then "" else RowText(g[0]) + GridText(g[1..])
  }

  /** The compact text of a row is the text of its first j cells followed
      by the text of the rest; the same holds for a table and its rows. */
  lemma {:induction false} RowTextSplit(row: seq<int>, j: nat)
    requires j <= |row|
    ensures RowText(row) == RowText(row[..j]) + RowText(row[j..])
  {
    if j == 0 {
      assert row[..0] == [] && row[0..] == row;
    } else {
      var tail := row[1..];
      RowTextSplit(tail, j - 1);
      assert row[..j][0] == row[0] && row[..j][1..] == tail[..j - 1];
      assert tail[j - 1..] == row[j..];
      ConcatAssoc(CellText(row[0]), RowText(tail[..j - 1]), RowText(row[j..]));
    }
  }

  lemma {:induction false} GridTextSplit(g: seq<seq<int>>, i: nat)
    requires i <= |g|
    ensures GridText(g) == GridText(g[..i]) + GridText(g[i..])
  {
    if i == 0 {
      assert g[..0] == [] && g[0..] == g;
    } else {
      var tail := g[1..];
      GridTextSplit(tail, i - 1);
      assert g[..i][0] == g[0] && g[..i][1..] == tail[..i - 1];
      assert tail[i - 1..] == g[i..];
      ConcatAssoc(RowText(g[0]), GridText(tail[..i - 1]), GridText(g[i..]));
    }
  }

  /** The text of a row prefix grows by one cell at a time. */
  lemma RowTextStep(row: seq<int>, j: nat)
    requires j < |row|
    ensures RowText(row[..j + 1]) == RowText(row[..j]) + CellText(row[j])
  {
    RowTextSplit(row[..j + 1], j);
    assert row[..j + 1][..j] == row[..j] && row[..j + 1][j..] == [row[j]];
    assert RowText([row[j]]) == CellText(row[j]) + RowText([]);
  }

  /** The text of a table prefix grows by one row at a time: by the text of
      all n cells of the next row. */
  lemma GridTextStep(g: seq<seq<int>>, i: nat, n: nat)
    requires i < |g| && |g[i]| == n
    ensures GridText(g[..i + 1]) == GridText(g[..i]) + RowText(g[i][..n])
  {
    GridTextSplit(g[..i + 1], i);
    assert g[..i + 1][..i] == g[..i] && g[..i + 1][i..] == [g[i]];
    assert GridText([g[i]]) == RowText(g[i]) + GridText([]);
    assert g[i][..n] == g[i];
  }

  /** Cells whose text is a single character. */
  predicate DigitCells(g: seq<seq<int>>, n: nat)
    requires IsSquare(g, n)
  {
    forall i, j :: 0 <= i < n && 0 <= j < n ==> 0 <= g[i][j] <= 9
  }

  /** The single character written for a cell value from 0 to 9. */
  function CellChar(v: int): (ch: char)
    requires 0 <= v <= 9
    ensures ch == '.' <==> v == 0
  {
    if v == 0 then '.' else DigitChar(v)
  }

  lemma {:induction false} RowTextDigits(row: seq<int>)
    requires forall j :: 0 <= j < |row| ==> 0 <= row[j] <= 9
    ensures |RowText(row)| == |row|
    ensures forall j :: 0 <= j < |row| ==> RowText(row)[j] == CellChar(row[j])
  {
    if row != [] {
      RowTextDigits(row[1..]);
    }
  }

  /** With single-character cells the compact text of an m-by-n table has one
      character per cell: cell (i, j) is character i * n + j, and it is '.'
      exactly for 0. */
  lemma {:induction false} GridTextDigits(g: seq<seq<int>>, m: nat, n: nat)
    requires |g| == m
    requires forall i :: 0 <= i < m ==> |g[i]| == n
    requires forall i, j :: 0 <= i < m && 0 <= j < n ==> 0 <= g[i][j] <= 9
    ensures |GridText(g)| == m * n
    ensures forall i, j :: 0 <= i < m && 0 <= j < n ==>
              Flat(i, j, n) < m * n && GridText(g)[Flat(i, j, n)] == CellChar(g[i][j])
  {
    if m > 0 {
      RowTextDigits(g[0]);
      GridTextDigits(g[1..], m - 1, n);
      assert (m - 1) * n + n == m * n;
      forall i, j | 0 <= i < m && 0 <= j < n
        ensures Flat(i, j, n) < m * n && GridText(g)[Flat(i, j, n)] == CellChar(g[i][j])
      {
        FlatIndexBound(i, j, m, n);
        if i > 0 {
          FlatIndexBound(i - 1, j, m - 1, n);
          assert Flat(i, j, n) == n + Flat(i - 1, j, n);
          assert g[1..][i - 1] == g[i];
        }
      }
    }
  }

  /** A table whose values are all 1 with 1 replaced by 0. */
  function ClearOnes(g: seq<seq<int>>, n: nat): (h: seq<seq<int>>)
    requires IsSquare(g, n)
    ensures IsSquare(h, n)
    ensures forall i, j :: 0 <= i < n && 0 <= j < n ==> h[i][j] == if g[i][j] == 1 then 0 else g[i][j]
  {
    seq(n, i requires 0 <= i < n => seq(n, j requires 0 <= j < n => if g[i][j] == 1 then 0 else g[i][j]))
  }

  /** Re-parsing the compact text of a 4-by-4, 9-by-9 or 16-by-16 table whose
      values are 0 to 9 gives back the same side and every cell, except that
      each 1 comes back as 0 (the decoder skips '1'). */
  lemma ParseGridText(g: seq<seq<int>>, n: nat)
    requires n == 4 || n == 9 || n == 16
    requires IsSquare(g, n) && DigitCells(g, n)
    ensures Parse(GridText(g)) == GridValue(n, FloorSqrt(n), ClearOnes(g, n))
  {
    var t := GridText(g);
    GridTextDigits(g, n, n);
    GridTextNoBlank(g);
    FloorSqrtOfSquare(n);
    assert Parse(t) == Decode(t);
    var b := Decode(t);
    assert b.size == n;
    forall i, j | 0 <= i < n && 0 <= j < n
      ensures b.cells[i][j] == ClearOnes(g, n)[i][j]
    {
      DecodeDigit(t, n, i, j, g[i][j]);
    }
    SquareExtensional(b.cells, ClearOnes(g, n), n);
  }

  /** A cell whose character is the text of digit v decodes to v, except that
      '1' decodes to an empty cell. */
  lemma DecodeDigit(t: string, n: nat, i: nat, j: nat, v: int)
    requires n == 4 || n == 9 || n == 16
    requires Decode(t).size == n && i < n && j < n && 0 <= v <= 9
    requires Flat(i, j, n) < |t| && t[Flat(i, j, n)] == CellChar(v)
    ensures Decode(t).cells[i][j] == if v == 1 then 0 else v
  {
    DecodeCell(t, i, j);
    DecodeCellChar(v, n);
  }

  lemma DecodeCellChar(v: int, n: nat)
    requires n == 4 || n == 9 || n == 16
    requires 0 <= v <= 9
    ensures DecodedValue(CellChar(v), n) == if v == 1 then 0 else v
  {
  }

  /** Hence the compact text is a faithful serialisation of such a table
      exactly when no cell holds 1. */
  lemma RoundTripIffNoOne(g: seq<seq<int>>, n: nat)
    requires n == 4 || n == 9 || n == 16
    requires IsSquare(g, n) && DigitCells(g, n)
    ensures Parse(GridText(g)) == GridValue(n, FloorSqrt(n), g) <==>
            forall i, j :: 0 <= i < n && 0 <= j < n ==> g[i][j] != 1
  {
    ParseGridText(g, n);
    if Parse(GridText(g)) == GridValue(n, FloorSqrt(n), g) {
      assert ClearOnes(g, n) == g;
      forall i, j | 0 <= i < n && 0 <= j < n
        ensures g[i][j] != 1
      {
        assert ClearOnes(g, n)[i][j] == g[i][j];
      }
    } else {
      if forall i, j :: 0 <= i < n && 0 <= j < n ==> g[i][j] != 1 {
        SquareExtensional(ClearOnes(g, n), g, n);
      }
    }
  }

  /** For any other side the decoder fills nothing, so a table of digits
      comes back only when it is empty. */
  lemma UnsupportedSideRoundTrip(g: seq<seq<int>>, n: nat)
    requires n != 4 && n != 9 && n != 16
    requires IsSquare(g, n) && DigitCells(g, n)
    ensures Parse(GridText(g)) == GridValue(n, FloorSqrt(n), g) <==>
            forall i, j :: 0 <= i < n && 0 <= j < n ==> g[i][j] == 0
  {
    var t := GridText(g);
    NarrowGridTextLength(g, n, n);
    GridTextNoBlank(g);
    FloorSqrtOfSquare(n);
    ParseUnsupportedSide(t);
    var b := Parse(t);
    assert b.size == n;
    if forall i, j :: 0 <= i < n && 0 <= j < n ==> g[i][j] == 0 {
      SquareExtensional(b.cells, g, n);
    } else {
      var i, j :| 0 <= i < n && 0 <= j < n && g[i][j] != 0;
      assert b.cells[i][j] != g[i][j];
    }
  }

  /** Every cell takes at least one character, and a cell outside 0 to 9
      takes more than one. */
  lemma {:induction false} RowTextLength(row: seq<int>)
    ensures |RowText(row)| >= |row|
    ensures (exists j :: 0 <= j < |row| && (row[j] < 0 || row[j] >= 10)) ==> |RowText(row)| > |row|
  {
    if row != [] {
      RowTextLength(row[1..]);
      if exists j :: 0 <= j < |row| && (row[j] < 0 || row[j] >= 10) {
        var j :| 0 <= j < |row| && (row[j] < 0 || row[j] >= 10);
        if j > 0 {
          assert row[1..][j - 1] == row[j];
        }
      }
    }
  }

  lemma {:induction false} GridTextLength(g: seq<seq<int>>, n: nat)
    requires forall i :: 0 <= i < |g| ==> |g[i]| == n
    ensures |GridText(g)| >= |g| * n
    ensures (exists i, j :: 0 <= i < |g| && 0 <= j < n && (g[i][j] < 0 || g[i][j] >= 10)) ==>
              |GridText(g)| > |g| * n
  {
    if g != [] {
      RowTextLength(g[0]);
      GridTextLength(g[1..], n);
      assert (|g| - 1) * n + n == |g| * n;
      if exists i, j :: 0 <= i < |g| && 0 <= j < n && (g[i][j] < 0 || g[i][j] >= 10) {
        var i, j :| 0 <= i < |g| && 0 <= j < n && (g[i][j] < 0 || g[i][j] >= 10);
        if i > 0 {
          assert g[1..][i - 1][j] == g[i][j];
        }
      }
    }
  }

  /** The compact text holds no blank, so trimming leaves it as it is. */
  lemma {:induction false} RowTextNoBlank(row: seq<int>)
    ensures forall k :: 0 <= k < |RowText(row)| ==> RowText(row)[k] != ' '
  {
    if row != [] {
      RowTextNoBlank(row[1..]);
    }
  }

  lemma {:induction false} GridTextNoBlank(g: seq<seq<int>>)
    ensures forall k :: 0 <= k < |GridText(g)| ==> GridText(g)[k] != ' '
    ensures TrimRight(GridText(g), ' ') == GridText(g)
  {
    if g != [] {
      RowTextNoBlank(g[0]);
      GridTextNoBlank(g[1..]);
    }
    var t := GridText(g);
    TrimRightIdempotent(t, ' ');
  }

  /** On a 16-by-16 table with values 0 to 16 the compact text is not a
      serialisation once some cell holds 10 to 16: such a value is written in
      decimal, so at the position of the first such cell the text holds '1',
      which the decoder skips. Re-parsing never gives the original grid
      back. */
  lemma WideCellBreaksRoundTrip(g: seq<seq<int>>)
    requires IsSquare(g, 16)
    requires forall i, j :: 0 <= i < 16 && 0 <= j < 16 ==> 0 <= g[i][j] <= 16
    requires exists i, j :: 0 <= i < 16 && 0 <= j < 16 && g[i][j] >= 10
    ensures Parse(GridText(g)) != GridValue(16, 4, g)
  {
    var i, j := FirstWideCell(g);
    var t := GridText(g);
    WideCellText(g, i, j);
    GridTextNoBlank(g);
    assert Parse(t) == Decode(t);
    if Decode(t).size == 16 {
      assert CellChar(1) == '1';
      DecodeDigit(t, 16, i, j, 1);
    }
  }

  /** The row-major first cell holding 10 or more. */
  lemma FirstWideCell(g: seq<seq<int>>) returns (i: nat, j: nat)
    requires IsSquare(g, 16)
    requires exists i, j :: 0 <= i < 16 && 0 <= j < 16 && g[i][j] >= 10
    ensures i < 16 && j < 16 && g[i][j] >= 10
    ensures forall a, b :: 0 <= a < i && 0 <= b < 16 ==> g[a][b] < 10
    ensures forall b :: 0 <= b < j ==> g[i][b] < 10
  {
    i := 0;
    while forall b :: 0 <= b < 16 ==> g[i][b] < 10
      invariant i < 16
      invariant forall a, b :: 0 <= a < i && 0 <= b < 16 ==> g[a][b] < 10
      decreases 16 - i
    {
      i := i + 1;
    }
    j := 0;
    while g[i][j] < 10
      invariant j < 16
      invariant forall b :: 0 <= b < j ==> g[i][b] < 10
      decreases 16 - j
    {
      j := j + 1;
    }
  }

  /** When every cell before (i, j) is a single character, the character at
      position i * 16 + j of the text is the first one of cell (i, j); for a
      value from 10 to 19 that is '1'. */
  lemma WideCellText(g: seq<seq<int>>, i: nat, j: nat)
    requires IsSquare(g, 16) && i < 16 && j < 16 && 10 <= g[i][j] <= 19
    requires forall a, b :: 0 <= a < i && 0 <= b < 16 ==> 0 <= g[a][b] <= 9
    requires forall b :: 0 <= b < j ==> 0 <= g[i][b] <= 9
    ensures Flat(i, j, 16) < |GridText(g)| && GridText(g)[Flat(i, j, 16)] == '1'
  {
    var row := g[i];
    var A, B, C, D := GridText(g[..i]), RowText(row[..j]), RowText(row[j..]), GridText(g[i + 1..]);
    NarrowGridTextLength(g[..i], i, 16);
    NarrowRowTextLength(row[..j]);
    assert C == CellText(row[j]) + RowText(row[j..][1..]);
    assert C[0] == '1';
    GridTextAt(g, i, j);
    assert ((B + C) + D)[|B|] == '1';
  }

  /** The compact text split around cell (i, j): the rows before it, the
      cells of its row before it, the cells from it to the end of its row,
      and the rows after it. */
  lemma GridTextAt(g: seq<seq<int>>, i: nat, j: nat)
    requires i < |g| && j <= |g[i]|
    ensures GridText(g) ==
            GridText(g[..i]) + ((RowText(g[i][..j]) + RowText(g[i][j..])) + GridText(g[i + 1..]))
  {
    GridTextSplit(g, i);
    RowTextSplit(g[i], j);
    assert g[i..][0] == g[i] && g[i..][1..] == g[i + 1..];
  }

  /** A table of single-character cells has one character per cell. */
  lemma NarrowGridTextLength(g: seq<seq<int>>, m: nat, n: nat)
    requires |g| == m
    requires forall i :: 0 <= i < m ==> |g[i]| == n
    requires forall i, j :: 0 <= i < m && 0 <= j < n ==> 0 <= g[i][j] <= 9
    ensures |GridText(g)| == Flat(m, 0, n)
  {
    GridTextDigits(g, m, n);
  }

  lemma NarrowRowTextLength(row: seq<int>)
    requires forall j :: 0 <= j < |row| ==> 0 <= row[j] <= 9
    ensures |RowText(row)| == |row|
  {
    RowTextDigits(row);
  }

  /** The round trip on 16-by-16 tables with values 0 to 16: the grid comes
      back exactly when no cell holds 1 and none holds 10 to 16. */
  lemma HexRoundTrip(g: seq<seq<int>>)
    requires IsSquare(g, 16)
    requires forall i, j :: 0 <= i < 16 && 0 <= j < 16 ==> 0 <= g[i][j] <= 16
    ensures Parse(GridText(g)) == GridValue(16, 4, g) <==>
            forall i, j :: 0 <= i < 16 && 0 <= j < 16 ==> g[i][j] != 1 && g[i][j] <= 9
  {
    if exists i, j :: 0 <= i < 16 && 0 <= j < 16 && g[i][j] >= 10 {
      WideCellBreaksRoundTrip(g);
    } else {
      assert DigitCells(g, 16);
      FloorSqrtOfSquare(4);
      RoundTripIffNoOne(g, 16);
    }
  }

  /** A table that survives the round trip holds only values the decoder can
      produce and the serialiser writes as one character: 0 and 2 to 9. No
      negative value, no 1 and nothing above 9 comes back. */
  lemma RoundTripOnlyDigits(g: seq<seq<int>>, n: nat)
    requires IsSquare(g, n)
    requires Parse(GridText(g)) == GridValue(n, FloorSqrt(n), g)
    ensures forall i, j :: 0 <= i < n && 0 <= j < n ==> 0 <= g[i][j] <= 9 && g[i][j] != 1
  {
    var t := GridText(g);
    GridTextNoBlank(g);
    assert Parse(t) == Decode(t);
    var b := Decode(t);
    assert b.size == n && b.cells == g;
    DecodeRange(t);
    if n == 16 {
      FloorSqrtOfSquare(4);
      HexRoundTrip(g);
    }
  }

  /** Every cell the decoder builds holds 0, or 2 to 9, or for side 16 also
      10 to 15. */
  lemma DecodeRange(t: string)
    ensures var b := Decode(t);
            forall i, j :: 0 <= i < b.size && 0 <= j < b.size ==>
              0 <= b.cells[i][j] <= (if b.size == 16 then 15 else 9) && b.cells[i][j] != 1
  {
    var b := Decode(t);
    forall i, j | 0 <= i < b.size && 0 <= j < b.size
      ensures 0 <= b.cells[i][j] <= (if b.size == 16 then 15 else 9) && b.cells[i][j] != 1
    {
      DecodeCell(t, i, j);
    }
  }

  /** The round trip in full: the compact text of a square table re-parses to
      the same grid exactly when the side is 4, 9 or 16 and every value is 0
      or 2 to 9, or the side is any other and the table is empty. */
  lemma RoundTripExactly(g: seq<seq<int>>, n: nat)
    requires IsSquare(g, n)
    ensures Parse(GridText(g)) == GridValue(n, FloorSqrt(n), g) <==>
            if n == 4 || n == 9 || n == 16
            then forall i, j :: 0 <= i < n && 0 <= j < n ==> 0 <= g[i][j] <= 9 && g[i][j] != 1
            else forall i, j :: 0 <= i < n && 0 <= j < n ==> g[i][j] == 0
  {
    if Parse(GridText(g)) == GridValue(n, FloorSqrt(n), g) {
      RoundTripOnlyDigits(g, n);
    }
    if DigitCells(g, n) {
      if n == 4 || n == 9 || n == 16 {
        RoundTripIffNoOne(g, n);
      } else {
        UnsupportedSideRoundTrip(g, n);
      }
    }
  }
}
