# Sudoku grid model

A Dafny model of the `Sudoku` grid class of `src/Sudoku.cpp`. The class
holds an N-by-N board of small integers, where 0 means an empty cell. The
tests build a `SudokuSolver` from a `Sudoku` (src/SudokuSolver_test.cpp:10-11)
and check its results with the grid's own checks. The model covers these
parts of the class:

- building a grid from a table, from a line of text, or as a copy;
- assigning one grid to another and comparing two grids;
- decoding the text line;
- the compact serialiser `toSimpleString`;
- the feasibility oracle `isSafe` and its row, column and box parts;
- the whole-grid checks `isIncomplete`, `isComplete`, `isCorrect` and the
  `correctIn*` helpers behind `isCorrect`.

Layout:

- `arith.dfy` (module `Arith`): the integer square root that stands for the
  `static_cast<int>(sqrt(...))` sizing, and facts about the box origin
  `x - x % k`.
- `text.dfy` (module `Text`): `rtrim`, and the decimal text that
  `std::to_string` gives an `int`.
- `cells.dfy` (module `Cells`): a grid as a value (`GridValue`: side, box
  side, table), and the decoding performed by the string constructor
  (`Parse`). It also holds the compact text (`GridText`) and the round-trip
  theorems that relate the two.
- `rules.dfy` (module `Rules`): what the feasibility and correctness checks
  compute, stated on the table, plus the lemmas that connect them:
  - safe placement keeps a grid free of duplicates;
  - `isCorrect` is a range check;
  - the solution check of the tests.
- `sudoku.dfy` (module `SudokuBoard`): the class `Sudoku`. Its fields are
  `size`, `sqrSize` and an `array2<int>` of cells. The constructors,
  `operator=`, `operator==`, `toSimpleString` and the checks are methods of
  the class. Where the C++ loops, so does the method, except `InitCells`:
  the C++ allocates the rows one by one in a loop, while `InitCells`
  allocates the whole table at once. Each method is proved
  against the functions of the other modules. `rtrim` is the method
  `Text.Rtrim`, outside the class. The destructor and the bordered
  renderers are left out (see below).

Several behaviours of the code are easy to misread. The model states each
one as the code has it:

- **Correctness check.** The tests take `isCorrect` as the proof that the
  solver found a solution. They assert it for every solver result
  (src/SudokuSolver_test.cpp:18-21) and as the first test of `verifyResult`
  (src/SudokuSolver_test.cpp:236). Yet `correctInRow`, `correctInCol` and
  `correctInSqr` (src/Sudoku.cpp:275-322) only check that values lie in
  [1, size]. Repeated values pass (`Rules.CorrectAcceptsDuplicates`,
  `Rules.AcceptsNonSolution`).
- **Decoding '1'.** The fill loops accept a digit only when `c > '1'`
  (src/Sudoku.cpp:132, :147). A '1' in the input therefore sets no cell,
  exactly like an unknown character (`Cells.OneIsNotDecoded`). A puzzle
  cannot give 1 as a clue.
- **Side of a text grid.** The string constructor computes the side as
  `static_cast<int>(sqrt(length))` (src/Sudoku.cpp:50). The cast truncates,
  so the side is the integer square root rounded down (`Arith.FloorSqrt`).
  The extra characters of a length that is not a square are ignored.
- **Compact text.** `toSimpleString` (src/Sudoku.cpp:221-230) writes each
  value with `std::to_string`, that is in decimal, also on 16-by-16 grids.
  The tests print it for the hexadoku puzzles too
  (src/SudokuSolver_test.cpp:145). The string constructor reads 16-by-16
  input in hexadecimal and skips '1'. So parsing the compact text gives
  back the grid exactly for sides 4, 9 and 16 whose cells all lie in
  {0, 2, ..., 9}. For any other side, only the empty grid comes back
  (`Cells.RoundTripExactly`).

## Model

| member | source | states |
|---|---|---|
| Text.Rtrim | src/Sudoku.cpp:115-126 | the backward walk over trailing `c` followed by the cut returns exactly `TrimRight(s, c)` |
| Text.TrimRightUnique | src/Sudoku.cpp:115-126 | the result of `rtrim` is determined by three facts: it is a prefix of the input, it does not end in `c`, and every removed character is `c` |
| Text.TrimRightIdempotent | src/Sudoku.cpp:115-126 | trimming twice equals trimming once; an empty string or one not ending in `c` is unchanged |
| Text.IntText | src/Sudoku.cpp:226 | `std::to_string`: one character exactly for 0 to 9; a value from 10 to 19 takes two characters, the first of them '1'; a negative value starts with '-'; only digits and '-' occur |
| Arith.FloorSqrt | src/Sudoku.cpp:50-51 | the truncated square root `r` satisfies r*r <= n < (r+1)*(r+1) |
| Arith.FloorSqrtUnique | src/Sudoku.cpp:50-51 | any `r` with r*r <= n < (r+1)*(r+1) is the truncated square root |
| Arith.FloorSqrtOfSquare | src/Sudoku.cpp:50-51 | a text of n*n characters gives side n |
| Arith.SupportedSideTiles | src/Sudoku.cpp:48-65 | for the sides 4, 9 and 16 that the string constructor fills, boxes of the truncated square root of the side tile it |
| Arith.BoxFitsTiling | src/Sudoku.cpp:264-269 | when boxes of side `sqr_size` tile the side, the box origin `x - x % sqr_size` of an in-range coordinate starts a box that ends inside the grid |
| Arith.TileStep | src/Sudoku.cpp:296-297 | stepping a box origin by `sqr_size` along a tiled side stays at a multiple of `sqr_size` and inside the grid |
| Cells.CharValue | src/Sudoku.cpp:128-158 | a decoded character gives a value from 0 to 9 (0 to 15 for hex) that is never 1, and it gives 0 exactly for '.' |
| Cells.OneIsNotDecoded | src/Sudoku.cpp:132 | the character '1' sets no cell, in either alphabet |
| Cells.CharValueDigits | src/Sudoku.cpp:143-158 | '2' to '9' give their digit value; with hex 'A' to 'F' and 'a' to 'f' give 10 to 15; without hex any character other than '.' and '2' to '9' is left without effect |
| Cells.Filled | src/Sudoku.cpp:128-141 | after the fill, cell (i, j) holds the value of input character i*n+j when that character is decoded, and otherwise keeps its old value; characters beyond the input leave cells as they are |
| Cells.Decode | src/Sudoku.cpp:48-65 | the grid built from a trimmed line has side * side <= length and a square table |
| Cells.DecodeCell | src/Sudoku.cpp:48-65 | cell (i, j) of the built grid holds the value of character i*side+j, or 0 when that character is not decoded or the side is not 4, 9 or 16; only the first side*side characters reach a cell |
| Cells.ParseUnsupportedSide | src/Sudoku.cpp:48-65 | for a side other than 4, 9 or 16 every cell stays 0; side*side fits in the trimmed length and sqrSize*sqrSize <= size |
| Cells.GridTextDigits | src/Sudoku.cpp:221-230 | for values from 0 to 9 the compact text has length size*size, and character i*size+j is the one for cell (i, j): '.' exactly for 0 |
| Cells.GridTextLength | src/Sudoku.cpp:221-230 | the compact text has at least one character per cell, and more once some value lies outside 0 to 9 |
| Cells.GridTextNoBlank | src/Sudoku.cpp:221-230 | the compact text holds no blank, so the `rtrim` of the string constructor leaves it unchanged |
| Cells.ParseGridText | src/Sudoku.cpp:221-230 | for sides 4, 9 and 16 with values 0 to 9, re-parsing the compact text gives the same side and box side, with each 1 turned into 0 and every other cell kept |
| Cells.RoundTripIffNoOne | src/Sudoku.cpp:221-230 | for sides 4, 9 and 16 with values 0 to 9, the round trip gives back the grid exactly when no cell holds 1 |
| Cells.UnsupportedSideRoundTrip | src/Sudoku.cpp:221-230 | for any other side with values 0 to 9, the round trip gives back the grid exactly when the grid is empty |
| Cells.WideCellBreaksRoundTrip | src/Sudoku.cpp:226 | on a 16-by-16 grid with values 0 to 16, a value from 10 to 16 rules out the round trip: it is written in decimal, and the decoder skips its leading '1' |
| Cells.WideCellText | src/Sudoku.cpp:226 | when every earlier cell takes one character, the text at the position of the first value from 10 to 19 is '1' |
| Cells.HexRoundTrip | src/Sudoku.cpp:221-230 | on a 16-by-16 grid with values 0 to 16, the round trip gives back the grid exactly when every value is in {0, 2, ..., 9} |
| Cells.DecodeRange | src/Sudoku.cpp:128-158 | every cell of a grid built from text lies in 0 to 9 (0 to 15 on a 16-by-16 grid) and is never 1 |
| Cells.RoundTripOnlyDigits | src/Sudoku.cpp:221-230 | for any side and any values, a grid that the round trip gives back has all its cells in {0, 2, ..., 9} |
| Cells.RoundTripExactly | src/Sudoku.cpp:221-230 | for any square grid, the round trip gives it back exactly when its side is 4, 9 or 16 and every cell lies in {0, 2, ..., 9}, or its side is another one and every cell is 0 |
| Rules.SafePlacement | src/Sudoku.cpp:243-272 | on a grid without duplicates, `isSafe(r, c, v)` holds exactly when cell (r, c) is empty and placing a non-zero v keeps every row, column and box free of duplicates; clearing the cell again restores the grid, and no other cell changes |
| Rules.RowsAfterPlace | src/Sudoku.cpp:243-247 | placing v into an empty cell keeps the rows free of duplicates exactly when `safeInRow` holds |
| Rules.ColsAfterPlace | src/Sudoku.cpp:249-253 | placing v into an empty cell keeps the columns free of duplicates exactly when `safeInCol` holds |
| Rules.BoxesAfterPlace | src/Sudoku.cpp:255-262 | placing v into an empty cell keeps the boxes free of duplicates exactly when `safeInSqr` holds on the cell's own box |
| Rules.PlaceThenClear | src/Sudoku.cpp:264-269 | resetting a cell that was empty before a placement restores the grid |
| Rules.CompleteIsNotIncomplete | src/Sudoku.cpp:239-241 | "no cell is 0" is the negation of "some cell is 0" |
| Rules.BoxScanWithoutOne | src/Sudoku.cpp:275-290 | for a box without a 1, `correctInSqr` is exactly the range check of every cell of the box |
| Rules.BoxScanSkipsCellAfterOne | src/Sudoku.cpp:275-290 | `correctInSqr` can accept a box holding an empty cell: a cell after the box's first 1 and off its first column is never examined |
| Rules.AllInRangeChecks | src/Sudoku.cpp:275-290 | when every cell is in [1, size], no box check fails |
| Rules.CorrectIsComplete | src/Sudoku.cpp:292-302 | a grid that `isCorrect` accepts has no empty cell |
| Rules.CorrectAcceptsDuplicates | src/Sudoku.cpp:292-322 | the grid of all 1s, for any side of at least 2, passes the range check although its rows and columns repeat values, and so do its boxes when their side is 2 or more; it is therefore not free of duplicates |
| Rules.SolvedIsCorrect | src/Sudoku.cpp:292-322 | a genuine solution (every row, column and box holds every value from 1 to size) passes the range check |
| Rules.AcceptedSolution | src/SudokuSolver_test.cpp:235-246 | `verifyResult` as one predicate (`isCorrect` on the result, equal sides, every clue of the puzzle kept); a result it accepts has no empty cell |
| Rules.SolvedIsAccepted | src/SudokuSolver_test.cpp:235-246 | a genuine solution of the puzzle's side that keeps the puzzle's clues passes `verifyResult` |
| Rules.AcceptsNonSolution | src/SudokuSolver_test.cpp:235-246 | `verifyResult` passes the all-1s grid as a result for the empty puzzle, although it has duplicates |
| SudokuBoard.Sudoku.InitCells | src/Sudoku.cpp:109-113 | a fresh size-by-size buffer with every cell 0; nothing else changes |
| SudokuBoard.Sudoku.CopyCells | src/Sudoku.cpp:42-45 | after the copy loop every cell equals the source cell |
| SudokuBoard.Sudoku.FromArray | src/Sudoku.cpp:38-46 | the side is `p_size`, the box side its truncated square root, and each cell equals the corresponding cell of the given table; for sides 4, 9 and 16 the boxes tile the side |
| SudokuBoard.Sudoku.FromString | src/Sudoku.cpp:48-65 | the grid built from a line is `Parse(line)`: trim, deduce both sides from square roots, start at 0, and fill only for sides 4, 9 and 16; for those sides the boxes tile the side |
| SudokuBoard.Sudoku.ReadChar | src/Sudoku.cpp:146-149 | one step of the fill loops sets cell (i, j) to the character's value when it is decoded, and touches no other cell |
| SudokuBoard.Sudoku.FillCells | src/Sudoku.cpp:128-158 | the fill loops leave exactly the table `Filled(old table, size, input, hex)` |
| SudokuBoard.Sudoku.Copy | src/Sudoku.cpp:67-75 | the copy constructor gives the same side, box side and cells, in a buffer of its own |
| SudokuBoard.Sudoku.Assign | src/Sudoku.cpp:84-99 | after `operator=` the grid has the side, box side and cells of rhs, and rhs is unchanged; self-assignment changes nothing; otherwise the cells are in a fresh buffer |
| SudokuBoard.Sudoku.Equals | src/Sudoku.cpp:101-107 | `operator==` is true exactly when the sides agree and the cells agree one by one, that is when the two grid values are equal |
| SudokuBoard.Sudoku.ToSimpleString | src/Sudoku.cpp:221-230 | the string built is `GridText` of the cells: row-major, '.' for 0, `std::to_string` otherwise |
| SudokuBoard.Sudoku.IsIncomplete | src/Sudoku.cpp:232-237 | true exactly when some cell is 0 |
| SudokuBoard.Sudoku.IsComplete | src/Sudoku.cpp:239-241 | true exactly when no cell is 0 |
| SudokuBoard.Sudoku.SafeInRow | src/Sudoku.cpp:243-247 | true exactly when num occurs nowhere in the row |
| SudokuBoard.Sudoku.SafeInCol | src/Sudoku.cpp:249-253 | true exactly when num occurs nowhere in the column |
| SudokuBoard.Sudoku.SafeInSqr | src/Sudoku.cpp:255-262 | true exactly when num occurs nowhere in the sqrSize-by-sqrSize box at (startRow, startCol) |
| SudokuBoard.Sudoku.CellIsEmpty | src/Sudoku.cpp:271-273 | true exactly when the cell is 0 |
| SudokuBoard.Sudoku.IsSafe | src/Sudoku.cpp:264-269 | when boxes of side sqrSize tile the side: true exactly when the cell is empty and num is in neither its row, nor its column, nor the box at (row - row % sqrSize, col - col % sqrSize); when they do not, false (it is then callable only where an earlier check fails) |
| SudokuBoard.Sudoku.CorrectInRow | src/Sudoku.cpp:304-312 | true exactly when every cell of the row is in [1, size]; repeated values are not detected |
| SudokuBoard.Sudoku.CorrectInCol | src/Sudoku.cpp:314-322 | true exactly when every cell of the column is in [1, size] |
| SudokuBoard.Sudoku.CorrectInSqr | src/Sudoku.cpp:275-290 | true exactly when every cell the scan examines is in [1, size]: a cell is examined when it is in the box's first column or no 1 precedes it in row-major box order |
| SudokuBoard.Sudoku.IsCorrect | src/Sudoku.cpp:292-302 | true exactly when every cell of the grid is in [1, size]; this also covers grids whose side the boxes do not tile, as long as some cell is out of range |

## Left out

- `src/main.cpp` is not part of this model. It is a command-line harness of
  file reading, console output and timing.
- `src/SudokuSolver_test.cpp` (a test harness of loading, printing and
  timing) is left out, except for `verifyResult`, which is modelled as the
  predicate `Rules.AcceptedSolution`.
- The backtracking solver is not part of this model; its source is not
  among the files modelled.
- The bordered renderers `sudokuToString`, `hexadokuToString`,
  `otherToString` and `toString` (src/Sudoku.cpp:160-219) are left out.
  They are a human-facing layout with no property beyond appearance.
- Heap management is not modelled: the `new[]`/`delete[]` of `initCells`,
  the destructor and the release in `operator=`. Storage is an `array2<int>`
  that Dafny allocates and collects.
- Floating-point `sqrt` (src/Sudoku.cpp:40, 50, 51) becomes the integer
  square root rounded down, which is what the `static_cast<int>` of the
  result gives on these small values.
- The input line is taken as one character per byte. The C++ counts bytes
  (`input.length()` and the fill loops, src/Sudoku.cpp:50, 130, 145), while
  the model's `string` is a sequence of characters. Non-ASCII input, such as
  multi-byte UTF-8, is not modelled.
- `size` and the indices are `nat` rather than `int`, so negative sizes and
  indices are not modelled.
- Out-of-range reads are undefined behaviour in the original. They become
  preconditions:
  - indices must lie inside the grid;
  - `SafeInSqr` and `CorrectInSqr` require their box to fit;
  - `IsSafe` requires that boxes of side `sqrSize` tile the side (for
    example sides 4, 9 and 16), unless the cell, row or column check fails
    first, since then the box is never read;
  - `IsCorrect` requires the same tiling unless some cell is out of range,
    since then a row check fails before any box is read.
- `rtrim` erases in place through a reference; `Text.Rtrim` returns the
  trimmed string instead.
- `fillSudokuCell` and `fillHexadokuCell` differ only in the hex branches,
  so they are one method, `FillCells`, with a `hex` flag.
- The array constructor takes an `array2<int>` rather than `int**`.
- `operator=` returns nothing rather than `*this`.
- `Sudoku.hpp` is not part of this model. `verifyResult` reads the grids
  through its accessors `getSize` and `getCell`; `Rules.AcceptedSolution`
  reads the side and the cells of the grid values directly.
