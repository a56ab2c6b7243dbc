# Sudoku engine: a verified Dafny model

This project models the engine of a Java Sudoku web application: the classes
`Cell`, `Sudoku` and `SudokuManager` of the package `sudoku.logic`.

- A `Cell` holds a value (0 when empty), the set of values tried there during
  the current backtracking pass, its coordinates, and whether it is a given.
- A `Sudoku` owns a fixed 9x9 matrix of cells.
- `SudokuManager` is stateless. It has four parts:
  - candidate computation: the digits still possible at a cell;
  - a validator that scans rows, then columns, then blocks, and raises the
    first value that is not expected (a duplicate, or 0 for an empty cell);
  - a randomised, recursive backtracking solver, also used to generate a
    solved board;
  - a digger that empties cells of a solved board to make a puzzle.

Modules:

- `Exceptions`: the errors the engine raises. Each is one constructor of
  `Error`. A call that can throw returns an `Outcome` or a `Result`.
- `Rules`: the rules stated on plain values. A board's values form a `Grid`.
  This module defines candidates, conflicts, the unit scan, the validator
  (`Validate`) and what a solved Sudoku is (`IsSolution`). It also holds the
  lemmas about them. The main results:
  - `ValidateIffSolution`: the validator passes exactly on solved grids.
  - `CandidateIff`: candidates are exactly the digits that clash with no cell
    sharing a unit and were not tried yet.
- `Cells`: class `Cell`, whose methods update its fields in place.
- `Board`: class `Sudoku`. Its cell matrix is a `seq<seq<Cell>>`, written once
  by a constructor. Its methods change cells through `modifies Repr`.
- `SudokuManager`: the manager's methods as module-level methods over a
  board.

Each imperative method is proved against the `Rules` definitions:

- The validator's result equals `Validate` of the board's grid.
- The filters remove exactly the filled values of the unit.
- The solver is proved to keep these invariants as it walks the board:
  - conflict-freedom;
  - values in 0..9;
  - given flags unchanged;
  - the values of given cells unchanged when every given cell is filled, as
    on every board that FromMatrix with setGivens, Normalize or Puzzle
    builds, where a cell is given exactly when it is filled. `solve` tests
    `isFilled`, not `isGiven`, so it fills an empty cell marked given;
  - the filled cells behind the cursor.
- The digger empties the cells it chooses, keeps the template's other
  values, and marks a cell given exactly when it is filled. A puzzle dug
  out of a solved board (`MakePuzzle`) is conflict-free with values in 0..9.
- Composed, when the solver returns, started on a conflict-free board with
  values in 0..9, the board is solved and the validator accepts it. This
  holds for generation (`GenerateSudoku`) and for solving a dug-out puzzle
  (`MakePuzzle` together with `SolveBoard`).

Three behaviours of the source worth knowing:

- The validator never raises "empty values": 0 is not in the set of
  expected values, so an empty cell is reported as a duplicate value 0
  (`ValidateNeverEmptyValues`).
- With a negative number of givens the digger digs all 81 cells and then
  never returns: its redraw loop finds no undug cell (`Puzzle` reports
  `hangs`). The count 81 - givens is a Java `int`, so for givens below
  `INT_MIN + 82` it wraps to a negative number and nothing is dug.
- `solve` recurses once per step, backtracking steps included. Its recursion
  depth is therefore the number of steps, not at most 81.

## Model

| member | source | states |
|---|---|---|
| Cells.Cell.constructor | src/main/java/sudoku/logic/Cell.java:21-24 | a new cell is empty, at (0,0), has no tried values and is not given |
| Cells.Cell.At | src/main/java/sudoku/logic/Cell.java:26-30 | a new empty cell at the given coordinates with no history |
| Cells.Cell.WithValue | src/main/java/sudoku/logic/Cell.java:32-35 | a new cell at the given coordinates holding the value unchecked, not given, no history |
| Cells.Cell.SetValue | src/main/java/sudoku/logic/Cell.java:45-54 | a number outside 1..9 is refused, then one already tried is refused, and nothing changes; otherwise the number becomes the value and is added to the tried values |
| Cells.Cell.Clear | src/main/java/sudoku/logic/Cell.java:56-58 | empties the value, keeps the tried values and the given flag |
| Cells.Cell.Reset | src/main/java/sudoku/logic/Cell.java:60-63 | empties the value and the tried values, keeps the given flag |
| Cells.Cell.IsFilled | src/main/java/sudoku/logic/Cell.java:37-39 | a cell is filled exactly when its value is non-zero, which is exactly when normalize would make it a given |
| Cells.Cell.SetGiven | src/main/java/sudoku/logic/Cell.java:89-91 | sets the given flag and nothing else |
| Cells.Cell.Normalize | src/main/java/sudoku/logic/Cell.java:93-96 | the cell becomes given exactly when it is filled and loses its tried values; the value is kept |
| Cells.NormalizeIdempotent | src/main/java/sudoku/logic/Cell.java:93-96 | normalizing twice is normalizing once, and leaves given == filled with no history |
| Board.Sudoku.constructor | src/main/java/sudoku/logic/Sudoku.java:11-18 | 81 fresh empty cells, cell (i, j) at row i and column j, none given |
| Board.Sudoku.FromMatrix | src/main/java/sudoku/logic/Sudoku.java:24-35 | cell (i, j) holds matrix[i][j]; with setGivens it is given exactly when non-zero |
| Board.Sudoku.OfMatrix | src/main/java/sudoku/logic/Sudoku.java:20-22 | the matrix's values, no cell given |
| Board.Sudoku.ReprSize | src/main/java/sudoku/logic/Sudoku.java:11-18 | a board has exactly 81 distinct cells |
| Board.Sudoku.ReprPrefixSize | src/main/java/sudoku/logic/Sudoku.java:11-18 | the cells before row-major position n are n distinct cells |
| Board.Sudoku.PositionDetermines | src/main/java/sudoku/logic/Sudoku.java:7 | two cells of the board with the same coordinates are the same cell |
| Board.Sudoku.GetCell | src/main/java/sudoku/logic/Sudoku.java:41-43 | the board's cell with the requested coordinates |
| Board.Sudoku.NextCell | src/main/java/sudoku/logic/Sudoku.java:45-57 | the cell one row-major position further on, wrapping to the next row; null exactly at (8,8) |
| Board.Sudoku.PreviousCell | src/main/java/sudoku/logic/Sudoku.java:68-80 | the cell one row-major position back, wrapping to the previous row; null exactly at (0,0) |
| Board.Sudoku.PreviousOfNext | src/main/java/sudoku/logic/Sudoku.java:45-80 | previousCell undoes nextCell everywhere but (8,8) |
| Board.Sudoku.NextOfPrevious | src/main/java/sudoku/logic/Sudoku.java:45-80 | nextCell undoes previousCell everywhere but (0,0) |
| Board.Sudoku.ToArray | src/main/java/sudoku/logic/Sudoku.java:82-92 | a fresh 9x9 matrix holding the board's values |
| Board.Sudoku.Clone | src/main/java/sudoku/logic/Sudoku.java:37-39 | a board of fresh cells with the same values, no given cells and no history |
| Board.Sudoku.Normalize | src/main/java/sudoku/logic/Sudoku.java:59-66 | every one of the 81 cells is normalized, although it is visited column by column |
| Board.MatrixRoundTrip | src/main/java/sudoku/logic/Sudoku.java:20-22 | building a board from a 9x9 matrix and exporting it gives the matrix back |
| Rules.BlockStart | src/main/java/sudoku/logic/SudokuManager.java:448-450 | the block start is a multiple of 3 with the index in the three rows or columns from it; it is 0, 3 or 6 on the board |
| Rules.SameBlockIff | src/main/java/sudoku/logic/SudokuManager.java:412-433 | a row or column index falls in the three from another's block start exactly when both have the same block start |
| Rules.CandidateIff | src/main/java/sudoku/logic/SudokuManager.java:309-317 | a value is a candidate exactly when it is a digit, not tried, and equal to no cell sharing the cell's row, column or block |
| Rules.RowFilledValues | src/main/java/sudoku/logic/SudokuManager.java:352-363 | the filled values of a row are the non-zero values its scan reads |
| Rules.ColumnFilledValues | src/main/java/sudoku/logic/SudokuManager.java:381-394 | the filled values of a column are the non-zero values its scan reads |
| Rules.BlockFilledValues | src/main/java/sudoku/logic/SudokuManager.java:412-433 | the filled values of a block are the non-zero values its scan reads |
| Rules.BlockValueAt | src/main/java/sudoku/logic/SudokuManager.java:277-280 | cell (i, j) of a block is read at position 3(i - bi) + (j - bj) |
| Rules.ScanPassIff | src/main/java/sudoku/logic/SudokuManager.java:192-208 | a unit scan passes exactly when its values are distinct and are exactly the expected set |
| Rules.ScanEmptyIff | src/main/java/sudoku/logic/SudokuManager.java:206-208 | a scan reports empty values exactly when its values are distinct and a proper subset of the expected set |
| Rules.ScanReportsFirstBad | src/main/java/sudoku/logic/SudokuManager.java:194-201 | the scan reports the first value that is unexpected or repeated as the duplicate |
| Rules.ScanOutcomes | src/main/java/sudoku/logic/SudokuManager.java:192-208 | a failing scan reports empty values or a duplicate that is one of the values read |
| Rules.UnitCheckIff | src/main/java/sudoku/logic/SudokuManager.java:188-210 | a unit of nine values passes exactly when it is a permutation of 1..9, and it never reports empty values |
| Rules.DistinctDigitsArePermutation | src/main/java/sudoku/logic/SudokuManager.java:192-208 | nine distinct values in 1..9 are a permutation of 1..9 |
| Rules.UnitAt | src/main/java/sudoku/logic/SudokuManager.java:157-172 | the k-th unit checkValidAnswers visits: rows, then columns, then blocks, each a valid unit |
| Rules.AllUnits | src/main/java/sudoku/logic/SudokuManager.java:157-172 | the 27 units in the validator's order |
| Rules.UnitOrder | src/main/java/sudoku/logic/SudokuManager.java:167-171 | every row, column and block is visited by the validator, at a known position |
| Rules.CheckUnitsPassIff | src/main/java/sudoku/logic/SudokuManager.java:157-172 | the unit checks pass exactly when every unit's scan passes |
| Rules.CheckUnitsFirstFailure | src/main/java/sudoku/logic/SudokuManager.java:157-172 | when the units before k pass and unit k fails, the validator raises unit k's error |
| Rules.ValidateAllPass | src/main/java/sudoku/logic/SudokuManager.java:157-172 | when all 27 units pass, the validator passes |
| Rules.CheckUnitsOutcomes | src/main/java/sudoku/logic/SudokuManager.java:157-172 | every failure of the unit checks is a duplicate value read in some unit |
| Rules.ValidateNeverEmptyValues | src/main/java/sudoku/logic/SudokuManager.java:206-208 | the validator's only failure is a duplicate value; its empty-values branches are unreachable |
| Rules.ValidatePassIff | src/main/java/sudoku/logic/SudokuManager.java:157-172 | the validator passes exactly when every row, column and block is a permutation of 1..9 |
| Rules.SolutionUnit | src/main/java/sudoku/logic/SudokuManager.java:157-172 | in a solved grid every unit is a permutation of 1..9 |
| Rules.PermutationUnitsSolve | src/main/java/sudoku/logic/SudokuManager.java:157-172 | a grid whose units are all permutations of 1..9 is a solved Sudoku |
| Rules.ValidateIffSolution | src/main/java/sudoku/logic/SudokuManager.java:157-172 | the validator passes exactly on a solved Sudoku: filled, digits only, no two cells sharing a unit equal |
| Rules.PlaceKeepsNoConflicts | src/main/java/sudoku/logic/SudokuManager.java:105-108 | placing a candidate keeps a conflict-free grid conflict-free |
| Rules.PlaceKeepsInvariants | src/main/java/sudoku/logic/SudokuManager.java:105-108 | placing a candidate keeps conflict-freedom and values in 0..9, and extends the filled prefix by the cell |
| Rules.ClearKeepsInvariants | src/main/java/sudoku/logic/SudokuManager.java:109-119 | emptying cells at or after a position keeps conflict-freedom, values in 0..9 and the filled cells before it |
| Rules.FilledStep | src/main/java/sudoku/logic/SudokuManager.java:120-122 | passing over a filled cell extends the filled prefix by that cell |
| Rules.FullIffFilled | src/main/java/sudoku/logic/SudokuManager.java:103-125 | the cursor running off the board leaves a full grid exactly when all 81 positions are filled |
| Rules.PartialOfSolution | src/main/java/sudoku/logic/SudokuManager.java:57-77 | a grid agreeing with a solved Sudoku wherever filled is conflict-free and in 0..9 |
| SudokuManager.GenerateAllValues | src/main/java/sudoku/logic/SudokuManager.java:476-483 | the set 1..9 |
| SudokuManager.FilterConstraintRowNumbers | src/main/java/sudoku/logic/SudokuManager.java:352-363 | removes exactly the filled values of the cell's row |
| SudokuManager.FilterConstraintColumnNumbers | src/main/java/sudoku/logic/SudokuManager.java:381-394 | removes exactly the filled values of the cell's column |
| SudokuManager.FilterConstraintBlockNumbers | src/main/java/sudoku/logic/SudokuManager.java:412-433 | removes exactly the filled values of the cell's block |
| SudokuManager.ConstraintNumbers | src/main/java/sudoku/logic/SudokuManager.java:311-317 | after the three filters and the tried values, exactly the cell's candidates remain |
| SudokuManager.PickCandidate | src/main/java/sudoku/logic/SudokuManager.java:319-333 | a member of a non-empty set, or the no-candidate error for the empty set |
| SudokuManager.GetConstraintRandomNumber | src/main/java/sudoku/logic/SudokuManager.java:309-334 | some candidate of the cell when there is one, otherwise the no-candidate error |
| SudokuManager.SetRandomValue | src/main/java/sudoku/logic/SudokuManager.java:139-143 | passes exactly when the cell has a candidate, which it then holds and records as tried; otherwise it fails with no candidate at that cell, never with an illegal argument, and the cell is unchanged |
| SudokuManager.IsValidRow | src/main/java/sudoku/logic/SudokuManager.java:188-210 | an index outside 0..8 is an illegal argument; otherwise the row's scan |
| SudokuManager.IsValidColumn | src/main/java/sudoku/logic/SudokuManager.java:225-247 | an index outside 0..8 is an illegal argument; otherwise the column's scan |
| SudokuManager.IsValidBlock | src/main/java/sudoku/logic/SudokuManager.java:265-295 | out-of-range start indices, then non-multiples of 3, are illegal arguments; otherwise the block's scan |
| SudokuManager.ScanBlock | src/main/java/sudoku/logic/SudokuManager.java:275-294 | the block's scan, read row by row |
| SudokuManager.CheckValidAnswers | src/main/java/sudoku/logic/SudokuManager.java:157-172 | the result is Validate of the board, so it passes exactly on solved boards |
| SudokuManager.NextCursor | src/main/java/sudoku/logic/Sudoku.java:45-57 | the cursor after nextCell is one row-major position further on, also past (8,8) |
| SudokuManager.Place | src/main/java/sudoku/logic/SudokuManager.java:105-108 | passes exactly when the cell has a candidate; then the cell holds one of the old candidates, recorded as tried, otherwise it is unchanged; keeps conflict-freedom, values in 0..9 and filled given values; a placement extends the filled prefix |
| SudokuManager.PlacementKeeps | src/main/java/sudoku/logic/SudokuManager.java:105-108 | placing a candidate into an empty cell keeps conflict-freedom, values in 0..9 and every filled value |
| SudokuManager.WalkBack | src/main/java/sudoku/logic/SudokuManager.java:112-116 | the first non-given cell before the dead end, with every cell in between given, or null when all earlier cells are given |
| SudokuManager.Backtrack | src/main/java/sudoku/logic/SudokuManager.java:109-119 | resets the dead end, clears the non-given cell the walk reaches and changes nothing else; crashes exactly when every earlier cell is given |
| SudokuManager.ClearingKeeps | src/main/java/sudoku/logic/SudokuManager.java:109-119 | emptying the dead end and the cell reached keeps conflict-freedom, values in 0..9 and the filled cells before the new cursor |
| SudokuManager.VisitEmpty | src/main/java/sudoku/logic/SudokuManager.java:104-119 | with a candidate: the cell holds one, recorded as tried, nothing else changes and the cursor moves to nextCell; without one: the backtracking step of Backtrack; either way the solver's invariants and the filled cells behind the cursor are kept |
| SudokuManager.Visit | src/main/java/sudoku/logic/SudokuManager.java:103-123 | a filled cell is passed over to nextCell with the board unchanged; every step keeps the given flags, conflict-freedom, values in 0..9, filled given values, and the filled cells behind the cursor |
| SudokuManager.Solve | src/main/java/sudoku/logic/SudokuManager.java:99-127 | keeps the given flags, conflict-freedom, values in 0..9 and filled given values; returning from a cursor with every cell before it filled leaves the board full |
| SudokuManager.SolveBoard | src/main/java/sudoku/logic/SudokuManager.java:86-88 | when it returns the board is full; from a conflict-free board in 0..9 it is a solution the validator accepts |
| SudokuManager.GenerateSudoku | src/main/java/sudoku/logic/SudokuManager.java:22-26 | a fresh board without givens that, when the solver returns, is a solved Sudoku the validator accepts |
| SudokuManager.DrawUndug | src/main/java/sudoku/logic/SudokuManager.java:67-70 | a board cell not dug yet, or null exactly when every cell is dug |
| SudokuManager.Dig | src/main/java/sudoku/logic/SudokuManager.java:64-73 | resets cellsToDig distinct cells (none when not positive) and keeps the other values; hangs exactly when more than 81 are to be dug |
| SudokuManager.Puzzle | src/main/java/sudoku/logic/SudokuManager.java:57-77 | a fresh board with 81 - givens distinct cells emptied (none above 81 givens or where the int difference wraps) and the other values of the template, given exactly when filled; hangs exactly when the int count to dig exceeds 81, that is for givens from INT_MIN + 82 to -1 |
| SudokuManager.Sub32 | src/main/java/sudoku/logic/SudokuManager.java:64 | Java int subtraction: the difference reduced into the int range modulo 2^32, the plain difference when it fits |
| SudokuManager.CellsToDigWraps | src/main/java/sudoku/logic/SudokuManager.java:64 | 81 - givens wraps exactly for givens below INT_MIN + 82, and then is negative |
| SudokuManager.KeptCells | src/main/java/sudoku/logic/SudokuManager.java:57-77 | in a dug-out solved board the filled cells are exactly the undug ones, 81 minus the number dug |
| SudokuManager.MakePuzzle | src/main/java/sudoku/logic/SudokuManager.java:38-43 | when the solver returns: the puzzle keeps min(givens, 81) values of a solved Sudoku (81 where 81 - givens wraps), exactly those are given, and it is conflict-free and in 0..9, so it can be solved again |

## Left out

- Input and output are not modelled: `toString` of both classes, `Serializable`, console printing, the web controller and the JavaScript client.
- `Cell.setRow` and `Cell.setColumn` are not modelled. The engine never calls them, and the model keeps coordinates as constants.
- The getters (`getValue`, `getTriedValues`, `getRow`, `getColumn`, `isGiven`) are field reads.
- The cell matrix is a `seq<seq<Cell>>` fixed by the constructor. The Java array is never reassigned after construction.
- GetCell: coordinates outside 0..8 are excluded by a requires. The Java array access throws an index error there, which no engine caller triggers. The same holds for NextCell and PreviousCell on cells off the board.
- `int[][]` parameters are `array2<int>` with at least 9 rows and columns. Jagged or short Java arrays, which throw index errors, are not modelled.
- `getBlockRowIndex` and `getBlockColumnIndex` are one function, `Rules.BlockStart`. Their unused `sudoku` parameter is dropped.
- Randomness (`java.util.Random`) becomes free choice (`:|`). Every contract holds for every choice, so it holds for every random draw. The uniform distribution is not modelled.
- The `HashSet` objects that the filters mutate and return become set values passed in and returned. Aliasing of that set is not observable in the source.
- Exception messages are not modelled. Each exception is an `Error` constructor carrying the unit or cell it names.
- IsValidRow: it takes the board's grid as an extra ghost parameter, to relate its result to `Rules.Scan`. The same holds for IsValidColumn, IsValidBlock and ScanBlock.
- Solve: the recursion has no decreasing measure in the source. A `fuel` bound is added, and `OutOfFuel` is returned once it runs out. The source's `StackOverflowError` on a deep recursion is not modelled.
- Solve: the `NullPointerException` raised when backtracking walks past (0,0) is the outcome `NullDereference`.
- Solve: a filled cell holding a value outside 1..9, which FromMatrix accepts unchecked, is passed over like any filled cell. The contracts about values in 0..9 only promise to keep that property.
- Solve: that the solver terminates, and that it returns whenever a solution exists, is not proved. The model promises what holds whenever it returns.
- Puzzle: `givens` is a Java `int`, so the model requires it to be in the int range.
- Puzzle: the digger's infinite redraw loop is reported as `hangs`, not modelled as divergence.
- Puzzle: that the puzzle has a unique solution is not claimed. The source does not check it.
