/** SudokuManager: candidate computation, the validator, the randomised
    backtracking solver (also the generator) and the digger. The Java class
    has no fields, so its methods are module-level methods over a board. */
module SudokuManager {
  import opened Exceptions
  import opened Rules
  import opened Cells
  import opened Board

  // ---------------------------------------------------------------------
  // Candidate computation

  /** generateAllValues: the set 1..9. */
  method GenerateAllValues() returns (numbers: set<int>)
    ensures numbers == AllValues
  {
    numbers := {};
    var i := 1;
    while i <= 9
      invariant 1 <= i <= 10
      invariant forall k :: k in numbers <==> 1 <= k < i
    {
      numbers := numbers + {i};
      i := i + 1;
    }
  }

  /** filterConstraintRowNumbers: removes the filled values of the cell's
      row (nothing to do when no number is left). */
  method FilterConstraintRowNumbers(sudoku: Sudoku, cell: Cell, constraintNumbers: set<int>)
    returns (result: set<int>)
    requires sudoku.Valid() && InGrid(cell.row, cell.column)
    ensures result == constraintNumbers - RowFilled(sudoku.Grid(), cell.row)
  {
    ghost var g := sudoku.Grid();
    ghost var vals := UnitValues(g, Row(cell.row));
    RowFilledValues(g, cell.row);
    result := constraintNumbers;
    if |result| != 0 {
      for j := 0 to 9
        invariant result == constraintNumbers - FilledValues(vals[..j])
      {
        var c := sudoku.GetCell(cell.row, j);
        FilledPrefixStep(vals, j);
        if c.IsFilled() {
          result := result - {c.value};
        }
      }
      assert vals[..9] == vals;
    }
  }

  /** filterConstraintColumnNumbers: removes the filled values of the cell's
      column. */
  method FilterConstraintColumnNumbers(sudoku: Sudoku, cell: Cell, constraintNumbers: set<int>)
    returns (result: set<int>)
    requires sudoku.Valid() && InGrid(cell.row, cell.column)
    ensures result == constraintNumbers - ColumnFilled(sudoku.Grid(), cell.column)
  {
    ghost var g := sudoku.Grid();
    ghost var vals := UnitValues(g, Column(cell.column));
    ColumnFilledValues(g, cell.column);
    result := constraintNumbers;
    if |result| != 0 {
      for index := 0 to 9
        invariant result == constraintNumbers - FilledValues(vals[..index])
      {
        var c := sudoku.GetCell(index, cell.column);
        FilledPrefixStep(vals, index);
        if c.IsFilled() {
          result := result - {c.value};
        }
      }
      assert vals[..9] == vals;
    }
  }

  /** filterConstraintBlockNumbers: removes the filled values of the cell's
      block, read row by row from its top-left cell. */
  method FilterConstraintBlockNumbers(sudoku: Sudoku, cell: Cell, constraintNumbers: set<int>)
    returns (result: set<int>)
    requires sudoku.Valid() && InGrid(cell.row, cell.column)
    ensures result == constraintNumbers - BlockFilled(sudoku.Grid(), cell.row, cell.column)
  {
    ghost var g := sudoku.Grid();
    BlockFilledValues(g, cell.row, cell.column);
    result := constraintNumbers;
    if |result| != 0 {
      var blockRowIndex := BlockStart(cell.row);
      var blockColumnIndex := BlockStart(cell.column);
      ghost var vals := UnitValues(g, Block(blockRowIndex, blockColumnIndex));
      ghost var k := 0;
      var i := blockRowIndex;
      while i < blockRowIndex + 3 && i < 9
        invariant blockRowIndex <= i <= blockRowIndex + 3 && k == 3 * (i - blockRowIndex)
        invariant result == constraintNumbers - FilledValues(vals[..k])
      {
        var j := blockColumnIndex;
        while j < blockColumnIndex + 3 && j < 9
          invariant blockColumnIndex <= j <= blockColumnIndex + 3
          invariant k == 3 * (i - blockRowIndex) + (j - blockColumnIndex)
          invariant result == constraintNumbers - FilledValues(vals[..k])
        {
          var c := sudoku.GetCell(i, j);
          BlockValueAt(g, blockRowIndex, blockColumnIndex, i, j, k);
          FilledPrefixStep(vals, k);
          if c.IsFilled() {
            result := result - {c.value};
          }
          j := j + 1;
          k := k + 1;
        }
        i := i + 1;
      }
      assert vals[..9] == vals;
    }
  }

  /** The filtering part of getConstraintRandomNumber: 1..9 without the
      filled values of the cell's row, column and block and without the
      values already tried at the cell, which are exactly its candidates. */
  method ConstraintNumbers(sudoku: Sudoku, cell: Cell) returns (numbers: set<int>)
    requires sudoku.Valid() && InGrid(cell.row, cell.column)
    ensures numbers == Candidates(sudoku.Grid(), cell.row, cell.column, cell.triedValues)
  {
    numbers := GenerateAllValues();
    numbers := FilterConstraintRowNumbers(sudoku, cell, numbers);
    numbers := FilterConstraintColumnNumbers(sudoku, cell, numbers);
    numbers := FilterConstraintBlockNumbers(sudoku, cell, numbers);
    numbers := numbers - cell.triedValues;
  }

  /** getConstraintRandomNumber: some candidate of the cell, chosen freely
      (the source draws one at random), or a constraint violation when there
      is none. */
  method GetConstraintRandomNumber(sudoku: Sudoku, cell: Cell) returns (r: Result<int>)
    requires sudoku.Valid() && InGrid(cell.row, cell.column)
    ensures r.Ok? <==> Candidates(sudoku.Grid(), cell.row, cell.column, cell.triedValues) != {}
    ensures r.Ok? ==> r.value in Candidates(sudoku.Grid(), cell.row, cell.column, cell.triedValues)
    ensures r.Err? ==> r.error == NoCandidate(cell.row, cell.column)
  {
    var constraintNumbers := ConstraintNumbers(sudoku, cell);
    r := PickCandidate(constraintNumbers, cell.row, cell.column);
  }

  /** A set of integers without a member is empty. */
  lemma EmptyIfNoMember(s: set<int>)
    ensures (forall x: int :: x !in s) ==> s == {}
  {
    if forall x: int :: x !in s {
      assert forall x: int :: x in s <==> x in {};
    }
  }

  /** The choosing part of getConstraintRandomNumber: any member of a
      non-empty set (the source draws one at random), or a constraint
      violation at (row, column) for the empty set. */
  method PickCandidate(numbers: set<int>, row: int, column: int) returns (r: Result<int>)
    ensures r.Ok? <==> numbers != {}
    ensures r.Ok? ==> r.value in numbers
    ensures r.Err? ==> r.error == NoCandidate(row, column)
  {
    if |numbers| != 0 {
      EmptyIfNoMember(numbers);
      var number :| number in numbers;
      return Ok(number);
    }
    return Err(NoCandidate(row, column));
  }

  /** setRandomValue: places a candidate, which also records it as tried.
      setValue's illegal-argument errors cannot occur, since tried values are
      no candidates. */
  method SetRandomValue(sudoku: Sudoku, cell: Cell) returns (outcome: Outcome)
    requires sudoku.Valid() && InGrid(cell.row, cell.column)
    modifies cell
    ensures outcome == Pass <==> old(Candidates(sudoku.Grid(), cell.row, cell.column, cell.triedValues)) != {}
    ensures outcome == Pass ==>
      cell.value in old(Candidates(sudoku.Grid(), cell.row, cell.column, cell.triedValues)) &&
      cell.triedValues == old(cell.triedValues) + {cell.value} && cell.isGiven == old(cell.isGiven)
    ensures outcome != Pass ==> outcome == Fail(NoCandidate(cell.row, cell.column)) && unchanged(cell)
    ensures outcome.Fail? ==> !outcome.error.IsIllegalArgument()
  {
    var r := GetConstraintRandomNumber(sudoku, cell);
    if r.Err? {
      return Fail(r.error);
    }
    outcome := cell.SetValue(r.value);
  }

  // ---------------------------------------------------------------------
  // The validator

  /** isValidRow: an index outside 0..8 is an illegal argument; otherwise
      the row's scan, which passes exactly when the row is a permutation of
      1..9 (UnitCheckIff). */
  method IsValidRow(sudoku: Sudoku, rowIndex: int, ghost g: Grid) returns (outcome: Outcome)
    requires sudoku.Valid() && g == sudoku.Grid()
    ensures !(0 <= rowIndex < 9) ==> outcome == Fail(IndexOutOfBound)
    ensures 0 <= rowIndex < 9 ==> outcome == Scan(Row(rowIndex), UnitValues(g, Row(rowIndex)), AllValues)
  {
    if rowIndex >= 9 || rowIndex < 0 {
      return Fail(IndexOutOfBound);
    }
    ghost var u := Row(rowIndex);
    ghost var vals := UnitValues(g, u);
    var numbers := GenerateAllValues();
    for j := 0 to 9
      invariant Scan(u, vals[j..], numbers) == Scan(u, vals, AllValues)
    {
      var value := sudoku.GetCell(rowIndex, j).value;
      ScanStep(u, vals, j, numbers);
      if value !in numbers {
        return Fail(DuplicateValue(Row(rowIndex), value));
      }
      numbers := numbers - {value};
    }
    if |numbers| != 0 {
      return Fail(EmptyValues(Row(rowIndex)));
    }
    return Pass;
  }

  /** isValidColumn: as isValidRow, for column columnIndex. */
  method IsValidColumn(sudoku: Sudoku, columnIndex: int, ghost g: Grid) returns (outcome: Outcome)
    requires sudoku.Valid() && g == sudoku.Grid()
    ensures !(0 <= columnIndex < 9) ==> outcome == Fail(IndexOutOfBound)
    ensures 0 <= columnIndex < 9 ==> outcome == Scan(Column(columnIndex), UnitValues(g, Column(columnIndex)), AllValues)
  {
    if columnIndex >= 9 || columnIndex < 0 {
      return Fail(IndexOutOfBound);
    }
    ghost var u := Column(columnIndex);
    ghost var vals := UnitValues(g, u);
    var numbers := GenerateAllValues();
    for i := 0 to 9
      invariant Scan(u, vals[i..], numbers) == Scan(u, vals, AllValues)
    {
      var value := sudoku.GetCell(i, columnIndex).value;
      ScanStep(u, vals, i, numbers);
      if value !in numbers {
        return Fail(DuplicateValue(Column(columnIndex), value));
      }
      numbers := numbers - {value};
    }
    if |numbers| != 0 {
      return Fail(EmptyValues(Column(columnIndex)));
    }
    return Pass;
  }

  /** isValidBlock: start indices outside 0..8 or not multiples of 3 are
      illegal arguments; otherwise the block's scan, row by row. */
  method IsValidBlock(sudoku: Sudoku, rowStartIndex: int, columnStartIndex: int, ghost g: Grid) returns (outcome: Outcome)
    requires sudoku.Valid() && g == sudoku.Grid()
    ensures !InGrid(rowStartIndex, columnStartIndex) ==> outcome == Fail(IndexOutOfBound)
    ensures InGrid(rowStartIndex, columnStartIndex) && !ValidUnit(Block(rowStartIndex, columnStartIndex)) ==>
      outcome == Fail(NotAStartIndex)
    ensures ValidUnit(Block(rowStartIndex, columnStartIndex)) ==>
      outcome == Scan(Block(rowStartIndex, columnStartIndex),
                      BlockValues(g, rowStartIndex, columnStartIndex), AllValues)
  {
    if rowStartIndex >= 9 || rowStartIndex < 0 {
      return Fail(IndexOutOfBound);
    }
    if columnStartIndex >= 9 || columnStartIndex < 0 {
      return Fail(IndexOutOfBound);
    }
    if rowStartIndex % 3 != 0 {
      return Fail(NotAStartIndex);
    }
    if columnStartIndex % 3 != 0 {
      return Fail(NotAStartIndex);
    }
    outcome := ScanBlock(sudoku, rowStartIndex, columnStartIndex, g);
  }

  /** The loops of isValidBlock over a block with valid start indices: the
      block's scan, row by row. */
  method ScanBlock(sudoku: Sudoku, rowStartIndex: int, columnStartIndex: int, ghost g: Grid) returns (outcome: Outcome)
    requires sudoku.Valid() && g == sudoku.Grid()
    requires IsBlockStart(rowStartIndex) && IsBlockStart(columnStartIndex)
    ensures outcome == Scan(Block(rowStartIndex, columnStartIndex),
                            BlockValues(g, rowStartIndex, columnStartIndex), AllValues)
  {
    var numbers := GenerateAllValues();
    ghost var u := Block(rowStartIndex, columnStartIndex);
    ghost var vals := BlockValues(g, rowStartIndex, columnStartIndex);
    ghost var k := 0;
    var i := rowStartIndex;
    while i < rowStartIndex + 3
      invariant rowStartIndex <= i <= rowStartIndex + 3 && k == 3 * (i - rowStartIndex)
      invariant Scan(u, vals[k..], numbers) == Scan(u, vals, AllValues)
    {
      var j := columnStartIndex;
      while j < columnStartIndex + 3
        invariant columnStartIndex <= j <= columnStartIndex + 3
        invariant k == 3 * (i - rowStartIndex) + (j - columnStartIndex)
        invariant Scan(u, vals[k..], numbers) == Scan(u, vals, AllValues)
      {
        var value := sudoku.GetCell(i, j).value;
        BlockScanStep(g, rowStartIndex, columnStartIndex, i, j, k, numbers);
        if value !in numbers {
          return Fail(DuplicateValue(Block(rowStartIndex, columnStartIndex), value));
        }
        numbers := numbers - {value};
        j := j + 1;
        k := k + 1;
      }
      i := i + 1;
    }
    assert vals[k..] == [];
    if |numbers| != 0 {
      return Fail(EmptyValues(Block(rowStartIndex, columnStartIndex)));
    }
    return Pass;
  }

  /** checkValidAnswers: rows 0..8, then columns 0..8, then the blocks in
      row-major order; the first failing unit's error is raised. Validate is
      proved to pass exactly on solved boards and never to report empty
      values (ValidateIffSolution, ValidateNeverEmptyValues). */
  method CheckValidAnswers(sudoku: Sudoku) returns (outcome: Outcome)
    requires sudoku.Valid()
    ensures outcome == Validate(sudoku.Grid())
  {
    ghost var g := sudoku.Grid();
    for i := 0 to 9
      invariant PassesBefore(g, i)
    {
      outcome := IsValidRow(sudoku, i, g);
      RowStep(g, i, outcome);
      if outcome.Fail? {
        return;
      }
    }
    for j := 0 to 9
      invariant PassesBefore(g, 9 + j)
    {
      outcome := IsValidColumn(sudoku, j, g);
      ColumnStep(g, j, outcome);
      if outcome.Fail? {
        return;
      }
    }
    ghost var a := 0;
    var bi := 0;
    while bi < 9
      invariant 0 <= a <= 3 && bi == 3 * a
      invariant PassesBefore(g, 18 + 3 * a)
    {
      ghost var b := 0;
      var bj := 0;
      while bj < 9
        invariant 0 <= b <= 3 && bj == 3 * b
        invariant PassesBefore(g, 18 + 3 * a + b)
      {
        outcome := IsValidBlock(sudoku, bi, bj, g);
        BlockStep(g, a, b, bi, bj, outcome);
        if outcome.Fail? {
          return;
        }
        bj := bj + 3;
        b := b + 1;
      }
      bi := bi + 3;
      a := a + 1;
    }
    ValidateAllPass(g);
    return Pass;
  }

  // ---------------------------------------------------------------------
  // The solver

  /** Where one activation of solve leaves the cursor: the cell to visit
      next (null once past (8,8)), or a null dereference when backtracking
      walks back past (0,0). */
  datatype Step = Advance(next: Cell?) | Crash

  /** How solve ends: it returns, it dereferences null after backtracking
      past (0,0), or the recursion outlives the fuel this model gives it. */
  datatype SolveOutcome = Returned | NullDereference | OutOfFuel

  /** The row-major position of a cursor; null stands for the position one
      past (8,8). */
  function CursorPosition(c: Cell?): int {
    if c == null then 81 else Position(c)
  }

  /** The row-major position of a backward cursor; null stands for the
      position one before (0,0). */
  function BackwardPosition(c: Cell?): int {
    if c == null then -1 else Position(c)
  }

  /** The cursor after nextCell is one row-major position further on, also
      past (8,8), where it becomes null. */
  lemma NextCursor(sudoku: Sudoku, cell: Cell)
    requires sudoku.Valid() && InGrid(cell.row, cell.column)
    ensures CursorPosition(sudoku.NextCell(cell)) == Position(cell) + 1
  {
  }

  /** Every given cell is filled, as normalize and the constructors leave a
      board. */
  ghost predicate GivensFilled(sudoku: Sudoku)
    requires sudoku.Valid()
    reads sudoku.Repr
  {
    forall c :: c in sudoku.Repr && c.isGiven ==> c.value != 0
  }

  /** The walk of the catch block of solve: from the dead-end cell the
      cursor steps back over the given cells; it stops at the first
      non-given cell, or at null when every earlier cell is given. */
  method WalkBack(sudoku: Sudoku, current: Cell) returns (previous: Cell?)
    requires sudoku.Valid() && current in sudoku.Repr
    ensures previous != null ==>
      previous in sudoku.Repr && Position(previous) < Position(current) && !previous.isGiven
    ensures forall c :: c in sudoku.Repr && BackwardPosition(previous) < Position(c) < Position(current) ==> c.isGiven
  {
    previous := sudoku.PreviousCell(current);
    while previous != null && previous.isGiven
      invariant previous != null ==> previous in sudoku.Repr && Position(previous) < Position(current)
      invariant forall c :: c in sudoku.Repr && BackwardPosition(previous) < Position(c) < Position(current) ==> c.isGiven
      decreases BackwardPosition(previous) + 1
    {
      ghost var given := previous;
      previous := sudoku.PreviousCell(previous);
      forall c | c in sudoku.Repr && BackwardPosition(previous) < Position(c) < Position(current)
        ensures c.isGiven
      {
        if Position(c) == Position(given) {
          sudoku.PositionDetermines(c, given);
        }
      }
    }
  }

  /** The catch block of solve, reached from an empty cell that has no
      candidate: the cell is reset, the cursor walks back over the given
      cells before it, and the first non-given cell it reaches is cleared,
      keeping its tried values; when every earlier cell is given, the walk
      reaches null and dereferences it. Nothing else changes, so
      conflict-freedom, values in 0..9, the given cells' values and the
      filled cells before the new cursor are kept. */
  method Backtrack(sudoku: Sudoku, current: Cell) returns (step: Step)
    requires sudoku.Valid() && current in sudoku.Repr && current.value == 0
    modifies sudoku.Repr
    ensures current.value == 0 && current.triedValues == {}
    ensures forall c :: c in sudoku.Repr ==> c.isGiven == old(c.isGiven)
    ensures step.Crash? <==> forall c :: c in sudoku.Repr && Position(c) < Position(current) ==> c.isGiven
    ensures step.Advance? ==>
      step.next != null && step.next in sudoku.Repr && Position(step.next) < Position(current) &&
      !step.next.isGiven && step.next.value == 0 && step.next.triedValues == old(step.next.triedValues) &&
      forall c :: c in sudoku.Repr && Position(step.next) < Position(c) < Position(current) ==> c.isGiven
    ensures forall c :: c in sudoku.Repr && c != current && (step.Crash? || c != step.next) ==>
      c.State() == old(c.State())
    ensures forall c :: c in sudoku.Repr && c.isGiven ==> c.value == old(c.value)
    ensures NoConflicts(old(sudoku.Grid())) ==> NoConflicts(sudoku.Grid())
    ensures InRange(old(sudoku.Grid())) ==> InRange(sudoku.Grid())
    ensures step.Advance? && FilledBefore(old(sudoku.Grid()), Position(current)) ==>
      FilledBefore(sudoku.Grid(), Position(step.next))
  {
    ghost var g := sudoku.Grid();
    current.Reset();
    var previous := WalkBack(sudoku, current);
    if previous != null {
      previous.Clear();
      step := Advance(previous);
    } else {
      step := Crash;
    }
    ClearingKeeps(sudoku, g, current, previous);
  }

  /** Backtracking emptied the dead-end cell and, when there is one, the
      cell before it that the cursor reached, and left every other value of
      the grid g it started from. */
  lemma ClearingKeeps(sudoku: Sudoku, g: Grid, current: Cell, previous: Cell?)
    requires sudoku.Valid() && IsGrid(g) && current in sudoku.Repr
    requires previous != null ==> previous in sudoku.Repr && Position(previous) < Position(current)
    requires current.value == 0 && (previous != null ==> previous.value == 0)
    requires forall c :: c in sudoku.Repr && c != current && c != previous ==> c.value == g[c.row][c.column]
    ensures NoConflicts(g) ==> NoConflicts(sudoku.Grid())
    ensures InRange(g) ==> InRange(sudoku.Grid())
    ensures previous != null && FilledBefore(g, Position(current)) ==> FilledBefore(sudoku.Grid(), Position(previous))
  {
    ghost var h := sudoku.Grid();
    ghost var p := BackwardPosition(previous);
    forall i, j | InGrid(i, j)
      ensures h[i][j] == g[i][j] || (h[i][j] == 0 && p <= Index(i, j))
    {
      var x := sudoku.cells[i][j];
      assert x == current || x == previous || x.value == g[i][j];
    }
    ClearKeepsInvariants(g, h, p, Position(current));
  }

  /** The try block of solve succeeded: a candidate of the empty cell was
      placed and every other cell keeps its value in the grid g it started
      from. Conflict-freedom, values in 0..9 and every filled value are
      kept, and the filled cells before the cell now reach past it. */
  lemma PlacementKeeps(sudoku: Sudoku, g: Grid, cell: Cell, tried: set<int>)
    requires sudoku.Valid() && IsGrid(g) && cell in sudoku.Repr && g[cell.row][cell.column] == 0
    requires cell.value in Candidates(g, cell.row, cell.column, tried)
    requires forall c :: c in sudoku.Repr && c != cell ==> c.value == g[c.row][c.column]
    ensures NoConflicts(g) ==> NoConflicts(sudoku.Grid())
    ensures InRange(g) ==> InRange(sudoku.Grid())
    ensures forall c :: c in sudoku.Repr && g[c.row][c.column] != 0 ==> c.value == g[c.row][c.column]
    ensures FilledBefore(g, Position(cell)) ==> FilledBefore(sudoku.Grid(), Position(cell) + 1)
  {
    ghost var h := sudoku.Grid();
    forall i, j | InGrid(i, j) && (i != cell.row || j != cell.column)
      ensures h[i][j] == g[i][j]
    {
      assert sudoku.cells[i][j] != cell;
    }
    PlaceKeepsInvariants(g, h, cell.row, cell.column, tried);
  }

  /** The try block of solve at an empty cell: setRandomValue places a
      candidate, or fails and changes nothing. Only the cell changes, so
      conflict-freedom, values in 0..9 and filled given cells are kept, and
      a placement extends the filled cells before the cell by the cell. */
  method Place(sudoku: Sudoku, cell: Cell) returns (outcome: Outcome)
    requires sudoku.Valid() && cell in sudoku.Repr && cell.value == 0
    modifies cell
    ensures outcome.Pass? <==> old(Candidates(sudoku.Grid(), cell.row, cell.column, cell.triedValues)) != {}
    ensures outcome.Pass? ==>
      cell.value in old(Candidates(sudoku.Grid(), cell.row, cell.column, cell.triedValues)) &&
      cell.triedValues == old(cell.triedValues) + {cell.value}
    ensures cell.isGiven == old(cell.isGiven)
    ensures outcome.Fail? ==> unchanged(cell)
    ensures NoConflicts(old(sudoku.Grid())) ==> NoConflicts(sudoku.Grid())
    ensures InRange(old(sudoku.Grid())) ==> InRange(sudoku.Grid())
    ensures old(GivensFilled(sudoku)) ==>
      GivensFilled(sudoku) && forall c :: c in sudoku.Repr && c.isGiven ==> c.value == old(c.value)
    ensures outcome.Pass? && FilledBefore(old(sudoku.Grid()), Position(cell)) ==>
      FilledBefore(sudoku.Grid(), Position(cell) + 1)
  {
    ghost var g, tried := sudoku.Grid(), cell.triedValues;
    outcome := SetRandomValue(sudoku, cell);
    if outcome.Pass? {
      PlacementKeeps(sudoku, g, cell, tried);
    }
  }

  /** One activation of solve at an empty cell, before its recursive call:
      a candidate is placed and the cursor moves to the next cell, or the
      solver backtracks. */
  method VisitEmpty(sudoku: Sudoku, cell: Cell) returns (step: Step)
    requires sudoku.Valid() && cell in sudoku.Repr && cell.value == 0
    modifies sudoku.Repr
    ensures old(Candidates(sudoku.Grid(), cell.row, cell.column, cell.triedValues)) != {} ==>
      step == Advance(sudoku.NextCell(cell)) &&
      cell.value in old(Candidates(sudoku.Grid(), cell.row, cell.column, cell.triedValues)) &&
      cell.triedValues == old(cell.triedValues) + {cell.value} &&
      forall c :: c in sudoku.Repr && c != cell ==> c.State() == old(c.State())
    ensures old(Candidates(sudoku.Grid(), cell.row, cell.column, cell.triedValues)) == {} ==>
      cell.value == 0 && cell.triedValues == {} &&
      (step.Crash? <==> forall c :: c in sudoku.Repr && Position(c) < Position(cell) ==> c.isGiven) &&
      (step.Advance? ==>
        step.next != null && step.next in sudoku.Repr && Position(step.next) < Position(cell) &&
        !step.next.isGiven && step.next.value == 0 && step.next.triedValues == old(step.next.triedValues) &&
        forall c :: c in sudoku.Repr && Position(step.next) < Position(c) < Position(cell) ==> c.isGiven) &&
      forall c :: c in sudoku.Repr && c != cell && (step.Crash? || c != step.next) ==> c.State() == old(c.State())
    ensures step.Advance? ==> step.next == null || step.next in sudoku.Repr
    ensures forall c :: c in sudoku.Repr ==> c.isGiven == old(c.isGiven)
    ensures NoConflicts(old(sudoku.Grid())) ==> NoConflicts(sudoku.Grid())
    ensures InRange(old(sudoku.Grid())) ==> InRange(sudoku.Grid())
    ensures old(GivensFilled(sudoku)) ==>
      GivensFilled(sudoku) && forall c :: c in sudoku.Repr && c.isGiven ==> c.value == old(c.value)
    ensures step.Advance? && FilledBefore(old(sudoku.Grid()), Position(cell)) ==>
      FilledBefore(sudoku.Grid(), CursorPosition(step.next))
  {
    ghost var g := sudoku.Grid();
    var placed := Place(sudoku, cell);
    if placed.Pass? {
      NextCursor(sudoku, cell);
      step := Advance(sudoku.NextCell(cell));
    } else {
      assert forall i :: 0 <= i < 9 ==> sudoku.Grid()[i] == g[i];
      step := Backtrack(sudoku, cell);
    }
  }

  /** One activation of solve at a cell, before its recursive call: an
      empty cell is visited as above; a filled cell is passed over. The given
      flags never change; conflict-freedom, values in 0..9 and filled given
      cells are kept, and the filled cells before the cursor still reach the
      new cursor. */
  method Visit(sudoku: Sudoku, cell: Cell) returns (step: Step)
    requires sudoku.Valid() && cell in sudoku.Repr
    modifies sudoku.Repr
    ensures old(cell.value) != 0 ==>
      step == Advance(sudoku.NextCell(cell)) && forall c :: c in sudoku.Repr ==> c.State() == old(c.State())
    ensures step.Advance? ==> step.next == null || step.next in sudoku.Repr
    ensures forall c :: c in sudoku.Repr ==> c.isGiven == old(c.isGiven)
    ensures NoConflicts(old(sudoku.Grid())) ==> NoConflicts(sudoku.Grid())
    ensures InRange(old(sudoku.Grid())) ==> InRange(sudoku.Grid())
    ensures old(GivensFilled(sudoku)) ==>
      GivensFilled(sudoku) && forall c :: c in sudoku.Repr && c.isGiven ==> c.value == old(c.value)
    ensures step.Advance? && FilledBefore(old(sudoku.Grid()), Position(cell)) ==>
      FilledBefore(sudoku.Grid(), CursorPosition(step.next))
  {
    if !cell.IsFilled() {
      step := VisitEmpty(sudoku, cell);
    } else {
      FilledStep(sudoku.Grid(), cell.row, cell.column);
      NextCursor(sudoku, cell);
      step := Advance(sudoku.NextCell(cell));
    }
  }

  /** solve(sudoku, cell), with fuel bounding its recursion: each activation
      visits its cell and recurs on the new cursor; the recursion ends once
      the cursor passes (8,8). The given flags never change; conflict-freedom
      and values in 0..9 are kept, and so are the given cells' values when
      they are filled. When it returns having started with the cells before
      the cursor filled, every cell is filled. */
  method Solve(sudoku: Sudoku, cell: Cell?, fuel: nat) returns (outcome: SolveOutcome)
    requires sudoku.Valid() && (cell == null || cell in sudoku.Repr)
    modifies sudoku.Repr
    ensures forall c :: c in sudoku.Repr ==> c.isGiven == old(c.isGiven)
    ensures NoConflicts(old(sudoku.Grid())) ==> NoConflicts(sudoku.Grid())
    ensures InRange(old(sudoku.Grid())) ==> InRange(sudoku.Grid())
    ensures old(GivensFilled(sudoku)) ==> forall c :: c in sudoku.Repr && c.isGiven ==> c.value == old(c.value)
    ensures outcome == Returned && FilledBefore(old(sudoku.Grid()), CursorPosition(cell)) ==> Full(sudoku.Grid())
    decreases fuel
  {
    if cell == null {
      FullIffFilled(sudoku.Grid());
      return Returned;
    }
    if fuel == 0 {
      return OutOfFuel;
    }
    var step := Visit(sudoku, cell);
    if step.Crash? {
      return NullDereference;
    }
    outcome := Solve(sudoku, step.next, fuel - 1);
  }

  /** solve(puzzle): solve from (0,0). When it returns, every cell is
      filled; from a conflict-free board with values in 0..9 the result is a
      solved Sudoku, which the validator accepts. */
  method SolveBoard(puzzle: Sudoku, fuel: nat) returns (outcome: SolveOutcome)
    requires puzzle.Valid()
    modifies puzzle.Repr
    ensures forall c :: c in puzzle.Repr ==> c.isGiven == old(c.isGiven)
    ensures old(GivensFilled(puzzle)) ==> forall c :: c in puzzle.Repr && c.isGiven ==> c.value == old(c.value)
    ensures outcome == Returned ==> Full(puzzle.Grid())
    ensures outcome == Returned && NoConflicts(old(puzzle.Grid())) && InRange(old(puzzle.Grid())) ==>
      IsSolution(puzzle.Grid()) && Validate(puzzle.Grid()) == Pass
  {
    outcome := Solve(puzzle, puzzle.GetCell(0, 0), fuel);
    if outcome == Returned && IsSolution(puzzle.Grid()) {
      ValidateIffSolution(puzzle.Grid());
    }
  }

  /** generateSudoku: solve an empty board from (0,0). When the solver
      returns, the board is a solved Sudoku and passes the validator. */
  method GenerateSudoku(fuel: nat) returns (sudoku: Sudoku, outcome: SolveOutcome)
    ensures sudoku.Valid() && fresh(sudoku.Repr)
    ensures forall c :: c in sudoku.Repr ==> !c.isGiven
    ensures outcome == Returned ==> IsSolution(sudoku.Grid()) && Validate(sudoku.Grid()) == Pass
  {
    sudoku := new Sudoku();
    outcome := Solve(sudoku, sudoku.GetCell(0, 0), fuel);
    if outcome == Returned {
      ValidateIffSolution(sudoku.Grid());
    }
  }

  // ---------------------------------------------------------------------
  // The digger

  /** The range of a Java int. */
  const INT_MIN := -0x8000_0000
  const INT_MAX := 0x7FFF_FFFF

  predicate IsInt(x: int) {
    INT_MIN <= x <= INT_MAX
  }

  /** Java's int subtraction: the difference reduced into the int range
      modulo 2^32 (section 15.18.2 of the Java Language Specification). */
  function Sub32(a: int, b: int): (d: int)
    requires IsInt(a) && IsInt(b)
    ensures IsInt(d) && (d - (a - b)) % 0x1_0000_0000 == 0
    ensures IsInt(a - b) ==> d == a - b
  {
    if a - b > INT_MAX then a - b - 0x1_0000_0000
    else if a - b < INT_MIN then a - b + 0x1_0000_0000
    else a - b
  }

  /** The int difference 81 - givens wraps around exactly for the givens
      below INT_MIN + 82, where it becomes negative. */
  lemma CellsToDigWraps(givens: int)
    requires IsInt(givens)
    ensures givens < INT_MIN + 82 <==> Sub32(81, givens) != 81 - givens
    ensures givens < INT_MIN + 82 ==> Sub32(81, givens) < 0
  {
  }

  /** The redraw loop of puzzle: some cell of the board that is not dug
      yet (the source draws coordinates at random until it meets one), or
      null when every cell is dug, where the source draws forever. */
  method DrawUndug(puzzle: Sudoku, cells: set<Cell>) returns (cell: Cell?)
    requires puzzle.Valid()
    ensures cell != null ==> cell in puzzle.Repr && cell !in cells
    ensures cell == null <==> puzzle.Repr <= cells
  {
    if exists r, c :: 0 <= r < 9 && 0 <= c < 9 && puzzle.cells[r][c] !in cells {
      var r, c :| 0 <= r < 9 && 0 <= c < 9 && puzzle.cells[r][c] !in cells;
      return puzzle.GetCell(r, c);
    }
    return null;
  }

  /** The dig loop of puzzle on a board holding the values of g, no tried
      values and no givens: cellsToDig distinct cells are reset (none when
      cellsToDig is not positive); with more than 81 to dig it hangs once
      all 81 are dug. */
  method Dig(puzzle: Sudoku, cellsToDig: int, ghost g: Grid) returns (ghost dug: set<Cell>, hangs: bool)
    requires puzzle.Valid() && IsGrid(g)
    requires forall x :: x in puzzle.Repr ==> x.State() == CellState(g[x.row][x.column], {}, false)
    modifies puzzle.Repr
    ensures hangs <==> cellsToDig > 81
    ensures !hangs ==> dug <= puzzle.Repr && |dug| == (if cellsToDig < 0 then 0 else cellsToDig)
    ensures !hangs ==> forall x :: x in puzzle.Repr ==>
      x.State() == CellState(if x in dug then 0 else g[x.row][x.column], {}, false)
  {
    puzzle.ReprSize();
    var cells: set<Cell> := {};
    var i := 0;
    while i < cellsToDig
      invariant 0 <= i <= 81 && (i == 0 || i <= cellsToDig)
      invariant cells <= puzzle.Repr && |cells| == i
      invariant forall x :: x in puzzle.Repr ==>
        x.State() == CellState(if x in cells then 0 else g[x.row][x.column], {}, false)
    {
      var cell := DrawUndug(puzzle, cells);
      if cell == null {
        SubsetSize(puzzle.Repr, cells);
        return cells, true;
      }
      SubsetSize(cells + {cell}, puzzle.Repr);
      cells := cells + {cell};
      cell.Reset();
      i := i + 1;
    }
    return cells, false;
  }

  /** puzzle(template, givens): a clone of the template with 81 - givens
      distinct cells emptied, then normalized, so a cell is given exactly
      when it is filled. 81 - givens is an int difference: below
      INT_MIN + 82 givens it wraps to a negative count and nothing is dug.
      With any other negative number of givens there are more than 81
      cells to dig and the source digs all 81 and then loops forever, which
      hangs reports. The template is not changed. */
  method Puzzle(template: Sudoku, givens: int) returns (puzzle: Sudoku, ghost dug: set<Cell>, hangs: bool)
    requires template.Valid() && IsInt(givens)
    ensures puzzle.Valid() && fresh(puzzle.Repr)
    ensures hangs <==> Sub32(81, givens) > 81
    ensures hangs <==> INT_MIN + 82 <= givens < 0
    ensures !hangs ==>
      dug <= puzzle.Repr &&
      |dug| == (if givens > 81 || givens < INT_MIN + 82 then 0 else 81 - givens)
    ensures !hangs ==> forall c :: c in puzzle.Repr ==>
      c.value == (if c in dug then 0 else template.Grid()[c.row][c.column]) &&
      c.isGiven == (c.value != 0) && c.triedValues == {}
  {
    ghost var g := template.Grid();
    puzzle := template.Clone();
    var cellsToDig := Sub32(81, givens);
    dug, hangs := Dig(puzzle, cellsToDig, g);
    if !hangs {
      puzzle.Normalize();
    }
  }

  /** makePuzzle(givens): solve an empty board, then dig it down to givens
      cells. When the solver returns and the digger does not hang, the
      result's cells are empty or hold the solved Sudoku's value, exactly
      the kept ones are given, and givens of them are kept (all 81 for more
      than 81 givens, and for the givens where 81 - givens wraps around);
      when the solver fails there is no puzzle. */
  method MakePuzzle(givens: int, fuel: nat) returns (puzzle: Sudoku?, ghost solution: Grid, outcome: SolveOutcome, hangs: bool)
    requires IsInt(givens)
    ensures IsGrid(solution) && (outcome == Returned <==> puzzle != null)
    ensures puzzle != null ==> puzzle.Valid() && fresh(puzzle.Repr) && (hangs <==> INT_MIN + 82 <= givens < 0)
    ensures outcome == Returned ==> IsSolution(solution) && Validate(solution) == Pass
    ensures puzzle != null && !hangs ==>
      |set c | c in puzzle.Repr && c.value != 0| ==
      (if givens < INT_MIN + 82 || givens >= 81 then 81 else givens)
    ensures puzzle != null && !hangs ==> forall c :: c in puzzle.Repr ==>
      (c.value == 0 || c.value == solution[c.row][c.column]) && c.isGiven == (c.value != 0) && c.triedValues == {}
    ensures puzzle != null && !hangs ==> NoConflicts(puzzle.Grid()) && InRange(puzzle.Grid())
  {
    var sudoku := new Sudoku();
    outcome := SolveBoard(sudoku, fuel);
    solution := sudoku.Grid();
    if outcome != Returned {
      return null, solution, outcome, false;
    }
    ghost var dug;
    puzzle, dug, hangs := Puzzle(sudoku, givens);
    if !hangs {
      KeptCells(puzzle, dug, solution);
      PartialOfSolution(puzzle.Grid(), solution);
    }
  }

  /** A digged-out solved board: its filled cells are those not dug. */
  lemma KeptCells(puzzle: Sudoku, dug: set<Cell>, solution: Grid)
    requires puzzle.Valid() && IsGrid(solution) && Full(solution) && dug <= puzzle.Repr
    requires forall c :: c in puzzle.Repr ==> c.value == (if c in dug then 0 else solution[c.row][c.column])
    ensures (set c | c in puzzle.Repr && c.value != 0) == puzzle.Repr - dug
    ensures |set c | c in puzzle.Repr && c.value != 0| == 81 - |dug|
  {
    puzzle.ReprSize();
    assert (set c | c in puzzle.Repr && c.value != 0) == puzzle.Repr - dug;
  }
}
