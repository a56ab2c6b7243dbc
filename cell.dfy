/** One position of the grid: its value (0 when empty), the values tried
    there during the current backtracking pass, and whether it is a given. */
module Cells {
  import opened Exceptions

  /** A cell's mutable state as a value. */
  datatype CellState = CellState(value: int, tried: set<int>, given: bool)

  /** The state Cell.normalize leaves: given exactly when filled, no history. */
  function Normalized(s: CellState): CellState {
    CellState(s.value, {}, s.value != 0)
  }

  /** Normalizing twice is normalizing once. */
  lemma NormalizeIdempotent(s: CellState)
    ensures Normalized(Normalized(s)) == Normalized(s)
    ensures Normalized(s).given == (Normalized(s).value != 0) && Normalized(s).tried == {}
  {
  }

  class Cell {
    var value: int
    var triedValues: set<int>
    const row: int
    const column: int
    var isGiven: bool

    ghost function State(): CellState
      reads this
    {
      CellState(value, triedValues, isGiven)
    }

    /** Cell(): an empty cell at (0, 0) with no history. */
    constructor ()
      ensures row == 0 && column == 0
      ensures value == 0 && triedValues == {} && !isGiven
    {
      value := 0;
      triedValues := {};
      row, column := 0, 0;
      isGiven := false;
    }

    /** Cell(row, column): an empty cell at (row, column). */
    constructor At(row: int, column: int)
      ensures this.row == row && this.column == column
      ensures value == 0 && triedValues == {} && !isGiven
    {
      value := 0;
      triedValues := {};
      this.row, this.column := row, column;
      isGiven := false;
    }

    /** Cell(row, column, value): no range check on the value. */
    constructor WithValue(row: int, column: int, value: int)
      ensures this.row == row && this.column == column
      ensures this.value == value && triedValues == {} && !isGiven
    {
      this.value := value;
      triedValues := {};
      this.row, this.column := row, column;
      isGiven := false;
    }

    /** Cell.isFilled: the cell holds a value; exactly the cells that
        normalize turns into givens. */
    predicate IsFilled(): (filled: bool)
      reads this
      ensures filled <==> value != 0
      ensures filled <==> Normalized(State()).given
    {
      value != 0
    }

    /** Cell.setValue: a number outside 1..9, or one already tried here, is
        refused with an illegal-argument error and changes nothing; otherwise
        the number becomes the value and joins the tried values. */
    method SetValue(number: int) returns (outcome: Outcome)
      modifies this
      ensures number > 9 || number < 1 ==> outcome == Fail(OutOfRange) && State() == old(State())
      ensures 1 <= number <= 9 && number in old(triedValues) ==>
        outcome == Fail(AlreadyTried) && State() == old(State())
      ensures 1 <= number <= 9 && number !in old(triedValues) ==>
        outcome == Pass && value == number && triedValues == old(triedValues) + {number} &&
        isGiven == old(isGiven)
    {
      if number > 9 || number < 1 {
        return Fail(OutOfRange);
      }
      if number in triedValues {
        return Fail(AlreadyTried);
      }
      value := number;
      triedValues := triedValues + {number};
      return Pass;
    }

    /** Cell.clear: empties the value and keeps the tried history. */
    method Clear()
      modifies this
      ensures value == 0 && triedValues == old(triedValues) && isGiven == old(isGiven)
    {
      value := 0;
    }

    /** Cell.reset: empties the value and the tried history. */
    method Reset()
      modifies this
      ensures value == 0 && triedValues == {} && isGiven == old(isGiven)
    {
      Clear();
      triedValues := {};
    }

    method SetGiven(isGiven: bool)
      modifies this
      ensures this.isGiven == isGiven && value == old(value) && triedValues == old(triedValues)
    {
      this.isGiven := isGiven;
    }

    /** Cell.normalize: marks the cell given exactly when it is filled and
        drops its tried history; the value is kept. */
    method Normalize()
      modifies this
      ensures State() == Normalized(old(State()))
      ensures isGiven == (value != 0) && triedValues == {} && value == old(value)
    {
      SetGiven(IsFilled());
      triedValues := {};
    }
  }
}
