/** The two exception types the engine throws: IllegalArgumentException (a
    programming error) and ConstraintViolationException (a puzzle-logic
    condition). Each message the source builds becomes a structured error. */
module Exceptions {

  /** A unit inspected by the validator; a block is named by its top-left cell. */
  datatype Unit = Row(index: int) | Column(index: int) | Block(rowStart: int, columnStart: int)

  datatype Error =
    // IllegalArgumentException from Cell.setValue: the number is not in 1..9
    | OutOfRange
    // IllegalArgumentException from Cell.setValue: the number was tried before
    | AlreadyTried
    // IllegalArgumentException from the unit checks: an index outside 0..8
    | IndexOutOfBound
    // IllegalArgumentException from the block check: an index that is not a multiple of 3
    | NotAStartIndex
    // ConstraintViolationException: no valid number is left for cell (row, column)
    | NoCandidate(row: int, column: int)
    // ConstraintViolationException: a value of the unit is not among the values still expected
    | DuplicateValue(unit: Unit, value: int)
    // ConstraintViolationException: some expected values were never seen in the unit
    | EmptyValues(unit: Unit)
  {
    predicate IsIllegalArgument() {
      OutOfRange? || AlreadyTried? || IndexOutOfBound? || NotAStartIndex?
    }
  }

  /** A call that returns normally (Pass) or throws (Fail). */
  datatype Outcome = Pass | Fail(error: Error)

  /** A call that returns a value or throws. */
  datatype Result<T> = Ok(value: T) | Err(error: Error)
}
