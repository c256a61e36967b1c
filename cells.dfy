/** Cells and rows of the automaton, as the uint8 arrays the engine works on. */
module Cells {

  /** One generation: a row of cells. */
  type Row = seq<int>

  /** A row of at least one cell: the only rows the engine is given. */
  type NonEmptyRow = r: Row | |r| >= 1 witness [0]

  /** A value a uint8 array element can hold. */
  predicate IsByte(x: int) {
    0 <= x < 256
  }

  /** The row is a uint8 array. */
  predicate IsByteRow(row: Row) {
    forall i :: 0 <= i < |row| ==> IsByte(row[i])
  }

  predicate IsBit(x: int) {
    x == 0 || x == 1
  }

  /** Every cell of the row is 0 or 1. */
  predicate IsBinary(row: Row) {
    forall i :: 0 <= i < |row| ==> IsBit(row[i])
  }

  /** Every cell of the row equals `v`. */
  predicate IsConstant(row: Row, v: int) {
    forall i :: 0 <= i < |row| ==> row[i] == v
  }
}
