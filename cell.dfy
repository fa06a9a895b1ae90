/** A single cell of the Minesweeper board: what the player sees of it (its
    state) and what it holds (its kind). */
module Cells {

  /** An unsigned 8-bit integer, the width the source stores the adjacent-mine
      count in. */
  newtype u8 = x: int | 0 <= x < 0x100

  /** The visibility of a cell. */
  datatype CellState = Hidden | Revealed | Flagged

  /** The content of a cell: a mine, or an empty cell that carries the number of
      mines among its neighbours. A mine carries no count, so "is a mine" and
      "has no adjacent mines" are different values. */
  datatype CellKind = Mine | Empty(adjacentMines: u8)

  datatype Cell = Cell(state: CellState, kind: CellKind)

  /** A new cell: hidden, not a mine, with no adjacent mines. */
  function NewCell(): (c: Cell)
    ensures c.state == Hidden
    ensures !c.kind.Mine? && c.kind.adjacentMines == 0
  {
    Cell(Hidden, Empty(0))
  }

  /** A cell state is exactly one of the three states. */
  lemma CellStateCases(s: CellState)
    ensures s == Hidden || s == Revealed || s == Flagged
    ensures Hidden != Revealed && Revealed != Flagged && Flagged != Hidden
  {
  }

  /** A mine is never an empty cell, whatever its count, and in particular
      never an empty cell with no adjacent mines. */
  lemma MineIsNotACount(k: CellKind)
    ensures k.Mine? <==> !k.Empty?
    ensures k.Empty? ==> k != Mine
    ensures Empty(0) != Mine
  {
  }

  /** The adjacent-mine count of an empty cell lies in 0 .. 255. */
  lemma AdjacentCountInByte(k: CellKind)
    requires k.Empty?
    ensures 0 <= k.adjacentMines as int <= 255
  {
  }
}
