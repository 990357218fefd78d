/**
 * The per-square record of the cost grid (`Cell`): the cost-to-goal estimate `g`, the one-step
 * lookahead `rhs` and a status mark.
 *
 * `Cell` is a C++ value type: the map stores its cells by value and a setter called on a stored
 * cell overwrites that slot of the grid. The model therefore makes `Cell` a datatype, and each
 * setter returns the cell with exactly one field replaced; `Maps.Map` writes the result back.
 */
module Cells {

  /** The status marks (`include/Map.h:54-59`); the planner's integer codes -1 and 100 are the
    * hidden mark and the obstacle mark. */
  const FreeMark: string := " "
  const GoalMark: string := "g"
  const StartMark: string := "s"
  const ObstacleMark: string := "x"
  const HiddenMark: string := "?"

  datatype Cell = Cell(g: real, rhs: real, status: string) {

    /** `Cell::Cell`: both estimates start at the given value and the square is free. */
    static function Create(initial: real): (c: Cell)
      ensures c.g == initial && c.rhs == initial
      ensures c.status == FreeMark
    {
      Cell(initial, initial, FreeMark)
    }

    /** `Cell::UpdateG`: the new `g`; `rhs` and the status are kept. */
    function UpdateG(newG: real): (c: Cell)
      ensures c.g == newG
      ensures c.rhs == rhs && c.status == status
    {
      this.(g := newG)
    }

    /** `Cell::UpdateRhs`: the new `rhs`; `g` and the status are kept. */
    function UpdateRhs(newRhs: real): (c: Cell)
      ensures c.rhs == newRhs
      ensures c.g == g && c.status == status
    {
      this.(rhs := newRhs)
    }

    /** `Cell::UpdateStatus`: the new status mark; both estimates are kept. */
    function UpdateStatus(newStatus: string): (c: Cell)
      ensures c.status == newStatus
      ensures c.g == g && c.rhs == rhs
    {
      this.(status := newStatus)
    }
  }

  /** The sequence of `test/CellTest.cpp`: create with 10000, then set g, rhs and status. */
  lemma CellTestSequence()
    ensures Cell.Create(10000.0).g == 10000.0 && Cell.Create(10000.0).rhs == 10000.0
    ensures Cell.Create(10000.0).status == FreeMark
    ensures Cell.Create(10000.0).UpdateG(10.0).UpdateRhs(10.0).UpdateStatus("*") == Cell(10.0, 10.0, "*")
  {
  }
}
