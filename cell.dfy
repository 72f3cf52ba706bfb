/** Cell types (src/cell.rs): the per-cell record and its four-valued state. */
module Cells {
  import opened Numeric

  /** `CellState`: the four states a cell can be in (equality is derived). */
  datatype CellState = Hidden | Exploded | Flagged | Revealed

  /** A cell's `(x, y)` position on the grid. */
  type Position = (int, int)

  /** `Cell`: the state plus the facts fixed when the board is set up. */
  datatype Cell = Cell(state: CellState, isBomb: bool, position: Position, neighborBombs: u8)

  /** Abstract colour tokens for the four colours `get_color` returns. */
  datatype Color = White | Red | Blue | NoColor

  /** `Cell::get_color`: the background colour of a cell, chosen by its state alone. */
  function GetColor(c: Cell): (color: Color)
  {
    match c.state
    case Hidden => White
    case Exploded => Red
    case Flagged => Blue
    case Revealed => NoColor
  }

  /** Two cells get the same colour exactly when they are in the same state. */
  lemma GetColorDistinguishesStates(a: Cell, b: Cell)
    ensures GetColor(a) == GetColor(b) <==> a.state == b.state
  {
  }

  /** `Cell::default()`: a hidden, bomb-free cell at the origin with no bomb neighbours. */
  function DefaultCell(): (c: Cell)
    ensures c.state == Hidden && !c.isBomb
    ensures c.position == (0, 0) && c.neighborBombs == 0
  {
    Cell(Hidden, false, (0, 0), 0)
  }
}
