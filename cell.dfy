/**
 * One unit of the minesweeper lattice: its (row, column) position, the pixel
 * rectangle it occupies, and the eight neighbour slots the grid fills in.
 */
module Cells {

  /** The absent value of a lookup or a neighbour slot (JavaScript's `null`). */
  datatype Option<+T> = None | Some(value: T)

  /** A lattice position: the `{row, column}` object of a cell. */
  datatype Position = Position(row: int, column: int)

  /** A pixel rectangle, corners included: the `coords` object of a cell. */
  datatype Box = Box(x1: int, y1: int, x2: int, y2: int)

  /**
   * One of the eight neighbour slots. Between the grid's two construction
   * passes a present slot holds the candidate index pair; after the second
   * pass it holds the neighbouring cell itself.
   */
  datatype Slot = Absent | Candidate(at: Position) | Linked(cell: Cell)

  /** The rectangle of the cell at `p` when every cell is `size` pixels wide and high. */
  function BoxAt(p: Position, size: int): (b: Box)
    ensures b.x2 - b.x1 == size && b.y2 - b.y1 == size
    ensures b.x1 == p.column * size && b.y1 == p.row * size
  {
    Box(p.column * size, p.row * size, p.column * size + size, p.row * size + size)
  }

  class Cell {
    const position: Position
    const size: int
    /** Derived once from the position and the size, never rebound. */
    const coords: Box := BoxAt(position, size)
    var neighbors: Option<seq<Slot>>

    constructor (row: int, column: int, size: int)
      ensures position == Position(row, column) && this.size == size
      ensures coords == Box(column * size, row * size, column * size + size, row * size + size)
      ensures neighbors == None
    {
      position := Position(row, column);
      this.size := size;
      neighbors := None;
    }

    /** Whether the point lies in the cell's rectangle; a shared edge belongs to both cells. */
    predicate CheckCoordinates(x: int, y: int)
      ensures CheckCoordinates(x, y) <==>
        position.column * size <= x <= position.column * size + size &&
        position.row * size <= y <= position.row * size + size
    {
      x >= coords.x1 && x <= coords.x2 && y >= coords.y1 && y <= coords.y2
    }

    /** Whether the cell sits at exactly (row, column). */
    predicate CheckPosition(row: int, column: int)
      ensures CheckPosition(row, column) <==> position == Position(row, column)
    {
      position.row == row && position.column == column
    }
  }
}
