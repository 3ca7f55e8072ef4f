/** Geometry of the playfield: grid cells, the four directions and one-cell moves. */
module Grid {

  /** Side of one grid cell, in canvas units (the snake's `size` setting). */
  const CellSize: int := 30

  /** A grid cell, addressed by the canvas coordinates of its top-left corner. */
  datatype Cell = Cell(x: int, y: int)

  datatype Direction = Up | Down | Left | Right

  /** The direction that would turn the snake back onto its own neck. */
  function Opposite(d: Direction): (o: Direction)
    ensures o != d
    ensures (d == Left || d == Right) <==> (o == Left || o == Right)
  {
    match d
    case Up => Down
    case Down => Up
    case Left => Right
    case Right => Left
  }

  /** A cell whose coordinates are whole multiples of the cell size. */
  predicate Aligned(c: Cell)
  {
    c.x % CellSize == 0 && c.y % CellSize == 0
  }

  /** Two cells one cell-size apart along exactly one axis. */
  predicate Adjacent(a: Cell, b: Cell)
  {
    (a.y == b.y && (a.x - b.x == CellSize || b.x - a.x == CellSize)) ||
    (a.x == b.x && (a.y - b.y == CellSize || b.y - a.y == CellSize))
  }

  /** The cell the head moves to in one step: the canvas y axis points down. */
  function NextHead(head: Cell, d: Direction): (r: Cell)
    ensures Adjacent(head, r) && Adjacent(r, head)
    ensures Aligned(head) ==> Aligned(r)
    ensures d == Right ==> r.x > head.x
    ensures d == Left ==> r.x < head.x
    ensures d == Down ==> r.y > head.y
    ensures d == Up ==> r.y < head.y
  {
    match d
    case Right => Cell(head.x + CellSize, head.y)
    case Up => Cell(head.x, head.y - CellSize)
    case Left => Cell(head.x - CellSize, head.y)
    case Down => Cell(head.x, head.y + CellSize)
  }
}
