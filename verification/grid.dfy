/** Cell placement: the integer part of `coord_to_grid`.

    The floating-point geodesy that turns a latitude/longitude into whole
    cell offsets (degrees to kilometres, division by the cell size, `round`)
    happens before this module; here an event arrives as its integer row and
    column offsets from the grid's origin, north and east positive. */
module Grid {

  /** Whole-cell displacement of a point from the origin: `rowOffset` cells
      north and `colOffset` cells east. */
  datatype Offsets = Offsets(rowOffset: int, colOffset: int)

  /** A grid position. Either coordinate may fall outside the grid. */
  datatype Cell = Cell(row: int, col: int)

  /** The origin's cell index along either axis (`row_size // 2`). */
  function Center(rowSize: nat): (c: nat)
    ensures c <= rowSize
    ensures rowSize > 0 ==> c < rowSize
  {
    rowSize / 2
  }

  /** The offsets that place a point in `cell`: the inverse of CoordToGrid. */
  function OffsetsOf(rowSize: nat, cell: Cell): Offsets {
    Offsets(Center(rowSize) - cell.row, cell.col - Center(rowSize))
  }

  /** Rows grow southward, so a northward offset lowers the row; columns grow
      eastward with the offset. The result may lie outside the grid. */
  function CoordToGrid(rowSize: nat, off: Offsets): (cell: Cell)
    ensures OffsetsOf(rowSize, cell) == off
    ensures off == Offsets(0, 0) ==> cell == Cell(Center(rowSize), Center(rowSize))
  {
    Cell(Center(rowSize) - off.rowOffset, Center(rowSize) + off.colOffset)
  }

  /** The bounds test of `add_event`: both coordinates checked against
      `row_size`, since the grid is square. */
  predicate InGrid(rowSize: nat, cell: Cell) {
    0 <= cell.row < rowSize && 0 <= cell.col < rowSize
  }

  /** Every cell, inside the grid or not, is reached by exactly one offset
      pair: CoordToGrid and OffsetsOf are mutually inverse. */
  lemma CoordToGridBijective(rowSize: nat, off: Offsets, cell: Cell)
    ensures CoordToGrid(rowSize, off) == cell <==> OffsetsOf(rowSize, cell) == off
  {
  }

  /** Moving north never increases the row; moving east never decreases the
      column; and the other coordinate does not move at all. */
  lemma CoordToGridMonotone(rowSize: nat, a: Offsets, b: Offsets)
    ensures a.rowOffset <= b.rowOffset ==> CoordToGrid(rowSize, b).row <= CoordToGrid(rowSize, a).row
    ensures a.colOffset <= b.colOffset ==> CoordToGrid(rowSize, a).col <= CoordToGrid(rowSize, b).col
    ensures a.rowOffset == b.rowOffset <==> CoordToGrid(rowSize, a).row == CoordToGrid(rowSize, b).row
    ensures a.colOffset == b.colOffset <==> CoordToGrid(rowSize, a).col == CoordToGrid(rowSize, b).col
  {
  }

  /** The window of offsets the grid can hold: from `center` cells north to
      `rowSize - 1 - center` cells south, and from `center` cells west to
      `rowSize - 1 - center` cells east. */
  lemma InGridIff(rowSize: nat, off: Offsets)
    ensures InGrid(rowSize, CoordToGrid(rowSize, off)) <==>
              && Center(rowSize) - rowSize < off.rowOffset <= Center(rowSize)
              && -(Center(rowSize) as int) <= off.colOffset < rowSize - Center(rowSize)
  {
  }
}
