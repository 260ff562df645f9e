/// The integer arithmetic that ties the board to the drawing surface: the
/// number of columns for the surface's aspect ratio, the size of a cell in
/// pixels, and the cell under the pointer. The source rounds with
/// `Math.round`; pixel quantities are taken as non-negative integers, for
/// which `Math.round(a / b)` is `(2a + b) / (2b)` in integer division.
module Geometry {

  /** `Math.round(a / b)`: the integer nearest to a / b, halves rounded up. */
  function Round(a: nat, b: nat): (q: nat)
    requires b > 0
    ensures b * (2 * q - 1) <= 2 * a < b * (2 * q + 1)
  {
    var q := (2 * a + b) / (2 * b);
    assert 2 * a + b == 2 * b * q + (2 * a + b) % (2 * b);
    q
  }

  /** Only one integer lies within half of a / b on the lower side and
      strictly less than half on the upper side, so the bounds above define
      the rounding completely. */
  lemma RoundUnique(a: nat, b: nat, q: int)
    requires b > 0
    requires b * (2 * q - 1) <= 2 * a < b * (2 * q + 1)
    ensures q == Round(a, b)
  {
    var r: int := Round(a, b);
    assert b * (2 * r - 1) <= 2 * a < b * (2 * r + 1);
    if q < r {
      MulMono(b, 2 * q + 1, 2 * r - 1);
      assert false;
    } else if q > r {
      MulMono(b, 2 * r + 1, 2 * q - 1);
      assert false;
    }
  }

  lemma MulMono(b: nat, x: int, y: int)
    requires x <= y
    ensures b * x <= b * y
  {
    assert b * y - b * x == b * (y - x);
  }

  /** `cols = Math.round(rows * width / height)`: the column count that gives
      square cells on a `width` x `height` surface; cols / rows is within
      half a column of width / height. */
  function ColumnsFor(rows: nat, width: nat, height: nat): (cols: nat)
    requires height > 0
    ensures height * (2 * cols - 1) <= 2 * rows * width < height * (2 * cols + 1)
  {
    Round(rows * width, height)
  }

  /** `cellSize = Math.round(height / rows)`: the side of a cell in pixels. */
  function CellSize(height: nat, rows: nat): (size: nat)
    requires rows > 0
    ensures rows * (2 * size - 1) <= 2 * height < rows * (2 * size + 1)
  {
    Round(height, rows)
  }

  /** As written: `Math.round(offset / cellSize)`, the grid line nearest to
      the pointer, used as the index of the cell under it. */
  function PointerCell(offset: nat, cellSize: nat): (k: nat)
    requires cellSize > 0
    ensures cellSize * (2 * k - 1) <= 2 * offset < cellSize * (2 * k + 1)
  {
    Round(offset, cellSize)
  }

  /** Corrected: the cell whose square contains the pointer. The renderer
      draws cell k over the pixels k * cellSize up to (k + 1) * cellSize. */
  function PointerCellFloor(offset: nat, cellSize: nat): (k: nat)
    requires cellSize > 0
    ensures k * cellSize <= offset < (k + 1) * cellSize
  {
    offset / cellSize
  }

  /** The two agree on the left (or upper) half of each cell; on the other
      half the as-written index is one cell too far right (or down). */
  lemma PointerCellRoundsUp(offset: nat, cellSize: nat)
    requires cellSize > 0
    ensures PointerCell(offset, cellSize)
      == PointerCellFloor(offset, cellSize) + (if 2 * (offset % cellSize) >= cellSize then 1 else 0)
  {
    var k, r := offset / cellSize, offset % cellSize;
    var e := if 2 * r >= cellSize then 1 else 0;
    assert offset == k * cellSize + r;
    assert cellSize * (2 * (k + e) - 1) == 2 * k * cellSize + 2 * e * cellSize - cellSize;
    assert cellSize * (2 * (k + e) + 1) == 2 * k * cellSize + 2 * e * cellSize + cellSize;
    RoundUnique(offset, cellSize, k + e);
  }

  /** A concrete case: with 10-pixel cells, pixel 6 lies in the square drawn
      for column 0, but the as-written index is column 1; in the last column
      of a board the brush centre then falls off the board. */
  lemma PointerOffByHalf()
    ensures PointerCellFloor(6, 10) == 0
    ensures PointerCell(6, 10) == 1
  {
    PointerCellRoundsUp(6, 10);
  }
}
