/// Brush painting (the grid part of `handleMouseMove`): a fresh board of the
/// current dimensions that takes over the overlap with the previous grid,
/// then redraws every on-board cell of the square of half-width `radius`
/// around the pointer's cell with a random draw.
module Brush {
  import opened Board

  /** `changeCellOnClick`: the new value of a painted cell is a fresh draw;
      the value the cell had is passed in and ignored. */
  function ChangeCellOnClick(cellValue: Option<int>, sample: real, chance: real): (v: int)
    ensures v == 0 || v == 1
    ensures v == 1 <==> sample < chance
  {
    Draw(sample, chance)
  }

  /** `Math.min(rows, grid.length)`: the rows taken over from the previous grid. */
  function MinRows(grid: Grid, rows: nat): (r: nat)
    ensures r <= rows && r <= |grid|
    ensures r == rows || r == |grid|
  {
    if rows < |grid| then rows else |grid|
  }

  /** `Math.min(cols, grid[0]?.length || 0)`: the columns taken over, judged
      by the first row only. */
  function MinCols(grid: Grid, cols: nat): (c: nat)
    ensures |grid| == 0 ==> c == 0
    ensures |grid| > 0 ==> c <= cols && c <= |grid[0]| && (c == cols || c == |grid[0]|)
  {
    if |grid| == 0 then 0 else if cols < |grid[0]| then cols else |grid[0]|
  }

  /** The slot (i, j) after the copy: the old number (or 0) inside the
      overlap, and a slot never written (undefined) outside it. */
  function Copied(grid: Grid, rows: nat, cols: nat, i: int, j: int): Option<int>
  {
    if 0 <= i < MinRows(grid, rows) && 0 <= j < MinCols(grid, cols) then Some(At(grid, i, j)) else None
  }

  /** (i, j) lies in the square of half-width `radius` around (row, col). */
  predicate InBrush(row: int, col: int, radius: int, i: int, j: int)
  {
    row - radius <= i <= row + radius && col - radius <= j <= col + radius
  }

  /** The slot (i, j) once the brush has gone over the copy. */
  function PaintedCell(grid: Grid, rows: nat, cols: nat, row: int, col: int, radius: int,
                       rand: (int, int) -> real, chance: real, i: int, j: int): Option<int>
  {
    if InBrush(row, col, radius, i, j)
    then Some(ChangeCellOnClick(Copied(grid, rows, cols, i, j), rand(i, j), chance))
    else Copied(grid, rows, cols, i, j)
  }

  /** The grid a pointer move produces. */
  function Painted(grid: Grid, rows: nat, cols: nat, row: int, col: int, radius: int,
                   rand: (int, int) -> real, chance: real): (g: Grid)
    ensures IsRect(g, rows, cols)
    ensures forall i, j :: 0 <= i < rows && 0 <= j < cols ==>
      g[i][j] == if InBrush(row, col, radius, i, j) then Some(Draw(rand(i, j), chance)) else Copied(grid, rows, cols, i, j)
  {
    seq(rows, i requires 0 <= i < rows =>
      seq(cols, j requires 0 <= j < cols => PaintedCell(grid, rows, cols, row, col, radius, rand, chance, i, j)))
  }

  /** Paints at grid position (row, col): allocates a `rows` x `cols` board
      of empty slots, copies the overlap with the previous grid into it, then
      overwrites every on-board cell of the brush square with the draw for
      that cell. Brush positions off the board are skipped, never indexed.
      `rand(i, j)` is the number the random generator returns when the loop
      reaches (i, j). */
  method PaintAt(grid: Grid, rows: nat, cols: nat, row: int, col: int, drawRadius: int,
                 rand: (int, int) -> real, drawAddChance: real)
    returns (updated: array2<Option<int>>)
    ensures fresh(updated)
    ensures updated.Length0 == rows && updated.Length1 == cols
    ensures Cells(updated) == Painted(grid, rows, cols, row, col, drawRadius, rand, drawAddChance)
  {
    updated := new Option<int>[rows, cols]((i, j) => None);
    var minRows := MinRows(grid, rows);
    var minCols := MinCols(grid, cols);
    for i := 0 to minRows
      invariant forall x, y :: 0 <= x < rows && 0 <= y < cols ==>
        updated[x, y] == if x < i then Copied(grid, rows, cols, x, y) else None
    {
      for j := 0 to minCols
        invariant forall x, y :: 0 <= x < rows && 0 <= y < cols ==>
          updated[x, y] == if x < i || (x == i && y < j) then Copied(grid, rows, cols, x, y) else None
      {
        updated[i, j] := Some(At(grid, i, j));
      }
    }

    var lo, hi := row - drawRadius, row + drawRadius;
    var i := lo;
    while i <= hi
      invariant i == lo || lo <= i <= hi + 1
      invariant forall x, y :: 0 <= x < rows && 0 <= y < cols ==>
        updated[x, y] == if lo <= x < i && col - drawRadius <= y <= col + drawRadius
                         then PaintedCell(grid, rows, cols, row, col, drawRadius, rand, drawAddChance, x, y)
                         else Copied(grid, rows, cols, x, y)
      decreases hi - i
    {
      var j := col - drawRadius;
      while j <= col + drawRadius
        invariant j == col - drawRadius || col - drawRadius <= j <= col + drawRadius + 1
        invariant forall x, y :: 0 <= x < rows && 0 <= y < cols ==>
          updated[x, y] == if (lo <= x < i && col - drawRadius <= y <= col + drawRadius)
                              || (x == i && col - drawRadius <= y < j)
                           then PaintedCell(grid, rows, cols, row, col, drawRadius, rand, drawAddChance, x, y)
                           else Copied(grid, rows, cols, x, y)
        decreases col + drawRadius - j
      {
        if i >= 0 && i < rows && j >= 0 && j < cols {
          updated[i, j] := Some(ChangeCellOnClick(updated[i, j], rand(i, j), drawAddChance));
        }
        j := j + 1;
      }
      i := i + 1;
    }
    CellsAre(updated, Painted(grid, rows, cols, row, col, drawRadius, rand, drawAddChance));
  }

  /** Every on-board cell of the brush square is live exactly when its draw
      falls below the chance, whatever the grid held there before. */
  lemma BrushCellsDrawn(grid: Grid, other: Grid, rows: nat, cols: nat, row: int, col: int, radius: int,
                        rand: (int, int) -> real, chance: real)
    ensures forall i, j :: 0 <= i < rows && 0 <= j < cols && InBrush(row, col, radius, i, j) ==>
      Painted(grid, rows, cols, row, col, radius, rand, chance)[i][j] == Some(if rand(i, j) < chance then 1 else 0)
      && Painted(grid, rows, cols, row, col, radius, rand, chance)[i][j]
         == Painted(other, rows, cols, row, col, radius, rand, chance)[i][j]
  {
  }

  /** With the generator's samples in [0, 1), a chance of 1 or more paints
      every on-board cell of the square live and a chance of 0 or less paints
      them all dead. */
  lemma BrushExtremes(grid: Grid, rows: nat, cols: nat, row: int, col: int, radius: int,
                      rand: (int, int) -> real, chance: real)
    requires forall i, j :: 0.0 <= rand(i, j) < 1.0
    ensures chance >= 1.0 ==> forall i, j :: 0 <= i < rows && 0 <= j < cols && InBrush(row, col, radius, i, j) ==>
      Painted(grid, rows, cols, row, col, radius, rand, chance)[i][j] == Some(1)
    ensures chance <= 0.0 ==> forall i, j :: 0 <= i < rows && 0 <= j < cols && InBrush(row, col, radius, i, j) ==>
      Painted(grid, rows, cols, row, col, radius, rand, chance)[i][j] == Some(0)
  {
  }

  /** Off the brush square the copy decides: inside the overlap with the
      previous grid a cell keeps the previous number (or 0 for a missing
      one); outside it the slot is left undefined. */
  lemma OutsideBrush(grid: Grid, rows: nat, cols: nat, row: int, col: int, radius: int,
                     rand: (int, int) -> real, chance: real)
    ensures forall i, j :: 0 <= i < rows && 0 <= j < cols && !InBrush(row, col, radius, i, j) ==>
      Painted(grid, rows, cols, row, col, radius, rand, chance)[i][j]
        == if i < MinRows(grid, rows) && j < MinCols(grid, cols) then Some(At(grid, i, j)) else None
  {
  }

  /** On a board that already has the current dimensions and no missing
      slot, painting changes nothing outside the brush square, leaves no slot
      undefined, and keeps a board of zeros and ones binary. */
  lemma PaintFrame(s: Snapshot, rows: nat, cols: nat, row: int, col: int, radius: int,
                   rand: (int, int) -> real, chance: real)
    requires IsRect(s, rows, cols)
    ensures forall i, j :: 0 <= i < rows && 0 <= j < cols && !InBrush(row, col, radius, i, j) ==>
      Painted(Lift(s), rows, cols, row, col, radius, rand, chance)[i][j] == Some(s[i][j])
    ensures forall i, j :: 0 <= i < rows && 0 <= j < cols ==>
      Painted(Lift(s), rows, cols, row, col, radius, rand, chance)[i][j].Some?
    ensures Binary(s) ==> forall i, j :: 0 <= i < rows && 0 <= j < cols ==>
      Painted(Lift(s), rows, cols, row, col, radius, rand, chance)[i][j] in {Some(0), Some(1)}
  {
  }

  /** A brush of radius 0 changes at most the pointer's own cell. */
  lemma RadiusZero(s: Snapshot, rows: nat, cols: nat, row: int, col: int,
                   rand: (int, int) -> real, chance: real)
    requires IsRect(s, rows, cols)
    ensures forall i, j :: 0 <= i < rows && 0 <= j < cols && (i, j) != (row, col) ==>
      Painted(Lift(s), rows, cols, row, col, 0, rand, chance)[i][j] == Some(s[i][j])
  {
    PaintFrame(s, rows, cols, row, col, 0, rand, chance);
  }

  /** Painting before the first generation, when the grid is still empty,
      leaves every cell off the brush square undefined. */
  lemma PaintEmptyGrid(rows: nat, cols: nat, row: int, col: int, radius: int,
                       rand: (int, int) -> real, chance: real)
    ensures forall i, j :: 0 <= i < rows && 0 <= j < cols ==>
      (Painted([], rows, cols, row, col, radius, rand, chance)[i][j] == None <==> !InBrush(row, col, radius, i, j))
  {
  }
}
