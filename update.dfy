/// The generation step as the component runs it (`updateGrid`): copy the
/// previous grid into a working buffer of the current dimensions, then fill
/// a fresh board cell by cell from that buffer alone.
module Update {
  import opened Board
  import opened Life

  /** Copies the previous grid into a fresh `rows` x `cols` buffer: a cell
      keeps the old number where the old grid has one and is 0 elsewhere. */
  method ResizeCopy(grid: Grid, rows: nat, cols: nat) returns (temp: array2<int>)
    ensures fresh(temp)
    ensures temp.Length0 == rows && temp.Length1 == cols
    ensures Cells(temp) == Resample(grid, rows, cols)
  {
    temp := new int[rows, cols]((i, j) => 0);
    for i := 0 to rows
      invariant forall x, y :: 0 <= x < i && 0 <= y < cols ==> temp[x, y] == At(grid, x, y)
    {
      for j := 0 to cols
        invariant forall x, y :: 0 <= x < i && 0 <= y < cols ==> temp[x, y] == At(grid, x, y)
        invariant forall y :: 0 <= y < j ==> temp[i, y] == At(grid, i, y)
      {
        temp[i, j] := At(grid, i, j);
      }
    }
    CellsAre(temp, Resample(grid, rows, cols));
  }

  /** The live cells the neighbourhood loop has counted in row offset `di`
      once it has visited the column offsets -1 up to `dj` - 1. */
  ghost function RowSoFar(s: Snapshot, rows: nat, cols: nat, i: int, j: int, di: int, dj: int): nat
    requires IsRect(s, rows, cols) && -1 <= dj <= 2
    decreases dj + 1
  {
    if dj == -1 then 0
    else
      var skip := di == 0 && dj - 1 == 0;
      RowSoFar(s, rows, cols, i, j, di, dj - 1) + (if skip then 0 else Live(s, rows, cols, i + di, j + dj - 1))
  }

  /** The live cells the neighbourhood loop has counted once it has visited
      the row offsets -1 up to `di` - 1. */
  ghost function WindowSoFar(s: Snapshot, rows: nat, cols: nat, i: int, j: int, di: int): nat
    requires IsRect(s, rows, cols) && -1 <= di <= 2
    decreases di + 1
  {
    if di == -1 then 0
    else WindowSoFar(s, rows, cols, i, j, di - 1) + RowSoFar(s, rows, cols, i, j, di - 1, 2)
  }

  lemma WindowIsNeighbours(s: Snapshot, rows: nat, cols: nat, i: int, j: int)
    requires IsRect(s, rows, cols)
    ensures WindowSoFar(s, rows, cols, i, j, 2) == Neighbours(s, rows, cols, i, j)
  {
  }

  /** Counts the live cells around (i, j) in the buffer by visiting the nine
      offsets and skipping the cell itself; off-board positions are never
      read and count as dead. */
  method CountNeighbours(temp: array2<int>, i: int, j: int) returns (count: nat)
    ensures count == Neighbours(Cells(temp), temp.Length0, temp.Length1, i, j)
  {
    ghost var s := Cells(temp);
    var rows, cols := temp.Length0, temp.Length1;
    count := 0;
    for ii := -1 to 2
      invariant count == WindowSoFar(s, rows, cols, i, j, ii)
    {
      for jj := -1 to 2
        invariant count == WindowSoFar(s, rows, cols, i, j, ii) + RowSoFar(s, rows, cols, i, j, ii, jj)
      {
        if ii == 0 && jj == 0 {
          continue;
        }
        var x := i + ii;
        var y := j + jj;
        if x >= 0 && x < rows && y >= 0 && y < cols && temp[x, y] == 1 {
          count := count + 1;
        }
      }
    }
    WindowIsNeighbours(s, rows, cols, i, j);
  }

  /** The new value of cell (i, j): count its neighbours in the buffer, then
      keep it alive with two or three of them, or bring it to life with
      exactly three. */
  method NextValue(temp: array2<int>, i: nat, j: nat) returns (v: int)
    requires i < temp.Length0 && j < temp.Length1
    ensures v == NextCell(Cells(temp), temp.Length0, temp.Length1, i, j)
  {
    var count := CountNeighbours(temp, i, j);
    var alreadyAlive := temp[i, j] == 1;
    var threeNeighbors := count == 3;
    var twoNeighbors := count == 2;
    v := if (alreadyAlive && (threeNeighbors || twoNeighbors)) || (!alreadyAlive && threeNeighbors) then 1 else 0;
  }

  /** Fills row `i` of the new board from the buffer, cell by cell; the
      other rows of the new board and the buffer itself are left alone. */
  method FillRow(temp: array2<int>, updated: array2<int>, i: nat)
    requires temp != updated && i < temp.Length0
    requires updated.Length0 == temp.Length0 && updated.Length1 == temp.Length1
    modifies updated
    ensures forall y :: 0 <= y < temp.Length1 ==>
      updated[i, y] == NextCell(Cells(temp), temp.Length0, temp.Length1, i, y)
    ensures forall x, y :: 0 <= x < temp.Length0 && x != i && 0 <= y < temp.Length1 ==>
      updated[x, y] == old(updated[x, y])
  {
    for j := 0 to temp.Length1
      invariant forall y :: 0 <= y < j ==> updated[i, y] == NextCell(Cells(temp), temp.Length0, temp.Length1, i, y)
      invariant forall x, y :: 0 <= x < temp.Length0 && x != i && 0 <= y < temp.Length1 ==>
        updated[x, y] == old(updated[x, y])
    {
      var v := NextValue(temp, i, j);
      updated[i, j] := v;
    }
  }

  /** One generation: the new board has the current dimensions, holds only
      0 and 1, and every cell follows the rule applied to the working copy
      of the previous grid, never to a cell already updated. */
  method UpdateGrid(grid: Grid, rows: nat, cols: nat) returns (updated: array2<int>)
    ensures fresh(updated)
    ensures updated.Length0 == rows && updated.Length1 == cols
    ensures Cells(updated) == Step(Resample(grid, rows, cols), rows, cols)
  {
    var temp := ResizeCopy(grid, rows, cols);
    updated := new int[rows, cols]((i, j) => 0);
    ghost var snap := Cells(temp);
    for i := 0 to rows
      modifies updated
      invariant forall x, y :: 0 <= x < i && 0 <= y < cols ==> updated[x, y] == NextCell(snap, rows, cols, x, y)
    {
      FillRow(temp, updated, i);
    }
    CellsAre(updated, Step(snap, rows, cols));
  }

  /** Stepping a board that the previous step produced (so it already has
      the current dimensions and no missing slot) is the rule applied to
      that board itself. */
  lemma StepOfStep(s: Snapshot, rows: nat, cols: nat)
    requires IsRect(s, rows, cols)
    ensures Step(Resample(Lift(s), rows, cols), rows, cols) == Step(s, rows, cols)
  {
    ResampleSame(s, rows, cols);
  }
}
