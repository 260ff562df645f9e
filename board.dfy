/// The grid the automaton keeps between generations, the fully populated
/// working copy a generation step reads, and the resampling that turns the
/// first into the second when the board's dimensions have changed.
module Board {

  datatype Option<T> = None | Some(value: T)

  /** The component's grid as the script holds it: a list of rows of numbers.
      A slot that was allocated but never written reads as `undefined`,
      written here as None. Rows need not all have the same length, and the
      grid need not match the current `rows` and `cols`. */
  type Grid = seq<seq<Option<int>>>

  /** A fully populated grid of numbers. */
  type Snapshot = seq<seq<int>>

  /** `s` has exactly `rows` rows of `cols` entries each. */
  predicate IsRect<T>(s: seq<seq<T>>, rows: nat, cols: nat)
  {
    |s| == rows && forall i :: 0 <= i < rows ==> |s[i]| == cols
  }

  /** Every entry of `s` is 0 (dead) or 1 (alive). */
  predicate Binary(s: Snapshot)
  {
    forall i, j :: 0 <= i < |s| && 0 <= j < |s[i]| ==> s[i][j] == 0 || s[i][j] == 1
  }

  /** `grid[i]?.[j] ?? 0`: the number stored at (i, j), or 0 when the row,
      the slot, or the value in the slot is missing. */
  function At(grid: Grid, i: nat, j: nat): (v: int)
    ensures i < |grid| && j < |grid[i]| && grid[i][j].Some? ==> v == grid[i][j].value
    ensures i >= |grid| || j >= |grid[i]| || grid[i][j] == None ==> v == 0
  {
    if i < |grid| && j < |grid[i]| && grid[i][j].Some? then grid[i][j].value else 0
  }

  /** A fully populated grid seen as the component's grid: no slot is missing. */
  function Lift(s: Snapshot): (g: Grid)
    ensures |g| == |s|
    ensures forall i :: 0 <= i < |s| ==> |g[i]| == |s[i]|
    ensures forall i, j :: 0 <= i < |s| && 0 <= j < |s[i]| ==> g[i][j] == Some(s[i][j])
  {
    seq(|s|, i requires 0 <= i < |s| => seq(|s[i]|, j requires 0 <= j < |s[i]| => Some(s[i][j])))
  }

  /** The all-dead board of the given dimensions. */
  function Blank(rows: nat, cols: nat): (s: Snapshot)
    ensures IsRect(s, rows, cols) && Binary(s)
    ensures forall i, j :: 0 <= i < rows && 0 <= j < cols ==> s[i][j] == 0
  {
    seq(rows, i => seq(cols, j => 0))
  }

  /** One random draw, `Math.random() < drawAddChance ? 1 : 0`, with the
      number the generator returned passed in as `sample`. */
  function Draw(sample: real, chance: real): (v: int)
    ensures v == 0 || v == 1
    ensures v == 1 <==> sample < chance
  {
    if sample < chance then 1 else 0
  }

  /** With the generator's samples in [0, 1), a chance of 1 or more always
      draws a live cell and a chance of 0 or less always draws a dead one. */
  lemma DrawExtremes(sample: real, chance: real)
    requires 0.0 <= sample < 1.0
    ensures chance >= 1.0 ==> Draw(sample, chance) == 1
    ensures chance <= 0.0 ==> Draw(sample, chance) == 0
  {
  }

  /** The contents of a two-dimensional array, row by row. */
  ghost function Cells<T>(a: array2<T>): (s: seq<seq<T>>)
    reads a
    ensures IsRect(s, a.Length0, a.Length1)
    ensures forall i, j :: 0 <= i < a.Length0 && 0 <= j < a.Length1 ==> s[i][j] == a[i, j]
  {
    seq(a.Length0, i requires 0 <= i < a.Length0 reads a =>
      seq(a.Length1, j requires 0 <= j < a.Length1 reads a => a[i, j]))
  }

  /** Two-dimensional arrays and nested sequences are equal when they agree cell by cell. */
  lemma CellsAre<T>(a: array2<T>, s: seq<seq<T>>)
    requires IsRect(s, a.Length0, a.Length1)
    requires forall i, j :: 0 <= i < a.Length0 && 0 <= j < a.Length1 ==> a[i, j] == s[i][j]
    ensures Cells(a) == s
  {
    var c := Cells(a);
    forall i | 0 <= i < a.Length0
      ensures c[i] == s[i]
    {
      assert |c[i]| == |s[i]|;
    }
  }

  /** Nested sequences of the same shape are equal when they agree cell by cell. */
  lemma RectEqual<T>(s: seq<seq<T>>, t: seq<seq<T>>, rows: nat, cols: nat)
    requires IsRect(s, rows, cols) && IsRect(t, rows, cols)
    requires forall i, j :: 0 <= i < rows && 0 <= j < cols ==> s[i][j] == t[i][j]
    ensures s == t
  {
    forall i | 0 <= i < rows
      ensures s[i] == t[i]
    {
      assert |s[i]| == |t[i]|;
    }
  }

  /** The working copy a generation step reads (`resizeTempGrid`): a
      `rows` x `cols` board holding the old grid's number wherever it has
      one, and 0 everywhere else. */
  function Resample(grid: Grid, rows: nat, cols: nat): (s: Snapshot)
    ensures IsRect(s, rows, cols)
    ensures forall i, j :: 0 <= i < rows && 0 <= j < cols ==> s[i][j] == At(grid, i, j)
  {
    seq(rows, i requires 0 <= i < rows => seq(cols, j requires 0 <= j < cols => At(grid, i, j)))
  }

  /** Before the first generation the grid is empty, and the working copy is all dead. */
  lemma ResampleEmpty(rows: nat, cols: nat)
    ensures Resample([], rows, cols) == Blank(rows, cols)
  {
    RectEqual(Resample([], rows, cols), Blank(rows, cols), rows, cols);
  }

  /** Changing the dimensions from `r0` x `c0` to `rows` x `cols` keeps every
      cell of the overlap and makes every other cell dead; nothing is
      stretched or shifted. */
  lemma ResampleOverlap(s: Snapshot, r0: nat, c0: nat, rows: nat, cols: nat)
    requires IsRect(s, r0, c0)
    ensures forall i, j :: 0 <= i < rows && 0 <= j < cols ==>
      Resample(Lift(s), rows, cols)[i][j] == if i < r0 && j < c0 then s[i][j] else 0
  {
  }

  /** A board that already has the current dimensions and no missing slot is
      copied unchanged. */
  lemma ResampleSame(s: Snapshot, rows: nat, cols: nat)
    requires IsRect(s, rows, cols)
    ensures Resample(Lift(s), rows, cols) == s
  {
    RectEqual(Resample(Lift(s), rows, cols), s, rows, cols);
  }

  /** Resampling keeps a board of zeros and ones binary, and fills the
      cells it adds with 0. */
  lemma ResampleBinary(s: Snapshot, rows: nat, cols: nat)
    requires Binary(s)
    ensures Binary(Resample(Lift(s), rows, cols))
  {
  }
}
