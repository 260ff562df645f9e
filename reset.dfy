/// The two board resets of the settings panel: `RandomizeBoard` refills the
/// board with random draws, `EraseBoard` clears it.
module Reset {
  import opened Board
  import opened Life

  /** The board a randomize produces: every cell is its own draw. */
  function Randomized(rows: nat, cols: nat, rand: (int, int) -> real, chance: real): (s: Snapshot)
    ensures IsRect(s, rows, cols) && Binary(s)
    ensures forall i, j :: 0 <= i < rows && 0 <= j < cols ==> (s[i][j] == 1 <==> rand(i, j) < chance)
  {
    var s := seq(rows, i requires 0 <= i < rows => seq(cols, j requires 0 <= j < cols => Draw(rand(i, j), chance)));
    assert forall i, j :: 0 <= i < rows && 0 <= j < cols ==> s[i][j] == Draw(rand(i, j), chance);
    s
  }

  /** Fills a fresh `rows` x `cols` board cell by cell with random draws;
      the previous grid plays no part. `rand(i, j)` is the number the random
      generator returns when the loop reaches (i, j). */
  method RandomizeBoard(rows: nat, cols: nat, rand: (int, int) -> real, drawAddChance: real)
    returns (updated: array2<int>)
    ensures fresh(updated)
    ensures updated.Length0 == rows && updated.Length1 == cols
    ensures Cells(updated) == Randomized(rows, cols, rand, drawAddChance)
  {
    updated := new int[rows, cols]((i, j) => 0);
    for i := 0 to rows
      invariant forall x, y :: 0 <= x < i && 0 <= y < cols ==> updated[x, y] == Draw(rand(x, y), drawAddChance)
    {
      for j := 0 to cols
        invariant forall x, y :: 0 <= x < i && 0 <= y < cols ==> updated[x, y] == Draw(rand(x, y), drawAddChance)
        invariant forall y :: 0 <= y < j ==> updated[i, y] == Draw(rand(i, y), drawAddChance)
      {
        updated[i, j] := if rand(i, j) < drawAddChance then 1 else 0;
      }
    }
    CellsAre(updated, Randomized(rows, cols, rand, drawAddChance));
  }

  /** A fresh all-dead `rows` x `cols` board; the previous grid plays no part,
      so erasing twice gives what erasing once gives. */
  method EraseBoard(rows: nat, cols: nat) returns (updated: array2<int>)
    ensures fresh(updated)
    ensures updated.Length0 == rows && updated.Length1 == cols
    ensures Cells(updated) == Blank(rows, cols)
  {
    updated := new int[rows, cols]((i, j) => 0);
    CellsAre(updated, Blank(rows, cols));
  }

  /** With the generator's samples in [0, 1), randomizing with a chance of 1
      or more fills the board with live cells, and with a chance of 0 or less
      it gives the erased board. */
  lemma RandomizedExtremes(rows: nat, cols: nat, rand: (int, int) -> real, chance: real)
    requires forall i, j :: 0.0 <= rand(i, j) < 1.0
    ensures chance >= 1.0 ==> forall i, j :: 0 <= i < rows && 0 <= j < cols ==> Randomized(rows, cols, rand, chance)[i][j] == 1
    ensures chance <= 0.0 ==> Randomized(rows, cols, rand, chance) == Blank(rows, cols)
  {
    var s := Randomized(rows, cols, rand, chance);
    forall i, j | 0 <= i < rows && 0 <= j < cols
      ensures chance >= 1.0 ==> s[i][j] == 1
      ensures chance <= 0.0 ==> s[i][j] == 0
    {
      DrawExtremes(rand(i, j), chance);
    }
    if chance <= 0.0 {
      RectEqual(s, Blank(rows, cols), rows, cols);
    }
  }

  /** An erased board stays erased when the next generation is computed from it. */
  lemma ErasedStaysErased(rows: nat, cols: nat)
    ensures Step(Resample(Lift(Blank(rows, cols)), rows, cols), rows, cols) == Blank(rows, cols)
  {
    ResampleSame(Blank(rows, cols), rows, cols);
    BlankStays(rows, cols);
  }
}
