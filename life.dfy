/// Conway's Game of Life on a bounded board: the Moore neighbourhood, with
/// every position off the board counting as dead (no wrap-around), and the
/// generation-synchronous step, stated as functions of a snapshot.
module Life {
  import opened Board

  /** 1 when (x, y) lies on the `rows` x `cols` board and holds exactly 1, otherwise 0. */
  function Live(s: Snapshot, rows: nat, cols: nat, x: int, y: int): (v: nat)
    requires IsRect(s, rows, cols)
    ensures v <= 1
    ensures v == 1 <==> 0 <= x < rows && 0 <= y < cols && s[x][y] == 1
  {
    if 0 <= x < rows && 0 <= y < cols && s[x][y] == 1 then 1 else 0
  }

  /** The number of live cells among the eight positions around (i, j). */
  function Neighbours(s: Snapshot, rows: nat, cols: nat, i: int, j: int): (n: nat)
    requires IsRect(s, rows, cols)
    ensures n <= 8
  {
    Live(s, rows, cols, i - 1, j - 1) + Live(s, rows, cols, i - 1, j) + Live(s, rows, cols, i - 1, j + 1)
    + Live(s, rows, cols, i, j - 1)                                   + Live(s, rows, cols, i, j + 1)
    + Live(s, rows, cols, i + 1, j - 1) + Live(s, rows, cols, i + 1, j) + Live(s, rows, cols, i + 1, j + 1)
  }

  /** The two-state rule: a live cell dies of underpopulation (fewer than two
      neighbours) or overpopulation (more than three) and otherwise survives;
      a dead cell is born with exactly three neighbours. */
  predicate Survives(alive: bool, n: nat)
    ensures Survives(alive, n) ==> n == 2 || n == 3
    ensures n == 3 ==> Survives(alive, n)
    ensures n == 2 ==> (Survives(alive, n) <==> alive)
  {
    if alive then !(n < 2 || n > 3) else n == 3
  }

  /** The value of (i, j) in the next generation of `s`. */
  function NextCell(s: Snapshot, rows: nat, cols: nat, i: nat, j: nat): (v: int)
    requires IsRect(s, rows, cols) && i < rows && j < cols
    ensures v == 0 || v == 1
    ensures v == 1 <==> Survives(s[i][j] == 1, Neighbours(s, rows, cols, i, j))
  {
    if Survives(s[i][j] == 1, Neighbours(s, rows, cols, i, j)) then 1 else 0
  }

  /** The next generation: every cell is computed from `s` alone. */
  function Step(s: Snapshot, rows: nat, cols: nat): (t: Snapshot)
    requires IsRect(s, rows, cols)
    ensures IsRect(t, rows, cols) && Binary(t)
    ensures forall i, j :: 0 <= i < rows && 0 <= j < cols ==> t[i][j] == NextCell(s, rows, cols, i, j)
  {
    seq(rows, i requires 0 <= i < rows =>
      seq(cols, j requires 0 <= j < cols => NextCell(s, rows, cols, i, j)))
  }

  /** The rule in the form the generation step computes it: alive with two
      or three neighbours, or dead with three. */
  lemma SurvivesIff(alive: bool, n: nat)
    ensures Survives(alive, n) <==> (alive && (n == 3 || n == 2)) || (!alive && n == 3)
  {
  }

  /** Only the eight surrounding positions that lie on the board matter:
      boards that agree there give the same count, whatever they hold
      elsewhere, in particular along the opposite edge. */
  lemma NeighboursLocal(s: Snapshot, t: Snapshot, rows: nat, cols: nat, i: int, j: int)
    requires IsRect(s, rows, cols) && IsRect(t, rows, cols)
    requires forall x, y ::
      0 <= x < rows && 0 <= y < cols && i - 1 <= x <= i + 1 && j - 1 <= y <= j + 1 && (x, y) != (i, j)
      ==> s[x][y] == t[x][y]
    ensures Neighbours(s, rows, cols, i, j) == Neighbours(t, rows, cols, i, j)
  {
  }

  /** The corner cell has three candidate neighbours; the cells that would
      touch it if the board wrapped around are not counted. */
  lemma CornerNeighbours(s: Snapshot, rows: nat, cols: nat)
    requires IsRect(s, rows, cols)
    ensures Neighbours(s, rows, cols, 0, 0)
      == Live(s, rows, cols, 0, 1) + Live(s, rows, cols, 1, 0) + Live(s, rows, cols, 1, 1)
  {
  }

  /** An all-dead board stays all dead. */
  lemma BlankStays(rows: nat, cols: nat)
    ensures Step(Blank(rows, cols), rows, cols) == Blank(rows, cols)
  {
    var b := Blank(rows, cols);
    forall i, j | 0 <= i < rows && 0 <= j < cols
      ensures Step(b, rows, cols)[i][j] == b[i][j]
    {
      assert Neighbours(b, rows, cols, i, j) == 0;
    }
    RectEqual(Step(b, rows, cols), b, rows, cols);
  }

  /** The cells of a 2 x 2 block whose top-left cell is (r, c). */
  predicate InBlock(r: int, c: int, x: int, y: int)
  {
    r <= x <= r + 1 && c <= y <= c + 1
  }

  /** `s` holds exactly the pattern `p`: 1 on its cells and 0 elsewhere. */
  predicate Holds(s: Snapshot, rows: nat, cols: nat, p: (int, int) -> bool)
    requires IsRect(s, rows, cols)
  {
    forall x, y :: 0 <= x < rows && 0 <= y < cols ==> s[x][y] == if p(x, y) then 1 else 0
  }

  /** A block with every other cell dead is a still life, wherever it sits
      on the board, against an edge included. */
  lemma BlockIsStill(s: Snapshot, rows: nat, cols: nat, r: nat, c: nat)
    requires IsRect(s, rows, cols) && r + 1 < rows && c + 1 < cols
    requires Holds(s, rows, cols, (x, y) => InBlock(r, c, x, y))
    ensures Step(s, rows, cols) == s
  {
    var t := Step(s, rows, cols);
    forall i, j | 0 <= i < rows && 0 <= j < cols
      ensures t[i][j] == s[i][j]
    {
      BlockCell(s, rows, cols, r, c, i, j);
    }
    RectEqual(t, s, rows, cols);
  }

  lemma BlockCell(s: Snapshot, rows: nat, cols: nat, r: nat, c: nat, i: nat, j: nat)
    requires IsRect(s, rows, cols) && r + 1 < rows && c + 1 < cols && i < rows && j < cols
    requires Holds(s, rows, cols, (x, y) => InBlock(r, c, x, y))
    ensures NextCell(s, rows, cols, i, j) == s[i][j]
  {
  }

  /** A horizontal line of three live cells centred on (r, c). */
  predicate InRow(r: int, c: int, x: int, y: int)
  {
    x == r && c - 1 <= y <= c + 1
  }

  /** A vertical line of three live cells centred on (r, c). */
  predicate InColumn(r: int, c: int, x: int, y: int)
  {
    y == c && r - 1 <= x <= r + 1
  }

  /** The blinker: away from the edges, a horizontal line of three turns
      into a vertical one through its middle cell. */
  lemma BlinkerTurnsVertical(s: Snapshot, rows: nat, cols: nat, r: nat, c: nat)
    requires IsRect(s, rows, cols) && 1 <= r < rows - 1 && 1 <= c < cols - 1
    requires Holds(s, rows, cols, (x, y) => InRow(r, c, x, y))
    ensures Holds(Step(s, rows, cols), rows, cols, (x, y) => InColumn(r, c, x, y))
  {
  }

  /** ... and a vertical line of three turns back into a horizontal one. */
  lemma BlinkerTurnsHorizontal(s: Snapshot, rows: nat, cols: nat, r: nat, c: nat)
    requires IsRect(s, rows, cols) && 1 <= r < rows - 1 && 1 <= c < cols - 1
    requires Holds(s, rows, cols, (x, y) => InColumn(r, c, x, y))
    ensures Holds(Step(s, rows, cols), rows, cols, (x, y) => InRow(r, c, x, y))
  {
  }

  /** Hence the blinker has period two. */
  lemma BlinkerPeriodTwo(s: Snapshot, rows: nat, cols: nat, r: nat, c: nat)
    requires IsRect(s, rows, cols) && 1 <= r < rows - 1 && 1 <= c < cols - 1
    requires Holds(s, rows, cols, (x, y) => InRow(r, c, x, y))
    ensures Step(Step(s, rows, cols), rows, cols) == s
  {
    var t := Step(s, rows, cols);
    BlinkerTurnsVertical(s, rows, cols, r, c);
    BlinkerTurnsHorizontal(t, rows, cols, r, c);
    RectEqual(Step(t, rows, cols), s, rows, cols);
  }
}
