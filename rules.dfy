/** The board of the 15x15 five-in-a-row game, bounds, and the run counting
    that win detection is built on (Gobang/gomoku.h). */
module Rules {

  /** Board size and the three cell values. */
  const N: int := 15
  const EMPTY: int := 0
  const BLACK: int := 1
  const WHITE: int := 2

  /** The four scan directions: horizontal, vertical and the two diagonals. */
  const DIRS: seq<(int, int)> := [(0, 1), (1, 0), (1, 1), (1, -1)]

  predicate IsGrid(g: seq<seq<int>>) {
    |g| == N && forall r :: 0 <= r < N ==> |g[r]| == N
  }

  /** A snapshot of the board: N rows of N cell values. Cells hold any int,
      as the source's board does; only EMPTY, BLACK and WHITE are ever written
      by the game. */
  type Grid = g: seq<seq<int>> | IsGrid(g) witness seq(15, _ => seq(15, _ => 0))

  /** The board `reset` produces. */
  function Blank(): Grid {
    seq(N, _ => seq(N, _ => EMPTY))
  }

  predicate InBounds(r: int, c: int) {
    0 <= r < N && 0 <= c < N
  }

  /** The side to move after `p`: WHITE after BLACK, BLACK after anything else. */
  function Opponent(p: int): int {
    if p == BLACK then WHITE else BLACK
  }

  /** The grid with cell (r, c) set to `x` and every other cell as before. */
  function Put(g: Grid, r: int, c: int, x: int): (h: Grid)
    requires InBounds(r, c)
    ensures h[r][c] == x
    ensures forall i, j {:trigger h[i][j]} :: InBounds(i, j) && (i, j) != (r, c) ==> h[i][j] == g[i][j]
  {
    g[r := g[r][c := x]]
  }

  /** Two grids are equal when they agree on every cell. */
  lemma GridsEqual(a: Grid, b: Grid)
    requires forall i, j :: InBounds(i, j) ==> a[i][j] == b[i][j]
    ensures a == b
  {
    forall i | 0 <= i < N
      ensures a[i] == b[i]
    {
      assert forall j :: 0 <= j < N ==> a[i][j] == b[i][j];
    }
  }

  /** Putting back what a cell held undoes a write to it: the place/undo round trip. */
  lemma PutUndo(g: Grid, r: int, c: int, x: int)
    requires InBounds(r, c)
    ensures Put(Put(g, r, c, x), r, c, g[r][c]) == g
  {
    GridsEqual(Put(Put(g, r, c, x), r, c, g[r][c]), g);
  }

  /** A cell a move may go to: on the board and EMPTY. */
  predicate Free(g: Grid, r: int, c: int) {
    InBounds(r, c) && g[r][c] == EMPTY
  }

  /** Placing a stone and clearing it again gives back the board, because the
      cell was EMPTY to begin with: makeMove followed by undoMove. */
  lemma MoveThenUndo(g: Grid, r: int, c: int, p: int)
    requires Free(g, r, c)
    ensures Put(Put(g, r, c, p), r, c, EMPTY) == g
  {
    PutUndo(g, r, c, p);
  }

  /** After placing p the cell is free again only if p is EMPTY itself, so a
      second makeMove on the same cell is refused for any real stone. */
  lemma PlacedCellTaken(g: Grid, r: int, c: int, p: int)
    requires InBounds(r, c)
    ensures Free(Put(g, r, c, p), r, c) <==> p == EMPTY
  {
  }

  /** The EMPTY cells of the board. */
  ghost function Empties(g: Grid): set<(int, int)> {
    set r, c | 0 <= r < N && 0 <= c < N && g[r][c] == EMPTY :: (r, c)
  }

  lemma {:induction false} SubsetCard<T>(a: set<T>, b: set<T>)
    requires a <= b
    ensures |a| <= |b|
    decreases |a|
  {
    if a != {} {
      var x :| x in a;
      SubsetCard(a - {x}, b - {x});
    }
  }

  /** One write removes at most one EMPTY cell. */
  lemma EmptiesAfterPut(g: Grid, r: int, c: int, x: int)
    requires InBounds(r, c)
    ensures |Empties(Put(g, r, c, x))| >= |Empties(g)| - 1
  {
    var h := Put(g, r, c, x);
    assert Empties(g) - {(r, c)} <= Empties(h);
    SubsetCard(Empties(g) - {(r, c)}, Empties(h));
  }

  /** A board with an EMPTY cell has a free cell. */
  lemma EmptiesFree(g: Grid)
    requires |Empties(g)| > 0
    ensures exists r, c :: Free(g, r, c)
  {
    var x :| x in Empties(g);
    assert Free(g, x.0, x.1);
  }

  /** The test every scanning loop of the source repeats: in bounds and holding `p`. */
  predicate Owned(g: Grid, r: int, c: int, p: int) {
    InBounds(r, c) && g[r][c] == p
  }

  /** A unit step in one of the eight compass directions. */
  predicate IsStep(dr: int, dc: int) {
    -1 <= dr <= 1 && -1 <= dc <= 1 && (dr, dc) != (0, 0)
  }

  /** How many more steps stay on the board: the termination measure of a scan. */
  function Reach(r: int, c: int, dr: int, dc: int): nat {
    if !InBounds(r, c) then 0
    else
      (if dr == 1 then N - r else if dr == -1 then r + 1 else 0) +
      (if dc == 1 then N - c else if dc == -1 then c + 1 else 0)
  }

  /** The coordinate `j` unit steps of sign `d` away from `x`. */
  function Walk(x: int, d: int, j: int): int {
    if d == 1 then x + j else if d == -1 then x - j else x
  }

  /** Length of the run of `p` cells starting AT (r, c) and going in direction
      (dr, dc): what one scanning loop of Gobang/gomoku.h (lines 57, 59, 92
      and 95) counts. */
  function RunLen(g: Grid, r: int, c: int, dr: int, dc: int, p: int): nat
    requires IsStep(dr, dc)
    decreases Reach(r, c, dr, dc)
  {
    if Owned(g, r, c, p) then 1 + RunLen(g, r + dr, c + dc, dr, dc, p) else 0
  }

  /** The first position of that scan that is off the board or not `p`:
      where the scanning loop leaves (rr, cc). */
  function RunEnd(g: Grid, r: int, c: int, dr: int, dc: int, p: int): (int, int)
    requires IsStep(dr, dc)
    decreases Reach(r, c, dr, dc)
  {
    if Owned(g, r, c, p) then RunEnd(g, r + dr, c + dc, dr, dc, p) else (r, c)
  }

  /** The source's `cnt` for one direction: the queried cell counted as 1
      without being read, plus the runs forward and backward of it. */
  function LineCount(g: Grid, r: int, c: int, dr: int, dc: int, p: int): nat
    requires IsStep(dr, dc)
  {
    1 + RunLen(g, r + dr, c + dc, dr, dc, p) + RunLen(g, r - dr, c - dc, -dr, -dc, p)
  }

  /** The count along direction d reaches five. */
  predicate WinsAlong(g: Grid, r: int, c: int, d: (int, int), p: int)
    requires IsStep(d.0, d.1)
  {
    LineCount(g, r, c, d.0, d.1, p) >= 5
  }

  /** What `checkWin(r, c, player)` decides. */
  predicate Wins(g: Grid, r: int, c: int, p: int) {
    exists i | 0 <= i < |DIRS| :: WinsAlong(g, r, c, DIRS[i], p)
  }

  /** The first `k` cells from (r, c) in direction (dr, dc) are on the board and hold `p`. */
  ghost predicate Segment(g: Grid, r: int, c: int, dr: int, dc: int, p: int, k: int) {
    forall j :: 0 <= j < k ==> Owned(g, Walk(r, dr, j), Walk(c, dc, j), p)
  }

  /** The recursive run length is the longest segment of `p` cells: it is at
      least `k` exactly when the first `k` cells all hold `p`. */
  lemma {:induction false} RunLenAtLeast(g: Grid, r: int, c: int, dr: int, dc: int, p: int, k: nat)
    requires IsStep(dr, dc)
    ensures RunLen(g, r, c, dr, dc, p) >= k <==> Segment(g, r, c, dr, dc, p, k)
    decreases k
  {
    if k > 0 {
      var r1, c1 := r + dr, c + dc;
      RunLenAtLeast(g, r1, c1, dr, dc, p, k - 1);
      if Segment(g, r, c, dr, dc, p, k) {
        assert Owned(g, Walk(r, dr, 0), Walk(c, dc, 0), p);
        forall j | 0 <= j < k - 1
          ensures Owned(g, Walk(r1, dr, j), Walk(c1, dc, j), p)
        {
          assert Walk(r1, dr, j) == Walk(r, dr, j + 1);
          assert Walk(c1, dc, j) == Walk(c, dc, j + 1);
        }
      }
      if RunLen(g, r, c, dr, dc, p) >= k {
        forall j | 0 <= j < k
          ensures Owned(g, Walk(r, dr, j), Walk(c, dc, j), p)
        {
          if j > 0 {
            assert Walk(r1, dr, j - 1) == Walk(r, dr, j);
            assert Walk(c1, dc, j - 1) == Walk(c, dc, j);
          }
        }
      }
    }
  }

  /** Where a scan stops: RunLen(g, r, c, dr, dc, p) steps past (r, c), on
      the first cell that is off the board or does not hold `p`. This is the
      cell evaluateOneSide tests for an open end. */
  lemma {:induction false} RunEndAfterRun(g: Grid, r: int, c: int, dr: int, dc: int, p: int)
    requires IsStep(dr, dc)
    ensures RunEnd(g, r, c, dr, dc, p)
      == (Walk(r, dr, RunLen(g, r, c, dr, dc, p)), Walk(c, dc, RunLen(g, r, c, dr, dc, p)))
    ensures !Owned(g, RunEnd(g, r, c, dr, dc, p).0, RunEnd(g, r, c, dr, dc, p).1, p)
    decreases Reach(r, c, dr, dc)
  {
    if Owned(g, r, c, p) {
      RunEndAfterRun(g, r + dr, c + dc, dr, dc, p);
    }
  }

  /** Five in a row through (r, c) along d: `a` stones of `p` ahead of (r, c)
      and 4 - a behind it, the cell (r, c) itself left unread. */
  ghost predicate Window(g: Grid, r: int, c: int, d: (int, int), p: int, a: int) {
    0 <= a <= 4 &&
    Segment(g, r + d.0, c + d.1, d.0, d.1, p, a) &&
    Segment(g, r - d.0, c - d.1, -d.0, -d.1, p, 4 - a)
  }

  /** A count of five or more leaves room for a window: take up to four of
      the stones ahead and fill the rest from behind. */
  lemma WindowOfRun(g: Grid, r: int, c: int, d: (int, int), p: int) returns (a: int)
    requires IsStep(d.0, d.1) && WinsAlong(g, r, c, d, p)
    ensures Window(g, r, c, d, p, a)
  {
    var (dr, dc) := d;
    var fwd := RunLen(g, r + dr, c + dc, dr, dc, p);
    a := if fwd < 4 then fwd else 4;
    RunLenAtLeast(g, r + dr, c + dc, dr, dc, p, a);
    RunLenAtLeast(g, r - dr, c - dc, -dr, -dc, p, 4 - a);
  }

  /** A window makes the two runs long enough for a count of five. */
  lemma RunOfWindow(g: Grid, r: int, c: int, d: (int, int), p: int, a: int)
    requires IsStep(d.0, d.1) && Window(g, r, c, d, p, a)
    ensures WinsAlong(g, r, c, d, p)
  {
    var (dr, dc) := d;
    RunLenAtLeast(g, r + dr, c + dc, dr, dc, p, a);
    RunLenAtLeast(g, r - dr, c - dc, -dr, -dc, p, 4 - a);
    assert LineCount(g, r, c, dr, dc, p) >= 5;
  }

  /** Along one direction, the count reaches five exactly when some window of
      five consecutive positions through (r, c) has a `p` stone everywhere but
      at (r, c). Runs longer than five contain such a window, so they win too. */
  lemma WinsAlongIffWindow(g: Grid, r: int, c: int, d: (int, int), p: int)
    requires IsStep(d.0, d.1)
    ensures WinsAlong(g, r, c, d, p) <==> exists a :: Window(g, r, c, d, p, a)
  {
    if WinsAlong(g, r, c, d, p) {
      var a := WindowOfRun(g, r, c, d, p);
    }
    if a :| Window(g, r, c, d, p, a) {
      RunOfWindow(g, r, c, d, p, a);
    }
  }

  /** checkWin reports a win exactly when one of the four directions has such a window. */
  lemma WinsIffWindow(g: Grid, r: int, c: int, p: int)
    ensures Wins(g, r, c, p) <==> exists i, a | 0 <= i < |DIRS| :: Window(g, r, c, DIRS[i], p, a)
  {
    forall i | 0 <= i < |DIRS|
      ensures WinsAlong(g, r, c, DIRS[i], p) <==> exists a :: Window(g, r, c, DIRS[i], p, a)
    {
      WinsAlongIffWindow(g, r, c, DIRS[i], p);
    }
  }

  /** (r0, c0) lies strictly behind (r, c) with respect to the step (dr, dc). */
  predicate Behind(r0: int, c0: int, r: int, c: int, dr: int, dc: int) {
    (if dr == 1 then r - r0 else if dr == -1 then r0 - r else 0)
      + (if dc == 1 then c - c0 else if dc == -1 then c0 - c else 0) > 0
  }

  /** A scan never looks at a cell behind its start. */
  lemma {:induction false} RunLenIgnoresBehind(g: Grid, r: int, c: int, dr: int, dc: int, p: int, r0: int, c0: int, x: int)
    requires IsStep(dr, dc) && InBounds(r0, c0) && Behind(r0, c0, r, c, dr, dc)
    ensures RunLen(Put(g, r0, c0, x), r, c, dr, dc, p) == RunLen(g, r, c, dr, dc, p)
    decreases Reach(r, c, dr, dc)
  {
    if Owned(g, r, c, p) {
      RunLenIgnoresBehind(g, r + dr, c + dc, dr, dc, p, r0, c0, x);
    }
  }

  /** Along one direction the count through (r, c) does not read (r, c). */
  lemma WinsAlongIgnoresCell(g: Grid, r: int, c: int, d: (int, int), p: int, x: int)
    requires InBounds(r, c) && IsStep(d.0, d.1)
    ensures WinsAlong(Put(g, r, c, x), r, c, d, p) == WinsAlong(g, r, c, d, p)
  {
    var (dr, dc) := d;
    RunLenIgnoresBehind(g, r + dr, c + dc, dr, dc, p, r, c, x);
    RunLenIgnoresBehind(g, r - dr, c - dc, -dr, -dc, p, r, c, x);
  }

  /** checkWin never reads the queried cell: whatever (r, c) holds, the verdict
      is the same. This is why callers may test a move before or after placing it. */
  lemma WinsIgnoresCell(g: Grid, r: int, c: int, p: int, x: int)
    requires InBounds(r, c)
    ensures Wins(Put(g, r, c, x), r, c, p) == Wins(g, r, c, p)
  {
    forall i | 0 <= i < |DIRS|
      ensures WinsAlong(Put(g, r, c, x), r, c, DIRS[i], p) == WinsAlong(g, r, c, DIRS[i], p)
    {
      WinsAlongIgnoresCell(g, r, c, DIRS[i], p, x);
    }
  }
}
