/** Position scoring (evaluateOneSide and evaluate in Gobang/gomoku.h): every
    cell of a side, in each of the four directions, scores the run through it
    by its length and open ends. Runs are not deduplicated: each cell of a run
    scores the run again. */
module Evaluation {
  import opened Rules

  /** The pattern table, by run length `cnt` and number of open ends `open`. */
  function PatternScore(cnt: int, open: int): (v: nat)
    ensures v in {0, 100, 1000, 5000, 10000, 100000, 1000000}
    ensures cnt >= 5 <==> v == 1000000
  {
    if cnt >= 5 then 1000000
    else if cnt == 4 && open == 2 then 100000
    else if cnt == 4 && open == 1 then 10000
    else if cnt == 3 && open == 2 then 5000
    else if cnt == 3 && open == 1 then 1000
    else if cnt == 2 && open == 2 then 100
    else 0
  }

  /** The cell where a scan from (r, c) stopped is on the board and EMPTY. */
  predicate OpenEnd(g: Grid, r: int, c: int, dr: int, dc: int, p: int)
    requires IsStep(dr, dc)
  {
    Owned(g, RunEnd(g, r, c, dr, dc, p).0, RunEnd(g, r, c, dr, dc, p).1, EMPTY)
  }

  /** The source's `open`: how many of the two ends of the run through (r, c)
      along (dr, dc) are open. */
  function OpenEnds(g: Grid, r: int, c: int, dr: int, dc: int, p: int): nat
    requires IsStep(dr, dc)
  {
    (if OpenEnd(g, r + dr, c + dc, dr, dc, p) then 1 else 0) +
    (if OpenEnd(g, r - dr, c - dc, -dr, -dc, p) then 1 else 0)
  }

  /** What the cell (r, c) adds for direction (dr, dc). */
  function DirScore(g: Grid, r: int, c: int, dr: int, dc: int, p: int): nat
    requires IsStep(dr, dc)
  {
    PatternScore(LineCount(g, r, c, dr, dc, p), OpenEnds(g, r, c, dr, dc, p))
  }

  /** What the cell (r, c) adds for the first k directions. */
  function DirsScore(g: Grid, r: int, c: int, p: int, k: int): (v: nat)
    requires 0 <= k <= |DIRS|
    ensures v <= 1000000 * k
  {
    if k == 0 then 0 else DirsScore(g, r, c, p, k - 1) + DirScore(g, r, c, DIRS[k - 1].0, DIRS[k - 1].1, p)
  }

  /** What the cell (r, c) adds: nothing unless it holds `p`. */
  function CellScore(g: Grid, r: int, c: int, p: int): (v: nat)
    requires InBounds(r, c)
    ensures v <= 4000000
  {
    if g[r][c] == p then DirsScore(g, r, c, p, |DIRS|) else 0
  }

  /** The cells (r, 0) .. (r, c - 1). */
  function RowScore(g: Grid, r: int, c: int, p: int): (v: nat)
    requires 0 <= r < N && 0 <= c <= N
    ensures v <= 4000000 * c
  {
    if c == 0 then 0 else RowScore(g, r, c - 1, p) + CellScore(g, r, c - 1, p)
  }

  /** The rows 0 .. r - 1. */
  function BoardScore(g: Grid, r: int, p: int): (v: nat)
    requires 0 <= r <= N
    ensures v <= 60000000 * r
  {
    if r == 0 then 0 else BoardScore(g, r - 1, p) + RowScore(g, r - 1, N, p)
  }

  /** evaluateOneSide(p): never negative, and at most 900,000,000, so the
      source's 32-bit `score` never overflows. */
  function ScoreOneSide(g: Grid, p: int): (v: nat)
    ensures v <= 900000000
  {
    BoardScore(g, N, p)
  }

  /** evaluate(p): the side's score minus its opponent's; within 32-bit range. */
  function Evaluate(g: Grid, p: int): (v: int)
    ensures -900000000 <= v <= 900000000
  {
    ScoreOneSide(g, p) - ScoreOneSide(g, Opponent(p))
  }

  /** The evaluation is zero-sum between the two colours. */
  lemma EvaluateAntisymmetric(g: Grid, p: int)
    requires p == BLACK || p == WHITE
    ensures Evaluate(g, p) == -Evaluate(g, Opponent(p))
    ensures Evaluate(g, BLACK) == -Evaluate(g, WHITE)
  {
  }

  lemma {:induction false} RowScoreZero(g: Grid, r: int, c: int, p: int)
    requires 0 <= r < N && 0 <= c <= N
    requires forall j :: 0 <= j < c ==> g[r][j] != p
    ensures RowScore(g, r, c, p) == 0
  {
    if c > 0 {
      RowScoreZero(g, r, c - 1, p);
    }
  }

  lemma {:induction false} BoardScoreZero(g: Grid, r: int, p: int)
    requires 0 <= r <= N
    requires forall i, j :: 0 <= i < r && 0 <= j < N ==> g[i][j] != p
    ensures BoardScore(g, r, p) == 0
  {
    if r > 0 {
      BoardScoreZero(g, r - 1, p);
      RowScoreZero(g, r - 1, N, p);
    }
  }

  /** Only the side's own cells score: a side without stones scores 0. */
  lemma ScoreWithoutStones(g: Grid, p: int)
    requires forall r, c :: InBounds(r, c) ==> g[r][c] != p
    ensures ScoreOneSide(g, p) == 0
  {
    BoardScoreZero(g, N, p);
  }

  /** No run deduplication: two neighbouring cells of one run along d see the
      same run length and the same open ends, so each scores the same pattern. */
  lemma RunCellsScoreAlike(g: Grid, r: int, c: int, dr: int, dc: int, p: int)
    requires IsStep(dr, dc)
    requires Owned(g, r, c, p) && Owned(g, r + dr, c + dc, p)
    ensures LineCount(g, r, c, dr, dc, p) == LineCount(g, r + dr, c + dc, dr, dc, p)
    ensures OpenEnds(g, r, c, dr, dc, p) == OpenEnds(g, r + dr, c + dc, dr, dc, p)
    ensures DirScore(g, r, c, dr, dc, p) == DirScore(g, r + dr, c + dc, dr, dc, p)
  {
    assert RunLen(g, r + dr, c + dc, dr, dc, p) == 1 + RunLen(g, r + dr + dr, c + dc + dc, dr, dc, p);
    assert RunLen(g, r, c, -dr, -dc, p) == 1 + RunLen(g, r - dr, c - dc, -dr, -dc, p);
    assert RunEnd(g, r + dr, c + dc, dr, dc, p) == RunEnd(g, r + dr + dr, c + dc + dc, dr, dc, p);
    assert RunEnd(g, r, c, -dr, -dc, p) == RunEnd(g, r - dr, c - dc, -dr, -dc, p);
  }
}
