/** The engine object of Gobang/gomoku.h: a 15x15 board updated in place, the
    last-move marker, and the queries and search that run on it. */
module Engine {
  import opened Rules
  import opened Candidates
  import opened Evaluation
  import Search

  class Gomoku {
    /** The board, row by row. */
    const board: array2<int>
    /** The last move made through MakeMove, (-1, -1) after a reset. */
    var lastR: int
    var lastC: int

    ghost predicate Valid()
      reads this
    {
      board.Length0 == N && board.Length1 == N
    }

    /** The board as a value, for the specification functions. */
    ghost function Cells(): Grid
      reads this, board
      requires Valid()
    {
      seq(N, r requires 0 <= r < N reads board => seq(N, c requires 0 <= c < N reads board => board[r, c]))
    }

    /** A new engine starts from a reset board. */
    constructor ()
      ensures Valid() && fresh(board)
      ensures Cells() == Blank() && lastR == -1 && lastC == -1
    {
      board := new int[N, N];
      new;
      Reset();
    }

    /** reset: every cell EMPTY and no last move. */
    method Reset()
      requires Valid()
      modifies this, board
      ensures Cells() == Blank() && lastR == -1 && lastC == -1
    {
      forall r, c | 0 <= r < N && 0 <= c < N {
        board[r, c] := EMPTY;
      }
      lastR, lastC := -1, -1;
      GridsEqual(Cells(), Blank());
    }

    /** Writes one cell, as the assignments at Gobang/gomoku.h:41, 48, 124 and 127 do. */
    method SetCell(r: int, c: int, x: int)
      requires Valid() && InBounds(r, c)
      modifies board
      ensures Cells() == Put(old(Cells()), r, c, x)
    {
      board[r, c] := x;
      GridsEqual(Cells(), Put(old(Cells()), r, c, x));
    }

    /** makeMove: refused, changing nothing, unless (r, c) is on the board and
        EMPTY; otherwise p is placed there and becomes the last move. */
    method MakeMove(r: int, c: int, p: int) returns (ok: bool)
      requires Valid()
      modifies this, board
      ensures ok == Free(old(Cells()), r, c)
      ensures ok ==> Cells() == Put(old(Cells()), r, c, p) && lastR == r && lastC == c
      ensures !ok ==> Cells() == old(Cells()) && lastR == old(lastR) && lastC == old(lastC)
    {
      if !InBounds(r, c) || board[r, c] != EMPTY {
        return false;
      }
      SetCell(r, c, p);
      lastR, lastC := r, c;
      return true;
    }

    /** undoMove: clears an on-board cell and ignores any other; the last-move
        marker is left as it is. */
    method UndoMove(r: int, c: int)
      requires Valid()
      modifies board
      ensures InBounds(r, c) ==> Cells() == Put(old(Cells()), r, c, EMPTY)
      ensures !InBounds(r, c) ==> Cells() == old(Cells())
    {
      if InBounds(r, c) {
        SetCell(r, c, EMPTY);
      }
    }

    /** One scanning `while` loop of the source: steps from (r, c) in direction
        (dr, dc) while the cell is on the board and holds `p`. */
    method Scan(r: int, c: int, dr: int, dc: int, p: int) returns (n: nat, er: int, ec: int)
      requires Valid() && IsStep(dr, dc)
      ensures n == RunLen(Cells(), r, c, dr, dc, p)
      ensures (er, ec) == RunEnd(Cells(), r, c, dr, dc, p)
    {
      n, er, ec := 0, r, c;
      while InBounds(er, ec) && board[er, ec] == p
        invariant n + RunLen(Cells(), er, ec, dr, dc, p) == RunLen(Cells(), r, c, dr, dc, p)
        invariant RunEnd(Cells(), er, ec, dr, dc, p) == RunEnd(Cells(), r, c, dr, dc, p)
        decreases Reach(er, ec, dr, dc)
      {
        n, er, ec := n + 1, er + dr, ec + dc;
      }
    }

    /** checkWin: whether a `p` stone at (r, c) completes five in a row. */
    method CheckWin(r: int, c: int, p: int) returns (win: bool)
      requires Valid()
      ensures win == Wins(Cells(), r, c, p)
    {
      for i := 0 to |DIRS|
        invariant forall j :: 0 <= j < i ==> !WinsAlong(Cells(), r, c, DIRS[j], p)
      {
        var (dr, dc) := DIRS[i];
        var fwd, _, _ := Scan(r + dr, c + dc, dr, dc, p);
        var bwd, _, _ := Scan(r - dr, c - dc, -dr, -dc, p);
        var cnt := 1 + fwd + bwd;
        if cnt >= 5 {
          return true;
        }
      }
      return false;
    }

    /** The innermost loop of genCandidates: the EMPTY cells of row r + dr
        within two columns of c are added to `s`. */
    method MarkStrip(r: int, c: int, dr: int, s: set<Cell>) returns (t: set<Cell>)
      requires Valid()
      ensures t == s + Strip(Cells(), r, c, dr, 3)
    {
      t := s;
      for dc := -2 to 3
        invariant t == s + Strip(Cells(), r, c, dr, dc)
      {
        var nr, nc := r + dr, c + dc;
        if InBounds(nr, nc) && board[nr, nc] == EMPTY {
          t := t + {(nr, nc)};
        }
      }
    }

    /** The two innermost loops of genCandidates around the stone at (r, c):
        every EMPTY cell of its 5x5 neighbourhood is added to `s`. */
    method MarkAround(r: int, c: int, s: set<Cell>) returns (t: set<Cell>)
      requires Valid()
      ensures t == s + Block(Cells(), r, c, 3)
    {
      t := s;
      for dr := -2 to 3
        invariant t == s + Block(Cells(), r, c, dr)
      {
        t := MarkStrip(r, c, dr, t);
      }
    }

    /** The body of genCandidates' `c` loop: a stone at (r, c) marks its
        neighbourhood, an EMPTY cell marks nothing. */
    method MarkCell(r: int, c: int, s: set<Cell>) returns (t: set<Cell>)
      requires Valid() && InBounds(r, c)
      ensures t == s + Marks(Cells(), r, c)
    {
      t := s;
      if board[r, c] != EMPTY {
        t := MarkAround(r, c, t);
      }
    }

    /** The `c` loop of genCandidates for row r. */
    method MarkRow(r: int, s: set<Cell>) returns (t: set<Cell>)
      requires Valid() && 0 <= r < N
      ensures t == s + RowMarks(Cells(), r, N)
    {
      t := s;
      for c := 0 to N
        invariant t == s + RowMarks(Cells(), r, c)
      {
        t := MarkCell(r, c, t);
      }
    }

    /** genCandidates: the empty cells within distance 2 of a stone, in
        increasing order, or the centre when there are none. */
    method GenCandidates() returns (cand: seq<Cell>)
      requires Valid()
      ensures cand == Candidates.GenCandidates(Cells())
    {
      ghost var g := Cells();
      var s: set<Cell> := {};
      for r := 0 to N
        invariant s == BoardMarks(g, r)
      {
        s := MarkRow(r, s);
      }
      MarksGiveCandidates(g);
      if s == {} {
        cand := [CENTRE];
      } else {
        cand := Ordered(s);
      }
    }

    /** One side of evaluateOneSide's direction step: the scan from (r, c)
        along (dr, dc), and whether the cell where it stopped is an open end
        (on the board and EMPTY). */
    method ScanSide(r: int, c: int, dr: int, dc: int, p: int) returns (n: nat, open: bool)
      requires Valid() && IsStep(dr, dc)
      ensures n == RunLen(Cells(), r, c, dr, dc, p)
      ensures open == OpenEnd(Cells(), r, c, dr, dc, p)
    {
      var er, ec;
      n, er, ec := Scan(r, c, dr, dc, p);
      open := InBounds(er, ec) && board[er, ec] == EMPTY;
    }

    /** The body of evaluateOneSide's direction loop: the run through (r, c)
        along d, its open ends, and the table entry they select. */
    method RunScore(r: int, c: int, dr: int, dc: int, p: int) returns (v: int)
      requires Valid() && IsStep(dr, dc)
      ensures v == DirScore(Cells(), r, c, dr, dc, p)
    {
      var fwd, f1 := ScanSide(r + dr, c + dc, dr, dc, p);
      var bwd, f2 := ScanSide(r - dr, c - dc, -dr, -dc, p);
      var cnt, open := 1 + fwd + bwd, (if f1 then 1 else 0) + (if f2 then 1 else 0);
      assert cnt == LineCount(Cells(), r, c, dr, dc, p) && open == OpenEnds(Cells(), r, c, dr, dc, p);
      v := PatternScore(cnt, open);
    }

    /** The direction loop of evaluateOneSide for one cell holding p. */
    method CellRuns(r: int, c: int, p: int) returns (v: int)
      requires Valid() && InBounds(r, c) && board[r, c] == p
      ensures v == CellScore(Cells(), r, c, p)
    {
      v := 0;
      for i := 0 to |DIRS|
        invariant v == DirsScore(Cells(), r, c, p, i)
      {
        var s := RunScore(r, c, DIRS[i].0, DIRS[i].1, p);
        v := v + s;
      }
    }

    /** The column loop of evaluateOneSide over row r. */
    method RowRuns(r: int, p: int) returns (v: int)
      requires Valid() && 0 <= r < N
      ensures v == RowScore(Cells(), r, N, p)
    {
      v := 0;
      for c := 0 to N
        invariant v == RowScore(Cells(), r, c, p)
      {
        if board[r, c] == p {
          var s := CellRuns(r, c, p);
          v := v + s;
        }
      }
    }

    /** evaluateOneSide(p): for every cell holding p and every direction, the
        pattern score of the run through that cell. */
    method EvaluateOneSide(p: int) returns (score: int)
      requires Valid()
      ensures score == ScoreOneSide(Cells(), p)
    {
      score := 0;
      for r := 0 to N
        invariant score == BoardScore(Cells(), r, p)
      {
        var s := RowRuns(r, p);
        score := score + s;
      }
    }

    /** evaluate(p): p's score minus its opponent's. */
    method Evaluate(p: int) returns (v: int)
      requires Valid()
      ensures v == Evaluation.Evaluate(Cells(), p)
    {
      var my := EvaluateOneSide(p);
      var opp := EvaluateOneSide(Opponent(p));
      v := my - opp;
    }

    /** evaluate(p), seen through the queries q of the search. */
    method EvaluateAs(ghost q: Search.Queries, p: int) returns (v: int)
      requires Valid() && Search.AgreesWithEngine(q)
      ensures v == q.evaluate(Cells(), p)
    {
      v := Evaluate(p);
    }

    /** genCandidates(), seen through the queries q of the search. */
    method CandidatesAs(ghost q: Search.Queries) returns (cand: seq<Cell>)
      requires Valid() && Search.AgreesWithEngine(q) && Search.OnBoard(q)
      ensures cand == q.candidates(Cells())
      ensures forall x :: x in cand ==> InBounds(x.0, x.1)
    {
      cand := GenCandidates();
    }

    /** One candidate of the search loops: place p at (r, c), test for a win,
        otherwise search the reply to depth d, then write EMPTY back. */
    method TryMove(ghost q: Search.Queries, d: nat, p: int, r: int, c: int) returns (won: bool, val: int)
      requires Valid() && Search.AgreesWithEngine(q) && Search.OnBoard(q) && InBounds(r, c)
      modifies board
      ensures won == q.wins(Put(old(Cells()), r, c, p), r, c, p)
      ensures won ==> val == Search.WIN_SCORE && Cells() == Put(Put(old(Cells()), r, c, p), r, c, EMPTY)
      ensures !won ==>
        var child := Search.Negamax(q, Put(old(Cells()), r, c, p), d, Opponent(p));
        val == -child.value && Cells() == Put(child.grid, r, c, EMPTY)
      decreases d + 1, 0
    {
      SetCell(r, c, p);
      won := CheckWin(r, c, p);
      if won {
        SetCell(r, c, EMPTY);
        return won, Search.WIN_SCORE;
      }
      val := Negamax(q, d, Opponent(p));
      val := -val;
      SetCell(r, c, EMPTY);
    }

    /** One pass of negamax's loop, on the first of the remaining candidates:
        either it wins, or the loop goes on with the updated best value. */
    method ExploreStep(ghost q: Search.Queries, d: nat, p: int, cand: seq<Cell>, best: int)
      returns (won: bool, best': int)
      requires Valid() && Search.AgreesWithEngine(q) && Search.OnBoard(q)
      requires cand != [] && forall x :: x in cand ==> InBounds(x.0, x.1)
      modifies board
      ensures won ==> Search.Explore(q, old(Cells()), d, p, cand, best) == Search.Outcome(best', Cells())
      ensures !won ==> Search.Explore(q, old(Cells()), d, p, cand, best)
                       == Search.Explore(q, Cells(), d, p, cand[1..], best')
      decreases d + 1, 1
    {
      var val;
      won, val := TryMove(q, d, p, cand[0].0, cand[0].1);
      best' := if won || val > best then val else best;
    }

    /** negamax(depth, p): the value and the final board are those of the
        search function, run on the board as it was. */
    method Negamax(ghost q: Search.Queries, depth: nat, p: int) returns (v: int)
      requires Valid() && Search.AgreesWithEngine(q) && Search.OnBoard(q)
      modifies board
      ensures Search.Negamax(q, old(Cells()), depth, p) == Search.Outcome(v, Cells())
      ensures |Empties(old(Cells()))| >= depth ==> Cells() == old(Cells())
      decreases depth, 2
    {
      Search.EngineNegamaxRestores(q, Cells(), depth, p);
      if depth == 0 {
        v := EvaluateAs(q, p);
        return;
      }
      var best := Search.NO_MOVES;
      var cand := CandidatesAs(q);
      for i := 0 to |cand|
        invariant Search.Explore(q, Cells(), depth - 1, p, cand[i..], best)
          == Search.Negamax(q, old(Cells()), depth, p)
      {
        var won;
        won, best := ExploreStep(q, depth - 1, p, cand[i..], best);
        if won {
          return best;
        }
        assert cand[i..][1..] == cand[i + 1..];
      }
      assert cand[|cand|..] == [];
      return best;
    }

    /** One pass of bestMove's loop, on candidate i: either it wins and is the
        move, or the loop goes on with the updated best move and value. */
    method PickStep(ghost q: Search.Queries, d: nat, p: int, cand: seq<Cell>, i: nat, best: Cell, bestVal: int)
      returns (won: bool, best': Cell, bestVal': int)
      requires Valid() && Search.AgreesWithEngine(q) && Search.OnBoard(q)
      requires i < |cand| && forall x :: x in cand ==> InBounds(x.0, x.1)
      modifies board
      ensures won ==> Search.Pick(q, old(Cells()), d, p, cand, i, best, bestVal) == Search.Choice(cand[i], Cells())
      ensures !won ==> Search.Pick(q, old(Cells()), d, p, cand, i, best, bestVal)
                       == Search.Pick(q, Cells(), d, p, cand, i + 1, best', bestVal')
    {
      var val;
      won, val := TryMove(q, d, p, cand[i].0, cand[i].1);
      best', bestVal' := best, bestVal;
      if !won && val > bestVal {
        best', bestVal' := cand[i], val;
      }
    }

    /** bestMove(p, depth): the move and the final board are those of the
        search function, run on the board as it was. */
    method BestMove(ghost q: Search.Queries, p: int, depth: nat) returns (move: Cell)
      requires Valid() && depth >= 1 && Search.AgreesWithEngine(q) && Search.OnBoard(q)
      modifies board
      ensures Search.BestMove(q, old(Cells()), p, depth) == Search.Choice(move, Cells())
      ensures |Empties(old(Cells()))| >= depth ==> Cells() == old(Cells())
    {
      Search.EngineBestMoveRestores(q, Cells(), p, depth);
      var cand := CandidatesAs(q);
      var best: Cell := (-1, -1);
      var bestVal := Search.NO_MOVES;
      for i := 0 to |cand|
        invariant Search.Pick(q, Cells(), depth - 1, p, cand, i, best, bestVal)
          == Search.BestMove(q, old(Cells()), p, depth)
      {
        var won;
        won, best, bestVal := PickStep(q, depth - 1, p, cand, i, best, bestVal);
        if won {
          return cand[i];
        }
      }
      if best.0 == -1 && |cand| != 0 {
        best := cand[0];
      }
      return best;
    }
  }
}
