/** The fixed-depth search (negamax and bestMove in Gobang/gomoku.h). The
    source places a stone on the shared board, recurses, then writes EMPTY
    back; the functions here thread the board through the same steps, so they
    say what the search returns AND what board it leaves behind.

    The search is written over the three board queries it calls (genCandidates,
    checkWin and evaluate), gathered in a Queries record. GOMOKU is the record
    of the engine's own functions, and AgreesWithEngine(q) says that q answers
    as they do. The general lemmas state what they need of the queries as the
    predicates OnBoard, FreeWhileEmpty and NeverEmpty, which EngineQueries
    proves for any record that agrees with the engine. */
module Search {
  import opened Rules
  import Candidates
  import Evaluation

  type Cell = Candidates.Cell

  /** Returned as soon as a placement wins. */
  const WIN_SCORE: int := 1000000
  /** The initial `best` of both loops. */
  const NO_MOVES: int := -9999999

  /** genCandidates(), checkWin(r, c, player) and evaluate(player), each as a
      function of the board. */
  datatype Queries = Queries(
    candidates: Grid -> seq<Cell>,
    wins: (Grid, int, int, int) -> bool,
    evaluate: (Grid, int) -> int)

  /** The queries of the engine. */
  ghost const GOMOKU: Queries := Queries(Candidates.GenCandidates, Rules.Wins, Evaluation.Evaluate)

  /** Every candidate lies on the board. */
  ghost predicate OnBoard(q: Queries) {
    forall g: Grid, x :: x in q.candidates(g) ==> InBounds(x.0, x.1)
  }

  /** While the board has an EMPTY cell, every candidate is free. */
  ghost predicate FreeWhileEmpty(q: Queries) {
    forall g: Grid :: |Empties(g)| >= 1 ==> AllFree(g, q.candidates(g))
  }

  /** The candidate list is never empty. */
  ghost predicate NeverEmpty(q: Queries) {
    forall g: Grid :: q.candidates(g) != []
  }

  /** q answers every query exactly as the engine's own functions do. */
  ghost predicate AgreesWithEngine(q: Queries) {
    && (forall g: Grid {:trigger Candidates.GenCandidates(g)} :: q.candidates(g) == Candidates.GenCandidates(g))
    && (forall g: Grid, r, c, p {:trigger Rules.Wins(g, r, c, p)} :: q.wins(g, r, c, p) == Rules.Wins(g, r, c, p))
    && (forall g: Grid, p {:trigger Evaluation.Evaluate(g, p)} :: q.evaluate(g, p) == Evaluation.Evaluate(g, p))
  }

  /** Every cell of cand is on the board and EMPTY. */
  ghost predicate AllFree(g: Grid, cand: seq<Cell>) {
    forall x :: x in cand ==> Free(g, x.0, x.1)
  }

  /** A search value and the board the search leaves. */
  datatype Outcome = Outcome(value: int, grid: Grid)

  /** A chosen move and the board the search leaves. */
  datatype Choice = Choice(move: Cell, grid: Grid)

  /** negamax(depth, p) run on the board g. */
  ghost function Negamax(q: Queries, g: Grid, depth: nat, p: int): Outcome
    requires OnBoard(q)
    decreases depth, 1
  {
    if depth == 0 then Outcome(q.evaluate(g, p), g)
    else Explore(q, g, depth - 1, p, q.candidates(g), NO_MOVES)
  }

  /** The candidate loop of negamax over the remaining candidates `cand`, with
      the best value so far; each child search runs to depth d (the source's
      depth - 1). */
  ghost function Explore(q: Queries, g: Grid, d: nat, p: int, cand: seq<Cell>, best: int): Outcome
    requires OnBoard(q)
    requires forall x :: x in cand ==> InBounds(x.0, x.1)
    decreases d + 1, 0, |cand|
  {
    if cand == [] then Outcome(best, g)
    else
      var r, c := cand[0].0, cand[0].1;
      var placed := Put(g, r, c, p);
      if q.wins(placed, r, c, p) then Outcome(WIN_SCORE, Put(placed, r, c, EMPTY))
      else
        var child := Negamax(q, placed, d, Opponent(p));
        var v := -child.value;
        Explore(q, Put(child.grid, r, c, EMPTY), d, p, cand[1..], if v > best then v else best)
  }

  /** The candidate loop of bestMove from index i, with the best move and value
      so far; each child search runs to depth d (the source's depth - 1). */
  ghost function Pick(q: Queries, g: Grid, d: nat, p: int, cand: seq<Cell>, i: nat, best: Cell, bestVal: int): Choice
    requires OnBoard(q) && i <= |cand|
    requires forall x :: x in cand ==> InBounds(x.0, x.1)
    decreases |cand| - i
  {
    if i == |cand| then Choice(if best.0 == -1 && cand != [] then cand[0] else best, g)
    else
      var r, c := cand[i].0, cand[i].1;
      var placed := Put(g, r, c, p);
      if q.wins(placed, r, c, p) then Choice(cand[i], Put(placed, r, c, EMPTY))
      else
        var child := Negamax(q, placed, d, Opponent(p));
        var v := -child.value;
        var after := Put(child.grid, r, c, EMPTY);
        if v > bestVal then Pick(q, after, d, p, cand, i + 1, cand[i], v)
        else Pick(q, after, d, p, cand, i + 1, best, bestVal)
  }

  /** bestMove(p, depth) run on the board g. */
  ghost function BestMove(q: Queries, g: Grid, p: int, depth: nat): Choice
    requires OnBoard(q) && depth >= 1
  {
    Pick(q, g, depth - 1, p, q.candidates(g), 0, (-1, -1), NO_MOVES)
  }

  // What a placement means on an unchanged board.

  /** Placing p at x completes five. */
  ghost predicate WinningMove(q: Queries, g: Grid, p: int, x: Cell)
    requires InBounds(x.0, x.1)
  {
    q.wins(Put(g, x.0, x.1, p), x.0, x.1, p)
  }

  /** The negated value of the opponent's depth-d search after p plays x. */
  ghost function ChildValue(q: Queries, g: Grid, d: nat, p: int, x: Cell): int
    requires OnBoard(q) && InBounds(x.0, x.1)
  {
    -Negamax(q, Put(g, x.0, x.1, p), d, Opponent(p)).value
  }

  /** GOMOKU is one such record of queries, and meets what the engine's
      search methods require of their queries: one call readies a caller. */
  lemma GomokuAgrees()
    ensures AgreesWithEngine(GOMOKU) && OnBoard(GOMOKU)
  {
    EngineQueries(GOMOKU);
  }

  /** The engine's queries meet what the search lemmas assume of them. */
  lemma EngineQueries(q: Queries)
    requires AgreesWithEngine(q)
    ensures OnBoard(q) && FreeWhileEmpty(q) && NeverEmpty(q)
  {
    forall g: Grid
      ensures q.candidates(g) != [] && forall x :: x in q.candidates(g) ==> InBounds(x.0, x.1)
    {
      assert q.candidates(g) == Candidates.GenCandidates(g);
    }
    forall g: Grid | |Empties(g)| >= 1
      ensures AllFree(g, q.candidates(g))
    {
      assert q.candidates(g) == Candidates.GenCandidates(g);
      EmptiesFree(g);
      Candidates.CandidatesAreFree(g);
    }
  }

  /** Dropping the first candidate keeps the rest free. */
  lemma AllFreeTail(g: Grid, cand: seq<Cell>)
    requires cand != [] && AllFree(g, cand)
    ensures Free(g, cand[0].0, cand[0].1) && AllFree(g, cand[1..])
  {
    assert cand[0] in cand;
    forall x | x in cand[1..] ensures Free(g, x.0, x.1) {
      assert x in cand;
    }
  }

  // The board comes back.

  lemma {:induction false} NegamaxRestores(q: Queries, g: Grid, depth: nat, p: int)
    requires OnBoard(q) && FreeWhileEmpty(q)
    requires |Empties(g)| >= depth
    ensures Negamax(q, g, depth, p).grid == g
    decreases depth, 1
  {
    if depth > 0 {
      ExploreRestores(q, g, depth - 1, p, q.candidates(g), NO_MOVES);
    }
  }

  lemma {:induction false} ExploreRestores(q: Queries, g: Grid, d: nat, p: int, cand: seq<Cell>, best: int)
    requires OnBoard(q) && FreeWhileEmpty(q)
    requires |Empties(g)| >= d + 1
    requires forall x :: x in cand ==> InBounds(x.0, x.1)
    requires AllFree(g, cand)
    ensures Explore(q, g, d, p, cand, best).grid == g
    decreases d + 1, 0, |cand|
  {
    if cand != [] {
      var r, c := cand[0].0, cand[0].1;
      AllFreeTail(g, cand);
      if q.wins(Put(g, r, c, p), r, c, p) {
        PutUndo(g, r, c, p);
      } else {
        StepRestores(q, g, d, p, r, c);
        var v := ChildValue(q, g, d, p, cand[0]);
        ExploreRestores(q, g, d, p, cand[1..], if v > best then v else best);
      }
    }
  }

  /** One iteration of either candidate loop that does not win puts the board
      back: the child search restores what it used and the cell is cleared. */
  lemma StepRestores(q: Queries, g: Grid, d: nat, p: int, r: int, c: int)
    requires OnBoard(q) && FreeWhileEmpty(q)
    requires |Empties(g)| >= d + 1 && Free(g, r, c)
    ensures Put(Negamax(q, Put(g, r, c, p), d, Opponent(p)).grid, r, c, EMPTY) == g
    decreases d + 1, 0, 0
  {
    var placed := Put(g, r, c, p);
    PutUndo(g, r, c, p);
    EmptiesAfterPut(g, r, c, p);
    NegamaxRestores(q, placed, d, Opponent(p));
  }

  lemma {:induction false} PickRestores(q: Queries, g: Grid, d: nat, p: int, cand: seq<Cell>, i: nat, best: Cell, bestVal: int)
    requires OnBoard(q) && FreeWhileEmpty(q)
    requires |Empties(g)| >= d + 1 && i <= |cand|
    requires forall x :: x in cand ==> InBounds(x.0, x.1)
    requires AllFree(g, cand)
    ensures Pick(q, g, d, p, cand, i, best, bestVal).grid == g
    decreases |cand| - i
  {
    if i < |cand| {
      var r, c := cand[i].0, cand[i].1;
      assert cand[i] in cand;
      if q.wins(Put(g, r, c, p), r, c, p) {
        PutUndo(g, r, c, p);
      } else {
        StepRestores(q, g, d, p, r, c);
        var v := ChildValue(q, g, d, p, cand[i]);
        PickRestores(q, g, d, p, cand, i + 1, cand[i], v);
        PickRestores(q, g, d, p, cand, i + 1, best, bestVal);
      }
    }
  }

  /** With at least `depth` EMPTY cells negamax and bestMove leave the board
      as they found it. (On a full board the engine's do not: the centre
      fallback candidate is overwritten and cleared.) */
  lemma SearchRestores(q: Queries, g: Grid, depth: nat, p: int)
    requires OnBoard(q) && FreeWhileEmpty(q)
    requires depth >= 1 && |Empties(g)| >= depth
    ensures Negamax(q, g, depth, p).grid == g
    ensures BestMove(q, g, p, depth).grid == g
  {
    NegamaxRestores(q, g, depth, p);
    var cand := q.candidates(g);
    assert AllFree(g, cand);
    PickRestores(q, g, depth - 1, p, cand, 0, (-1, -1), NO_MOVES);
  }

  // The value negamax returns.

  /** Some candidate of cand wins outright for p on g. */
  ghost predicate AnyWins(q: Queries, g: Grid, p: int, cand: seq<Cell>)
    requires forall x :: x in cand ==> InBounds(x.0, x.1)
  {
    exists x :: x in cand && WinningMove(q, g, p, x)
  }

  /** v is the larger of `base` and every child value of cand: at least each
      of them and equal to one of them. */
  ghost predicate IsMax(q: Queries, g: Grid, d: nat, p: int, cand: seq<Cell>, base: int, v: int)
    requires OnBoard(q)
    requires forall x :: x in cand ==> InBounds(x.0, x.1)
  {
    && v >= base
    && (forall x :: x in cand ==> v >= ChildValue(q, g, d, p, x))
    && (v == base || exists x :: x in cand && v == ChildValue(q, g, d, p, x))
  }

  lemma {:induction false} ExploreWins(q: Queries, g: Grid, d: nat, p: int, cand: seq<Cell>, best: int)
    requires OnBoard(q) && FreeWhileEmpty(q)
    requires |Empties(g)| >= d + 1
    requires forall x :: x in cand ==> InBounds(x.0, x.1)
    requires AllFree(g, cand) && AnyWins(q, g, p, cand)
    ensures Explore(q, g, d, p, cand, best).value == WIN_SCORE
    decreases |cand|
  {
    var x := cand[0];
    if !WinningMove(q, g, p, x) {
      AllFreeTail(g, cand);
      StepRestores(q, g, d, p, x.0, x.1);
      var v := ChildValue(q, g, d, p, x);
      var w :| w in cand && WinningMove(q, g, p, w);
      assert w in cand[1..];
      ExploreWins(q, g, d, p, cand[1..], if v > best then v else best);
    }
  }

  lemma {:induction false} ExploreMax(q: Queries, g: Grid, d: nat, p: int, cand: seq<Cell>, best: int)
    requires OnBoard(q) && FreeWhileEmpty(q)
    requires |Empties(g)| >= d + 1
    requires forall x :: x in cand ==> InBounds(x.0, x.1)
    requires AllFree(g, cand) && !AnyWins(q, g, p, cand)
    ensures IsMax(q, g, d, p, cand, best, Explore(q, g, d, p, cand, best).value)
    decreases |cand|
  {
    if cand != [] {
      var x := cand[0];
      var tail := cand[1..];
      assert x in cand;
      AllFreeTail(g, cand);
      StepRestores(q, g, d, p, x.0, x.1);
      var v := ChildValue(q, g, d, p, x);
      var next := if v > best then v else best;
      assert !AnyWins(q, g, p, tail) by {
        forall y | y in tail ensures !WinningMove(q, g, p, y) {
          assert y in cand;
        }
      }
      ExploreMax(q, g, d, p, tail, next);
      var result := Explore(q, g, d, p, tail, next).value;
      assert Explore(q, g, d, p, cand, best).value == result;
      forall y | y in cand ensures result >= ChildValue(q, g, d, p, y) {
        if y != x {
          assert y in tail;
        }
      }
      if result != next {
        var y :| y in tail && result == ChildValue(q, g, d, p, y);
        assert y in cand;
      }
    }
  }

  /** negamax at depth >= 1, on a board with at least depth EMPTY cells,
      returns the winning score as soon as any candidate wins. */
  lemma NegamaxWins(q: Queries, g: Grid, depth: nat, p: int)
    requires OnBoard(q) && FreeWhileEmpty(q)
    requires depth >= 1 && |Empties(g)| >= depth
    requires AnyWins(q, g, p, q.candidates(g))
    ensures Negamax(q, g, depth, p).value == WIN_SCORE
  {
    ExploreWins(q, g, depth - 1, p, q.candidates(g), NO_MOVES);
  }

  /** Otherwise it returns the maximum of -9999999 and the negated values of
      the opponent's replies. */
  lemma NegamaxMax(q: Queries, g: Grid, depth: nat, p: int)
    requires OnBoard(q) && FreeWhileEmpty(q)
    requires depth >= 1 && |Empties(g)| >= depth
    requires !AnyWins(q, g, p, q.candidates(g))
    ensures IsMax(q, g, depth - 1, p, q.candidates(g), NO_MOVES, Negamax(q, g, depth, p).value)
  {
    ExploreMax(q, g, depth - 1, p, q.candidates(g), NO_MOVES);
  }

  // The move bestMove chooses.

  lemma {:induction false} PickInCand(q: Queries, g: Grid, d: nat, p: int, cand: seq<Cell>, i: nat, best: Cell, bestVal: int)
    requires OnBoard(q) && i <= |cand|
    requires forall x :: x in cand ==> InBounds(x.0, x.1)
    requires best == (-1, -1) || best in cand
    ensures cand != [] ==> Pick(q, g, d, p, cand, i, best, bestVal).move in cand
    ensures cand == [] ==> Pick(q, g, d, p, cand, i, best, bestVal).move == (-1, -1)
    decreases |cand| - i
  {
    if i < |cand| {
      assert cand[i] in cand;
      var r, c := cand[i].0, cand[i].1;
      var placed := Put(g, r, c, p);
      if !q.wins(placed, r, c, p) {
        var child := Negamax(q, placed, d, Opponent(p));
        var after := Put(child.grid, r, c, EMPTY);
        PickInCand(q, after, d, p, cand, i + 1, cand[i], -child.value);
        PickInCand(q, after, d, p, cand, i + 1, best, bestVal);
      }
    }
  }

  /** On every board, full ones included, bestMove returns one of the
      candidates; (-1, -1) comes back only from an empty candidate list. */
  lemma BestMoveIsCandidate(q: Queries, g: Grid, p: int, depth: nat)
    requires OnBoard(q) && depth >= 1
    ensures q.candidates(g) != [] ==> BestMove(q, g, p, depth).move in q.candidates(g)
    ensures q.candidates(g) == [] ==> BestMove(q, g, p, depth).move == (-1, -1)
  {
    PickInCand(q, g, depth - 1, p, q.candidates(g), 0, (-1, -1), NO_MOVES);
  }

  /** The engine's negamax leaves the board as it found it whenever the board
      has at least `depth` EMPTY cells. */
  lemma EngineNegamaxRestores(q: Queries, g: Grid, depth: nat, p: int)
    requires AgreesWithEngine(q) && OnBoard(q)
    ensures |Empties(g)| >= depth ==> Negamax(q, g, depth, p).grid == g
  {
    if depth >= 1 && |Empties(g)| >= depth {
      EngineQueries(q);
      SearchRestores(q, g, depth, p);
    }
  }

  /** The engine's bestMove leaves the board as it found it whenever the
      board has at least `depth` EMPTY cells. */
  lemma EngineBestMoveRestores(q: Queries, g: Grid, p: int, depth: nat)
    requires AgreesWithEngine(q) && OnBoard(q) && depth >= 1
    ensures |Empties(g)| >= depth ==> BestMove(q, g, p, depth).grid == g
  {
    if |Empties(g)| >= depth {
      EngineQueries(q);
      SearchRestores(q, g, depth, p);
    }
  }

  /** The restoration lemmas need an EMPTY cell: on a full board the only
      candidate is the occupied centre, which the search overwrites and then
      clears, so negamax and bestMove both leave the centre EMPTY. */
  lemma FullBoardLosesCentre(q: Queries, g: Grid, depth: nat, p: int)
    requires AgreesWithEngine(q) && OnBoard(q) && depth >= 1
    requires forall r, c :: InBounds(r, c) ==> g[r][c] != EMPTY
    ensures Negamax(q, g, depth, p).grid[7][7] == EMPTY && Negamax(q, g, depth, p).grid != g
    ensures BestMove(q, g, p, depth).grid[7][7] == EMPTY && BestMove(q, g, p, depth).grid != g
  {
    Candidates.CandidatesOnFullBoard(g);
    var cand, d := q.candidates(g), depth - 1;
    assert cand == [(7, 7)] && cand[1..] == [];
    var placed := Put(g, 7, 7, p);
    if !q.wins(placed, 7, 7, p) {
      var after := Put(Negamax(q, placed, d, Opponent(p)).grid, 7, 7, EMPTY);
      assert Explore(q, g, d, p, cand, NO_MOVES).grid == after;
      assert Pick(q, g, d, p, cand, 0, (-1, -1), NO_MOVES).grid == after;
    }
  }

  /** The engine's bestMove returns one of genCandidates' cells and never
      (-1, -1), on every board, full ones included. */
  lemma EngineMoveIsCandidate(q: Queries, g: Grid, p: int, depth: nat)
    requires AgreesWithEngine(q) && OnBoard(q) && depth >= 1
    ensures BestMove(q, g, p, depth).move in Candidates.GenCandidates(g)
    ensures BestMove(q, g, p, depth).move != (-1, -1)
  {
    EngineQueries(q);
    assert q.candidates(g) == Candidates.GenCandidates(g);
    BestMoveIsCandidate(q, g, p, depth);
  }

  /** cand[k] is the first candidate whose placement wins. */
  ghost predicate FirstWin(q: Queries, g: Grid, p: int, cand: seq<Cell>, k: int)
    requires forall x :: x in cand ==> InBounds(x.0, x.1)
  {
    && 0 <= k < |cand|
    && WinningMove(q, g, p, cand[k])
    && forall j :: 0 <= j < k ==> !WinningMove(q, g, p, cand[j])
  }

  /** The child value of every candidate, in candidate order. */
  ghost function ChildValues(q: Queries, g: Grid, d: nat, p: int, cand: seq<Cell>): (vals: seq<int>)
    requires OnBoard(q)
    requires forall x :: x in cand ==> InBounds(x.0, x.1)
    ensures |vals| == |cand|
    ensures forall j :: 0 <= j < |cand| ==> vals[j] == ChildValue(q, g, d, p, cand[j])
  {
    seq(|cand|, j requires 0 <= j < |cand| => ChildValue(q, g, d, p, cand[j]))
  }

  // Which candidate bestMove keeps, stated over the list of child values.

  function Max(a: int, b: int): int {
    if a > b then a else b
  }

  /** Among vals[..i], vals[k] is the first greatest value, and it is above
      -9999999. */
  predicate Leads(vals: seq<int>, i: int, k: int) {
    && 0 <= k < i <= |vals|
    && vals[k] > NO_MOVES
    && (forall j :: 0 <= j < k ==> vals[j] < vals[k])
    && (forall j :: k < j < i ==> vals[j] <= vals[k])
  }

  /** No value among vals[..i] is above -9999999. */
  predicate NoneAbove(vals: seq<int>, i: int)
    requires i <= |vals|
  {
    forall j :: 0 <= j < i ==> vals[j] <= NO_MOVES
  }

  /** What the loop of bestMove keeps about (best, bestVal) after i candidates. */
  ghost predicate Tracked(vals: seq<int>, cand: seq<Cell>, i: int, best: Cell, bestVal: int)
    requires 0 <= i <= |vals| == |cand|
  {
    || (best == (-1, -1) && bestVal == NO_MOVES && NoneAbove(vals, i))
    || (exists k :: Leads(vals, i, k) && best == cand[k] && bestVal == vals[k])
  }

  /** m is what bestMove returns when no candidate wins: the first candidate of
      greatest value if that value is above -9999999, otherwise cand[0]. */
  ghost predicate TakesLeader(vals: seq<int>, cand: seq<Cell>, m: Cell)
    requires |vals| == |cand| > 0
  {
    || (exists k :: Leads(vals, |vals|, k) && m == cand[k])
    || (NoneAbove(vals, |vals|) && m == cand[0])
  }

  /** One candidate more keeps Tracked: a strictly greater value replaces the
      best, an equal or smaller one does not. */
  lemma TrackedStep(vals: seq<int>, cand: seq<Cell>, i: nat, best: Cell, bestVal: int)
    requires i < |vals| == |cand|
    requires Tracked(vals, cand, i, best, bestVal)
    ensures Tracked(vals, cand, i + 1, if vals[i] > bestVal then cand[i] else best, Max(vals[i], bestVal))
  {
    if best == (-1, -1) && bestVal == NO_MOVES && NoneAbove(vals, i) {
      if vals[i] > bestVal {
        assert Leads(vals, i + 1, i);
      }
    } else {
      var k :| Leads(vals, i, k) && best == cand[k] && bestVal == vals[k];
      if vals[i] > bestVal {
        assert Leads(vals, i + 1, i);
      } else {
        assert Leads(vals, i + 1, k);
      }
    }
  }

  /** When the loop ends, the fallback picks cand[0] exactly when nothing was tracked. */
  lemma TrackedEnd(vals: seq<int>, cand: seq<Cell>, best: Cell, bestVal: int)
    requires |vals| == |cand| > 0
    requires forall x :: x in cand ==> InBounds(x.0, x.1)
    requires Tracked(vals, cand, |cand|, best, bestVal)
    ensures TakesLeader(vals, cand, if best.0 == -1 then cand[0] else best)
  {
    if !(best == (-1, -1) && bestVal == NO_MOVES && NoneAbove(vals, |cand|)) {
      var k :| Leads(vals, |cand|, k) && best == cand[k] && bestVal == vals[k];
      assert cand[k] in cand;
    }
  }

  lemma AllFreeIndex(g: Grid, cand: seq<Cell>, i: int)
    requires AllFree(g, cand) && 0 <= i < |cand|
    ensures Free(g, cand[i].0, cand[i].1)
  {
    assert cand[i] in cand;
  }

  /** A non-winning candidate leaves the board as it was, so the loop moves on
      from the same board with the child value folded into (best, bestVal). */
  lemma PickPasses(q: Queries, g: Grid, d: nat, p: int, cand: seq<Cell>, i: nat, best: Cell, bestVal: int)
    requires OnBoard(q) && FreeWhileEmpty(q)
    requires |Empties(g)| >= d + 1 && i < |cand|
    requires forall x :: x in cand ==> InBounds(x.0, x.1)
    requires AllFree(g, cand) && !WinningMove(q, g, p, cand[i])
    ensures var v := ChildValue(q, g, d, p, cand[i]);
      Pick(q, g, d, p, cand, i, best, bestVal)
        == Pick(q, g, d, p, cand, i + 1, if v > bestVal then cand[i] else best, Max(v, bestVal))
  {
    AllFreeIndex(g, cand, i);
    StepRestores(q, g, d, p, cand[i].0, cand[i].1);
  }

  lemma {:induction false} PickFirstWin(q: Queries, g: Grid, d: nat, p: int, cand: seq<Cell>, i: nat, best: Cell, bestVal: int, k: int)
    requires OnBoard(q) && FreeWhileEmpty(q)
    requires |Empties(g)| >= d + 1
    requires forall x :: x in cand ==> InBounds(x.0, x.1)
    requires AllFree(g, cand) && FirstWin(q, g, p, cand, k) && i <= k
    ensures Pick(q, g, d, p, cand, i, best, bestVal).move == cand[k]
    decreases |cand| - i
  {
    if i < k {
      PickPasses(q, g, d, p, cand, i, best, bestVal);
      var v := ChildValue(q, g, d, p, cand[i]);
      PickFirstWin(q, g, d, p, cand, i + 1, if v > bestVal then cand[i] else best, Max(v, bestVal), k);
    }
  }

  /** The choice bestMove's loop makes from the child values alone, once no
      candidate wins: a strictly greater value replaces the best so far, and
      cand[0] is the fallback when nothing beat -9999999. */
  function Select(vals: seq<int>, cand: seq<Cell>, i: nat, best: Cell, bestVal: int): Cell
    requires i <= |vals| == |cand| && cand != []
    decreases |cand| - i
  {
    if i == |cand| then (if best.0 == -1 then cand[0] else best)
    else Select(vals, cand, i + 1, if vals[i] > bestVal then cand[i] else best, Max(vals[i], bestVal))
  }

  /** Select returns the first candidate of greatest value when that value is
      above -9999999, and cand[0] otherwise. */
  lemma {:induction false} SelectTakesLeader(vals: seq<int>, cand: seq<Cell>, i: nat, best: Cell, bestVal: int)
    requires i <= |vals| == |cand| && cand != []
    requires forall x :: x in cand ==> InBounds(x.0, x.1)
    requires Tracked(vals, cand, i, best, bestVal)
    ensures TakesLeader(vals, cand, Select(vals, cand, i, best, bestVal))
    decreases |cand| - i
  {
    if i == |cand| {
      TrackedEnd(vals, cand, best, bestVal);
    } else {
      TrackedStep(vals, cand, i, best, bestVal);
      SelectTakesLeader(vals, cand, i + 1, if vals[i] > bestVal then cand[i] else best, Max(vals[i], bestVal));
    }
  }

  /** With no winning candidate, bestMove's loop makes the choice Select makes
      from the child values. */
  lemma {:induction false} PickSelects(q: Queries, g: Grid, d: nat, p: int, cand: seq<Cell>, vals: seq<int>, i: nat, best: Cell, bestVal: int)
    requires OnBoard(q) && FreeWhileEmpty(q)
    requires |Empties(g)| >= d + 1 && i <= |cand| && cand != []
    requires forall x :: x in cand ==> InBounds(x.0, x.1)
    requires AllFree(g, cand) && forall x :: x in cand ==> !WinningMove(q, g, p, x)
    requires vals == ChildValues(q, g, d, p, cand)
    ensures Pick(q, g, d, p, cand, i, best, bestVal).move == Select(vals, cand, i, best, bestVal)
    decreases |cand| - i
  {
    if i < |cand| {
      assert cand[i] in cand;
      PickPasses(q, g, d, p, cand, i, best, bestVal);
      var v := vals[i];
      var best', bestVal' := if v > bestVal then cand[i] else best, Max(v, bestVal);
      PickSelects(q, g, d, p, cand, vals, i + 1, best', bestVal');
    }
  }

  /** bestMove, on a board with at least depth EMPTY cells, returns the first
      candidate whose placement wins, if there is one. */
  lemma BestMoveTakesFirstWin(q: Queries, g: Grid, p: int, depth: nat, k: int)
    requires OnBoard(q) && FreeWhileEmpty(q)
    requires depth >= 1 && |Empties(g)| >= depth
    requires FirstWin(q, g, p, q.candidates(g), k)
    ensures BestMove(q, g, p, depth).move == q.candidates(g)[k]
  {
    var cand, d := q.candidates(g), depth - 1;
    assert AllFree(g, cand);
    PickFirstWin(q, g, d, p, cand, 0, (-1, -1), NO_MOVES, k);
  }

  /** Without a winning candidate, bestMove returns the first candidate of
      greatest child value if that value is above -9999999, so later ties do
      not replace it; otherwise the first candidate. */
  lemma BestMoveTakesLeader(q: Queries, g: Grid, p: int, depth: nat)
    requires OnBoard(q) && FreeWhileEmpty(q) && NeverEmpty(q)
    requires depth >= 1 && |Empties(g)| >= depth
    requires !AnyWins(q, g, p, q.candidates(g))
    ensures TakesLeader(ChildValues(q, g, depth - 1, p, q.candidates(g)), q.candidates(g), BestMove(q, g, p, depth).move)
  {
    var cand, d := q.candidates(g), depth - 1;
    assert AllFree(g, cand);
    var vals := ChildValues(q, g, d, p, cand);
    assert NoneAbove(vals, 0);
    SelectTakesLeader(vals, cand, 0, (-1, -1), NO_MOVES);
    PickSelects(q, g, d, p, cand, vals, 0, (-1, -1), NO_MOVES);
    assert BestMove(q, g, p, depth) == Pick(q, g, d, p, cand, 0, (-1, -1), NO_MOVES);
  }
}
