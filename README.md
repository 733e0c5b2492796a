# Gomoku engine, modelled in Dafny

This project models the rules and search engine of a 15x15 five-in-a-row
(Gomoku) game: class `Gomoku` in `Gobang/gomoku.h`. The engine keeps a board
of cell values (EMPTY 0, BLACK 1, WHITE 2) and the last move made. It offers
the following operations:

- `reset`, `makeMove` and `undoMove` change the board;
- `inBounds` is the coordinate test;
- `checkWin` is a local five-in-a-row test through one cell;
- `genCandidates` lists the empty cells near stones, through a `std::set`;
- `evaluateOneSide` and `evaluate` score runs by length and open ends;
- `negamax` and `bestMove` are a fixed-depth search. It places a stone on the
  shared board, recurses, then writes EMPTY back.

The project has five modules, one per concern:

- `Rules` (rules.dfy): the board as a value (`Grid`, N rows of N ints),
  `InBounds`, writing a cell (`Put`), and the run counting of `checkWin`.
  `RunLen` is the recursive scan and `Wins` is the four-direction test.
- `Candidates` (candidates.dfy): the set the loops of `genCandidates` build,
  defined in loop order (`Strip`, `Block`, `Marks`, `RowMarks`,
  `BoardMarks`). It also has the qualifying cells as a set (`CandidateSet`)
  and the sorted listing that iterating a `std::set` of pairs produces
  (`Ordered`). `GenCandidates` is the result.
- `Evaluation` (evaluation.dfy): the pattern table and the score sums in
  loop order.
- `Search` (search.dfy): `negamax` and `bestMove` as functions. They pass
  the board through the same place/recurse/undo steps. Each returns its
  value or move together with the board it leaves behind.
- `Engine` (gomoku.dfy): class `Gomoku` with the board as an `array2<int>`
  and the fields `lastR` and `lastC`. Every operation is a method with the
  source's loops. Each method is proved equal to the function of its
  module, applied to the board before the call.

The search functions are written over a record `Queries` of the three board
queries they call: genCandidates, checkWin and evaluate. `GOMOKU` is the
record of the engine's own functions, and `AgreesWithEngine(q)` says that a
record answers as they do. The methods `Negamax` and `BestMove` take such a
record as a ghost parameter. `GomokuAgrees` shows that the engine's record
qualifies. `EngineQueries` turns the agreement into the three facts the
general search lemmas use:

- candidates lie on the board;
- candidates are EMPTY while the board has an EMPTY cell;
- the candidate list is never empty.

### Behaviour worth knowing

- **Candidates on a full board.** `genCandidates` falls back to the centre
  whenever its set is empty (`Gobang/gomoku.h:78`). That includes a full
  board, where the centre is occupied, although the comment at
  `Gobang/gomoku.h:77` mentions only an empty board. See
  `Candidates.CandidatesOnFullBoard`.
- **Board restoration.** The search is proved to restore the board whenever
  it has at least `depth` EMPTY cells. On a full board it does not: it
  writes over the centre and then sets it to EMPTY
  (`Gobang/gomoku.h:124-127`). `Search.FullBoardLosesCentre` proves this
  failure.
- **The same condition for values and choices.** The lemmas about what
  negamax returns and which move bestMove picks need the same precondition.
  With fewer EMPTY cells than `depth`, a candidate that does not win starts
  a child search. That search can reach a full board and clear the centre.
  The later candidates of the outer loop are then tried on a changed board,
  where a placement that wins on the original board may no longer win.
- **The `(-1,-1)` result.** The initial `(-1,-1)` of
  `Gobang/gomoku.h:136` is never returned at `Gobang/gomoku.h:147`: the
  candidate list is never empty, so `bestMove` returns a candidate, the
  centre on a full board. See `Search.EngineMoveIsCandidate`. The `cand[0]`
  fallback at `Gobang/gomoku.h:146` is a separate case: it applies whenever
  no candidate's value exceeds -9999999.

## Model

| member | source | states |
|---|---|---|
| Engine.Gomoku.constructor | Gobang/gomoku.h:30 | a new engine has the blank board and no last move |
| Engine.Gomoku.Reset | Gobang/gomoku.h:33-36 | every cell becomes EMPTY and the last move becomes (-1, -1) |
| Engine.Gomoku.MakeMove | Gobang/gomoku.h:39-44 | succeeds exactly when the cell is on the board and EMPTY. On success it writes p to that cell only and records (r, c) as the last move. On failure nothing changes |
| Engine.Gomoku.UndoMove | Gobang/gomoku.h:47-49 | an on-board cell becomes EMPTY with every other cell unchanged. Off the board nothing changes. The last move is never touched |
| Rules.MoveThenUndo | Gobang/gomoku.h:39-49 | placing a stone on a free cell and undoing it gives back the original board |
| Rules.PlacedCellTaken | Gobang/gomoku.h:39-44 | after a placement the cell is free only if the value placed was EMPTY, so a second makeMove with a stone on the same cell is refused |
| Engine.Gomoku.Scan | Gobang/gomoku.h:56-59 | a scanning loop counts the maximal run of p cells from its start, and stops at the first cell that is off the board or not p |
| Engine.Gomoku.CheckWin | Gobang/gomoku.h:52-63 | the result is true exactly when, in some direction, 1 plus the run ahead plus the run behind is at least 5. The board is not changed |
| Rules.RunLenAtLeast | Gobang/gomoku.h:57-59 | the run length is at least k exactly when the first k cells of the scan all hold p |
| Rules.RunEndAfterRun | Gobang/gomoku.h:91-96 | a scan stops exactly RunLen steps past its start, on a cell that is off the board or does not hold p: the cell tested for an open end |
| Rules.WinsAlongIffWindow | Gobang/gomoku.h:53-60 | in one direction the count reaches five exactly when some window of five positions through the cell holds p everywhere except the cell itself. This covers runs of six or more |
| Rules.WinsIffWindow | Gobang/gomoku.h:52-63 | checkWin is true exactly when one of the four directions has such a window |
| Rules.WinsIgnoresCell | Gobang/gomoku.h:55-59 | the queried cell is counted as 1 without being read, so the verdict is the same whatever that cell holds |
| Engine.Gomoku.MarkStrip | Gobang/gomoku.h:72-75 | the innermost loop adds exactly the EMPTY on-board cells of one row offset around the stone |
| Engine.Gomoku.MarkAround | Gobang/gomoku.h:71-76 | the two inner loops add exactly the EMPTY on-board cells of the 5x5 neighbourhood |
| Engine.Gomoku.MarkCell | Gobang/gomoku.h:70-76 | a stone marks its neighbourhood, an EMPTY cell marks nothing |
| Engine.Gomoku.MarkRow | Gobang/gomoku.h:69-76 | the column loop of one row adds that row's marks |
| Engine.Gomoku.GenCandidates | Gobang/gomoku.h:66-80 | the method returns genCandidates of the current board: the sorted listing of the marked set, or the centre when the set is empty |
| Candidates.GenCandidates | Gobang/gomoku.h:66-80 | what genCandidates returns: the cells qualifying on the board (EMPTY, within Chebyshev distance 2 of a stone) listed in increasing (row, column) order, or [(7, 7)] when none qualifies; never empty and always on the board |
| Candidates.LoopsBuildCandidateSet | Gobang/gomoku.h:67-76 | the set the loops build is exactly the EMPTY on-board cells within Chebyshev distance 2 of a stone |
| Candidates.OrderedFacts | Gobang/gomoku.h:79 | the listing holds exactly the on-board members of the set, in strictly increasing (row, column) order |
| Candidates.ListingUnique | Gobang/gomoku.h:79 | two strictly increasing listings of the same set are the same sequence, so std::set iteration fixes the order |
| Candidates.MarksGiveCandidates | Gobang/gomoku.h:66-80 | the result is the centre when nothing was marked, and otherwise the ordered listing of the marks |
| Candidates.CandidatesListed | Gobang/gomoku.h:66-80 | the result is never empty, lies on the board and is strictly increasing, so no cell appears twice |
| Candidates.CandidatesExact | Gobang/gomoku.h:66-80 | every qualifying cell is offered. When some cell qualifies, only qualifying cells are offered. When none does, the result is exactly the centre |
| Candidates.CandidatesOnEmptyBoard | Gobang/gomoku.h:77-78 | on an empty board the result is exactly [(7, 7)], an EMPTY cell |
| Candidates.CandidatesOnFullBoard | Gobang/gomoku.h:77-78 | on a full board the result is also exactly [(7, 7)], an occupied cell |
| Candidates.CandidatesAreFree | Gobang/gomoku.h:66-80 | while the board has an EMPTY cell, every offered cell is EMPTY |
| Engine.Gomoku.ScanSide | Gobang/gomoku.h:91-96 | one side of a direction step: the run length, and whether the cell where the scan stopped is on the board and EMPTY |
| Engine.Gomoku.RunScore | Gobang/gomoku.h:89-105 | one direction at one cell adds the table entry selected by the count and the number of open ends |
| Evaluation.PatternScore | Gobang/gomoku.h:99-105 | the table only yields 0, 100, 1000, 5000, 10000, 100000 or 1000000, and yields 1000000 exactly when the count is at least 5 |
| Engine.Gomoku.CellRuns | Gobang/gomoku.h:88-106 | a cell holding p adds its four direction scores |
| Engine.Gomoku.RowRuns | Gobang/gomoku.h:86-106 | the column loop adds the scores of the row's p cells |
| Engine.Gomoku.EvaluateOneSide | Gobang/gomoku.h:83-108 | the method returns the side's score of the current board and changes nothing |
| Evaluation.ScoreOneSide | Gobang/gomoku.h:83-108 | a side's score is never negative and at most 900,000,000, so the 32-bit accumulator cannot overflow |
| Evaluation.ScoreWithoutStones | Gobang/gomoku.h:83-108 | only the side's own cells score: a side with no stones scores 0 |
| Evaluation.RunCellsScoreAlike | Gobang/gomoku.h:88-106 | runs are not deduplicated: neighbouring cells of one run see the same count and open ends, so each scores the run's pattern again |
| Engine.Gomoku.Evaluate | Gobang/gomoku.h:111-115 | the method returns the side's score minus its opponent's |
| Evaluation.Evaluate | Gobang/gomoku.h:111-115 | the difference lies within plus or minus 900,000,000 |
| Evaluation.EvaluateAntisymmetric | Gobang/gomoku.h:111-115 | evaluate(BLACK) == -evaluate(WHITE), and likewise for either colour against its opponent |
| Search.GomokuAgrees | Gobang/gomoku.h:52-115 | the record of the engine's own queries agrees with the engine, and its candidates lie on the board |
| Search.EngineQueries | Gobang/gomoku.h:66-80 | for queries agreeing with the engine: candidates lie on the board, are EMPTY while an EMPTY cell exists, and are never empty |
| Engine.Gomoku.TryMove | Gobang/gomoku.h:123-127 | one candidate: place p, test for a win, otherwise search the reply one level lower, then write EMPTY back. The value is 1000000 on a win and the negated reply value otherwise |
| Engine.Gomoku.ExploreStep | Gobang/gomoku.h:122-129 | one pass of negamax's loop either ends it with a win or continues with the larger of best and the child value |
| Engine.Gomoku.Negamax | Gobang/gomoku.h:118-131 | the returned value and the board left behind are those of the search function on the board before the call. With at least depth EMPTY cells, the board is unchanged. Only the board is modified, so the last move is kept |
| Search.Negamax | Gobang/gomoku.h:118-131 | what negamax computes on a board, with the board it leaves: at depth 0 the evaluation for p; otherwise the candidate loop in order, placing p, returning 1000000 and the board with that cell cleared on a win, else taking the larger of best and the negated depth - 1 reply and clearing the cell, starting from -9999999 |
| Search.NegamaxWins | Gobang/gomoku.h:118-131 | at depth >= 1, on a board with at least depth EMPTY cells, if some candidate placement wins, negamax returns 1000000 |
| Search.NegamaxMax | Gobang/gomoku.h:118-131 | at depth >= 1, on a board with at least depth EMPTY cells and no winning candidate, negamax returns the maximum of -9999999 and every candidate's negated child value: at least each of them, and equal to one of them |
| Search.SearchRestores | Gobang/gomoku.h:118-148 | with at least depth EMPTY cells, negamax and bestMove both leave the board exactly as they found it |
| Search.EngineNegamaxRestores | Gobang/gomoku.h:118-131 | the same for the engine's negamax, for any depth |
| Search.EngineBestMoveRestores | Gobang/gomoku.h:134-148 | the same for the engine's bestMove |
| Search.FullBoardLosesCentre | Gobang/gomoku.h:118-148 | on a full board both searches leave the centre EMPTY, so they do not restore the board. The EMPTY-cell condition above cannot be dropped |
| Engine.Gomoku.PickStep | Gobang/gomoku.h:139-144 | one pass of bestMove's loop either returns the winning candidate or replaces the best move only on a strictly greater value |
| Engine.Gomoku.BestMove | Gobang/gomoku.h:134-148 | the returned move and the board left behind are those of the search function on the board before the call. With at least depth EMPTY cells, the board is unchanged |
| Search.BestMove | Gobang/gomoku.h:134-148 | what bestMove computes on a board, with the board it leaves: the candidate loop in order, returning the first candidate whose placement wins, else keeping the candidate of strictly greater negated reply value; after the loop cand[0] if nothing beat -9999999 |
| Search.BestMoveIsCandidate | Gobang/gomoku.h:134-148 | bestMove returns one of the candidates. It returns (-1, -1) only when the candidate list is empty |
| Search.EngineMoveIsCandidate | Gobang/gomoku.h:134-148 | the engine's bestMove returns an element of genCandidates and never (-1, -1), full boards included |
| Search.BestMoveTakesFirstWin | Gobang/gomoku.h:138-141 | on a board with at least depth EMPTY cells, if some candidate wins, bestMove returns the first winning one |
| Search.SelectTakesLeader | Gobang/gomoku.h:144-146 | over a list of values, the strictly-greater update followed by the cand[0] fallback picks the first candidate of greatest value if that value is above -9999999, and cand[0] otherwise |
| Search.PickSelects | Gobang/gomoku.h:138-146 | with no winning candidate, bestMove's loop makes the same choice as that selection over the child values |
| Search.BestMoveTakesLeader | Gobang/gomoku.h:134-148 | on a board with at least depth EMPTY cells and no winning candidate, bestMove returns the first candidate of greatest child value, so later ties do not replace it. If no value is above -9999999 it returns the first candidate |

## Left out

- The Qt front end (`Gobang/mainwindow.h`, `Gobang/boardwidget.h`,
  `Gobang/settingsdialog.h`, `Gobang/main.cpp`) is not part of this model:
  windows, painting, timers, and mode and depth selection.
- Running time and the exponential branching of the search are not modelled,
  only what the search computes.
- `inBounds` is the predicate `Rules.InBounds` itself, with no contract of
  its own. Every method that tests coordinates uses it.
- The board is allocated once by the constructor. `reset` clears it in place
  rather than reallocating the vectors as `board.assign` does. Nothing
  outside the class holds the board, so the difference cannot be observed.
- Integers are unbounded. The evaluation is proved to stay within plus or
  minus 900,000,000, so its 32-bit arithmetic never overflows.
- Search values are not proved to fit 32 bits. They are negations and
  maxima of evaluations, 1000000 and -9999999, and all of those fit.
- `depth` is a natural number. The source takes an `int`, and a negative
  depth would never reach the `depth == 0` base case; callers pass 1 to 5.
  `bestMove` requires a depth of at least 1, as its `depth - 1` child
  search needs.
- The search methods `Negamax` and `BestMove` take the queries record as a
  ghost parameter and require that it agrees with the engine. Callers pass
  `GOMOKU`; one call of `Search.GomokuAgrees` establishes both
  requirements. The record changes nothing the methods compute.
- Cell values and players are arbitrary ints, as in the source. `Opponent`
  maps BLACK to WHITE and every other value to BLACK, as the conditional at
  `Gobang/gomoku.h:113` does.
