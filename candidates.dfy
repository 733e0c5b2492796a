/** Candidate generation (genCandidates in Gobang/gomoku.h): every EMPTY cell
    within Chebyshev distance 2 of a stone, collected in a set and listed in
    increasing (row, column) order, or the centre cell when there is none. */
module Candidates {
  import opened Rules

  type Cell = (int, int)

  /** The cell returned when no cell qualifies: (BOARD_SIZE/2, BOARD_SIZE/2). */
  const CENTRE: Cell := (N / 2, N / 2)

  predicate Stone(g: Grid, r: int, c: int) {
    InBounds(r, c) && g[r][c] != EMPTY
  }

  /** (r, c) is within Chebyshev distance 2 of (sr, sc). */
  predicate Near(r: int, c: int, sr: int, sc: int) {
    -2 <= r - sr <= 2 && -2 <= c - sc <= 2
  }

  /** Some stone is within distance 2 of (r, c). */
  ghost predicate NearStone(g: Grid, r: int, c: int) {
    exists sr, sc :: Stone(g, sr, sc) && Near(r, c, sr, sc)
  }

  /** A cell the generator is meant to offer: empty and close to a stone. */
  ghost predicate Qualifies(g: Grid, r: int, c: int) {
    Free(g, r, c) && NearStone(g, r, c)
  }

  // The set the source's loops build, defined in the order they build it.

  /** The inner `dc` loop around the stone (r, c), row offset dr, after the
      offsets -2 .. dc - 1: the EMPTY cells (r + dr, c + d) among them. */
  function Strip(g: Grid, r: int, c: int, dr: int, dc: int): set<Cell>
    requires -2 <= dc <= 3
    decreases dc + 2
  {
    if dc == -2 then {}
    else Strip(g, r, c, dr, dc - 1) + (if Free(g, r + dr, c + dc - 1) then {(r + dr, c + dc - 1)} else {})
  }

  /** The `dr` loop around (r, c) after the row offsets -2 .. dr - 1. */
  function Block(g: Grid, r: int, c: int, dr: int): set<Cell>
    requires -2 <= dr <= 3
    decreases dr + 2
  {
    if dr == -2 then {} else Block(g, r, c, dr - 1) + Strip(g, r, c, dr - 1, 3)
  }

  /** What the cell (r, c) contributes: its 5x5 neighbourhood if it holds a stone. */
  function Marks(g: Grid, r: int, c: int): set<Cell>
    requires InBounds(r, c)
  {
    if g[r][c] != EMPTY then Block(g, r, c, 3) else {}
  }

  /** The `c` loop of row r after the columns 0 .. c - 1. */
  function RowMarks(g: Grid, r: int, c: int): set<Cell>
    requires 0 <= r < N && 0 <= c <= N
  {
    if c == 0 then {} else RowMarks(g, r, c - 1) + Marks(g, r, c - 1)
  }

  /** The `r` loop after the rows 0 .. r - 1. */
  function BoardMarks(g: Grid, r: int): set<Cell>
    requires 0 <= r <= N
  {
    if r == 0 then {} else BoardMarks(g, r - 1) + RowMarks(g, r - 1, N)
  }

  /** The cells genCandidates is meant to offer, as a set. */
  ghost function CandidateSet(g: Grid): set<Cell> {
    set r, c | 0 <= r < N && 0 <= c < N && Qualifies(g, r, c) :: (r, c)
  }

  // Listing a set of cells in the order a std::set of pairs iterates them.

  /** The members (r, 0) .. (r, c - 1) of S, in column order. */
  function ListRow(S: set<Cell>, r: int, c: int): seq<Cell>
    requires 0 <= c <= N
  {
    if c == 0 then [] else ListRow(S, r, c - 1) + (if (r, c - 1) in S then [(r, c - 1)] else [])
  }

  /** The members of S in rows 0 .. r - 1, row by row. */
  function ListRows(S: set<Cell>, r: int): seq<Cell>
    requires 0 <= r <= N
  {
    if r == 0 then [] else ListRows(S, r - 1) + ListRow(S, r - 1, N)
  }

  /** The on-board members of S in increasing (row, column) order. */
  function Ordered(S: set<Cell>): seq<Cell> {
    ListRows(S, N)
  }

  /** cand lists exactly the members of S, in increasing order: the one
      sequence iterating a std::set of pairs can produce. */
  ghost predicate SortedListing(S: set<Cell>, cand: seq<Cell>) {
    Increasing(cand) && forall x :: x in cand <==> x in S
  }

  /** What genCandidates returns: the sorted listing of the candidate set, or
      the centre cell when that set is empty. */
  ghost function GenCandidates(g: Grid): (cand: seq<Cell>)
    ensures cand != [] && forall x :: x in cand ==> InBounds(x.0, x.1)
  {
    var s := CandidateSet(g);
    if s == {} then [CENTRE]
    else
      OrderedFacts(s);
      assert SortedListing(s, Ordered(s));
      var cand :| SortedListing(s, cand);
      var x :| x in s;
      assert x in cand;
      cand
  }

  /** The order of std::pair: by row, then by column. */
  predicate Before(a: Cell, b: Cell) {
    a.0 < b.0 || (a.0 == b.0 && a.1 < b.1)
  }

  predicate Increasing(s: seq<Cell>) {
    forall i, j :: 0 <= i < j < |s| ==> Before(s[i], s[j])
  }

  // Membership of the loop sets.

  lemma {:induction false} StripMembers(g: Grid, r: int, c: int, dr: int, dc: int, x: Cell)
    requires -2 <= dc <= 3
    ensures x in Strip(g, r, c, dr, dc) <==> x.0 == r + dr && -2 <= x.1 - c < dc && Free(g, x.0, x.1)
    decreases dc + 2
  {
    if dc > -2 {
      StripMembers(g, r, c, dr, dc - 1, x);
    }
  }

  lemma {:induction false} BlockMembers(g: Grid, r: int, c: int, dr: int, x: Cell)
    requires -2 <= dr <= 3
    ensures x in Block(g, r, c, dr) <==> -2 <= x.0 - r < dr && Near(x.0, x.1, r, c) && Free(g, x.0, x.1)
    decreases dr + 2
  {
    if dr > -2 {
      BlockMembers(g, r, c, dr - 1, x);
      StripMembers(g, r, c, dr - 1, 3, x);
    }
  }

  /** Some stone of row r, in a column below c, is within distance 2 of x. */
  ghost predicate NearInRow(g: Grid, r: int, c: int, x: Cell) {
    exists sc :: 0 <= sc < c && Stone(g, r, sc) && Near(x.0, x.1, r, sc)
  }

  /** Some stone of a row below r is within distance 2 of x. */
  ghost predicate NearInRows(g: Grid, r: int, x: Cell) {
    exists sr, sc :: 0 <= sr < r && Stone(g, sr, sc) && Near(x.0, x.1, sr, sc)
  }

  lemma MarksMembers(g: Grid, r: int, c: int, x: Cell)
    requires InBounds(r, c)
    ensures x in Marks(g, r, c) <==> Stone(g, r, c) && Near(x.0, x.1, r, c) && Free(g, x.0, x.1)
  {
    BlockMembers(g, r, c, 3, x);
  }

  lemma {:induction false} RowMarksMembers(g: Grid, r: int, c: int, x: Cell)
    requires 0 <= r < N && 0 <= c <= N
    ensures x in RowMarks(g, r, c) <==> Free(g, x.0, x.1) && NearInRow(g, r, c, x)
  {
    if c > 0 {
      var prev, m := RowMarks(g, r, c - 1), Marks(g, r, c - 1);
      assert RowMarks(g, r, c) == prev + m;
      RowMarksMembers(g, r, c - 1, x);
      MarksMembers(g, r, c - 1, x);
      if x in m {
        assert NearInRow(g, r, c, x) by {
          assert 0 <= c - 1 < c && Stone(g, r, c - 1) && Near(x.0, x.1, r, c - 1);
        }
      }
      if x in prev {
        var sc :| 0 <= sc < c - 1 && Stone(g, r, sc) && Near(x.0, x.1, r, sc);
        assert NearInRow(g, r, c, x);
      }
      if Free(g, x.0, x.1) && NearInRow(g, r, c, x) {
        var sc :| 0 <= sc < c && Stone(g, r, sc) && Near(x.0, x.1, r, sc);
        if sc < c - 1 {
          assert NearInRow(g, r, c - 1, x);
        }
      }
    }
  }

  lemma {:induction false} BoardMarksMembers(g: Grid, r: int, x: Cell)
    requires 0 <= r <= N
    ensures x in BoardMarks(g, r) <==> Free(g, x.0, x.1) && NearInRows(g, r, x)
  {
    if r > 0 {
      var prev, m := BoardMarks(g, r - 1), RowMarks(g, r - 1, N);
      assert BoardMarks(g, r) == prev + m;
      BoardMarksMembers(g, r - 1, x);
      RowMarksMembers(g, r - 1, N, x);
      if x in m {
        var sc :| 0 <= sc < N && Stone(g, r - 1, sc) && Near(x.0, x.1, r - 1, sc);
        assert NearInRows(g, r, x);
      }
      if x in prev {
        var sr, sc :| 0 <= sr < r - 1 && Stone(g, sr, sc) && Near(x.0, x.1, sr, sc);
        assert NearInRows(g, r, x);
      }
      if Free(g, x.0, x.1) && NearInRows(g, r, x) {
        var sr, sc :| 0 <= sr < r && Stone(g, sr, sc) && Near(x.0, x.1, sr, sc);
        if sr < r - 1 {
          assert NearInRows(g, r - 1, x);
        } else {
          assert NearInRow(g, r - 1, N, x);
        }
      }
    }
  }

  /** The loops collect exactly the empty cells within distance 2 of a stone. */
  lemma LoopsBuildCandidateSet(g: Grid)
    ensures BoardMarks(g, N) == CandidateSet(g)
  {
    forall x | x in BoardMarks(g, N) ensures x in CandidateSet(g) {
      BoardMarksMembers(g, N, x);
      var sr, sc :| 0 <= sr < N && Stone(g, sr, sc) && Near(x.0, x.1, sr, sc);
      assert Qualifies(g, x.0, x.1);
    }
    forall x | x in CandidateSet(g) ensures x in BoardMarks(g, N) {
      BoardMarksMembers(g, N, x);
      var sr, sc :| Stone(g, sr, sc) && Near(x.0, x.1, sr, sc);
      assert NearInRows(g, N, x);
    }
  }

  // Properties of the ordered listing.

  lemma {:induction false} ListRowFacts(S: set<Cell>, r: int, c: int)
    requires 0 <= c <= N
    ensures forall x :: x in ListRow(S, r, c) <==> x in S && x.0 == r && 0 <= x.1 < c
    ensures Increasing(ListRow(S, r, c))
  {
    if c > 0 {
      ListRowFacts(S, r, c - 1);
    }
  }

  lemma {:induction false} ListRowsFacts(S: set<Cell>, r: int)
    requires 0 <= r <= N
    ensures forall x :: x in ListRows(S, r) <==> x in S && 0 <= x.0 < r && 0 <= x.1 < N
    ensures Increasing(ListRows(S, r))
  {
    if r > 0 {
      ListRowsFacts(S, r - 1);
      ListRowFacts(S, r - 1, N);
      var a, b := ListRows(S, r - 1), ListRow(S, r - 1, N);
      forall i, j | 0 <= i < j < |a + b|
        ensures Before((a + b)[i], (a + b)[j])
      {
        if j < |a| {
        } else if i >= |a| {
          assert (a + b)[i] == b[i - |a|] && (a + b)[j] == b[j - |a|];
        } else {
          assert (a + b)[i] == a[i] && a[i] in a;
          assert (a + b)[j] == b[j - |a|] && b[j - |a|] in b;
        }
      }
    }
  }

  /** Listing a set gives exactly its on-board members, strictly increasing,
      hence without duplicates. */
  lemma OrderedFacts(S: set<Cell>)
    ensures forall x :: x in Ordered(S) <==> x in S && InBounds(x.0, x.1)
    ensures Increasing(Ordered(S))
  {
    ListRowsFacts(S, N);
  }

  lemma NoMembersEmpty(b: seq<Cell>)
    ensures (forall x :: x !in b) ==> b == []
  {
    if b != [] {
      assert b[0] in b;
    }
  }

  /** The head of a sorted listing comes no later than any member. */
  lemma HeadIsLeast(S: set<Cell>, a: seq<Cell>, x: Cell)
    requires SortedListing(S, a) && x in S
    ensures a != [] && (a[0] == x || Before(a[0], x))
  {
    var k :| 0 <= k < |a| && a[k] == x;
    assert k == 0 || Before(a[0], a[k]);
  }

  /** Two sorted listings of one set are the same sequence. */
  lemma {:induction false} ListingUnique(S: set<Cell>, a: seq<Cell>, b: seq<Cell>)
    requires SortedListing(S, a) && SortedListing(S, b)
    ensures a == b
    decreases |a|
  {
    if a == [] {
      NoMembersEmpty(b);
    } else {
      assert a[0] in S;
      HeadIsLeast(S, b, a[0]);
      HeadIsLeast(S, a, b[0]);
      assert a[0] == b[0];
      var S' := S - {a[0]};
      forall x ensures x in a[1..] <==> x in S' {
        if x in a[1..] {
          var i :| 1 <= i < |a| && a[i] == x;
          assert Before(a[0], a[i]);
        }
      }
      forall x ensures x in b[1..] <==> x in S' {
        if x in b[1..] {
          var i :| 1 <= i < |b| && b[i] == x;
          assert Before(b[0], b[i]);
        }
      }
      ListingUnique(S', a[1..], b[1..]);
      assert a == [a[0]] + a[1..] && b == [b[0]] + b[1..];
    }
  }

  /** When some cell qualifies, genCandidates is the listing the source's
      std::set iteration produces. */
  lemma GenCandidatesOrdered(g: Grid)
    requires CandidateSet(g) != {}
    ensures GenCandidates(g) == Ordered(CandidateSet(g))
  {
    var s := CandidateSet(g);
    OrderedFacts(s);
    assert SortedListing(s, Ordered(s));
    ListingUnique(s, GenCandidates(g), Ordered(s));
  }

  /** What the loops of genCandidates build determines its result: the sorted
      listing of the marked cells, or the centre when none was marked. */
  lemma MarksGiveCandidates(g: Grid)
    ensures BoardMarks(g, N) == {} ==> GenCandidates(g) == [CENTRE]
    ensures BoardMarks(g, N) != {} ==> GenCandidates(g) == Ordered(BoardMarks(g, N))
  {
    LoopsBuildCandidateSet(g);
    if CandidateSet(g) != {} {
      GenCandidatesOrdered(g);
    }
  }

  // Properties of genCandidates.

  /** The result is never empty, lies on the board and is strictly increasing,
      so it holds no cell twice. */
  lemma CandidatesListed(g: Grid)
    ensures GenCandidates(g) != []
    ensures forall x :: x in GenCandidates(g) ==> InBounds(x.0, x.1)
    ensures Increasing(GenCandidates(g))
    ensures forall i, j :: 0 <= i < j < |GenCandidates(g)| ==> GenCandidates(g)[i] != GenCandidates(g)[j]
  {
  }

  /** Every qualifying cell is offered; when one exists, nothing else is. */
  lemma CandidatesExact(g: Grid)
    ensures forall r, c :: Qualifies(g, r, c) ==> (r, c) in GenCandidates(g)
    ensures (exists r, c :: Qualifies(g, r, c)) ==>
      forall x :: x in GenCandidates(g) ==> Qualifies(g, x.0, x.1)
    ensures (forall r, c :: !Qualifies(g, r, c)) ==> GenCandidates(g) == [CENTRE]
  {
    var s := CandidateSet(g);
    forall r, c | Qualifies(g, r, c)
      ensures (r, c) in GenCandidates(g)
    {
      assert (r, c) in s;
    }
    if forall r, c :: !Qualifies(g, r, c) {
      assert s == {};
    }
  }

  /** On an empty board the result is the single, empty, centre cell. */
  lemma CandidatesOnEmptyBoard(g: Grid)
    requires forall r, c :: InBounds(r, c) ==> g[r][c] == EMPTY
    ensures GenCandidates(g) == [CENTRE] && Free(g, CENTRE.0, CENTRE.1)
  {
    CandidatesExact(g);
  }

  /** On a full board the result is also the centre cell, which is occupied. */
  lemma CandidatesOnFullBoard(g: Grid)
    requires forall r, c :: InBounds(r, c) ==> g[r][c] != EMPTY
    ensures GenCandidates(g) == [CENTRE] && !Free(g, CENTRE.0, CENTRE.1)
  {
    CandidatesExact(g);
  }

  function Abs(x: int): nat {
    if x < 0 then -x else x
  }

  function Sign(x: int): int {
    if x < 0 then -1 else if x > 0 then 1 else 0
  }

  /** Chebyshev distance. */
  function Dist(r: int, c: int, r': int, c': int): nat {
    if Abs(r - r') < Abs(c - c') then Abs(c - c') else Abs(r - r')
  }

  /** On a board holding a stone and an empty cell, some empty cell is within
      distance 2 of a stone: walk from the stone towards the empty cell until
      the first empty cell on the way. */
  lemma {:induction false} StoneMeetsFree(g: Grid, sr: int, sc: int, fr: int, fc: int)
    requires Stone(g, sr, sc) && Free(g, fr, fc)
    ensures exists r, c :: Qualifies(g, r, c)
    decreases Dist(sr, sc, fr, fc)
  {
    if Near(fr, fc, sr, sc) {
      assert Qualifies(g, fr, fc);
    } else {
      var nr, nc := sr + Sign(fr - sr), sc + Sign(fc - sc);
      if Free(g, nr, nc) {
        assert Near(nr, nc, sr, sc);
        assert Qualifies(g, nr, nc);
      } else {
        StoneMeetsFree(g, nr, nc, fr, fc);
      }
    }
  }

  /** While the board has an empty cell, every cell offered is empty: the
      centre fallback lands on an occupied cell only on a full board. */
  lemma CandidatesAreFree(g: Grid)
    requires exists r, c :: Free(g, r, c)
    ensures forall x :: x in GenCandidates(g) ==> Free(g, x.0, x.1)
  {
    var fr, fc :| Free(g, fr, fc);
    CandidatesExact(g);
    if exists sr, sc :: Stone(g, sr, sc) {
      var sr, sc :| Stone(g, sr, sc);
      StoneMeetsFree(g, sr, sc, fr, fc);
    } else {
      forall r, c | InBounds(r, c)
        ensures g[r][c] == EMPTY
      {
        assert !Stone(g, r, c);
      }
      CandidatesOnEmptyBoard(g);
    }
  }
}
