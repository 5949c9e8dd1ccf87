/** Soundness against a solution: every digit the solver writes agrees with any valid
    completed board that agrees with the digits already placed. */
module Soundness {
  import opened Grids
  import opened Options
  import opened HiddenSingles
  import opened Passes

  /** Digit d occurs in unit i of the given kind of board S. */
  predicate Occurs(S: Grid, kind: Kind, i: int, d: int)
    requires IsGrid(S) && 0 <= i < 9
  {
    exists q | q in Unit(kind, i) && IsCell(q) :: S[q.0][q.1] == d
  }

  /** A valid completed board: every cell holds a digit 1..9, and every row, column and
      block holds each digit 1..9 exactly once. */
  predicate Solution(S: Grid) {
    IsGrid(S) &&
    (forall r, c | 0 <= r < 9 && 0 <= c < 9 :: 1 <= S[r][c] <= 9) &&
    (forall kind, i, d | 0 <= i < 9 && 1 <= d <= 9 :: Occurs(S, kind, i, d)) &&
    (forall kind, i, p, q | 0 <= i < 9 && p in Unit(kind, i) && q in Unit(kind, i) && IsCell(p) && IsCell(q) && p != q ::
      S[p.0][p.1] != S[q.0][q.1])
  }

  /** A placed digit that differs from a cell's solution value only by being a peer. */
  lemma SolutionPeer(g: Grid, S: Grid, kind: Kind, p: Cell, q: Cell)
    requires IsGrid(g) && Solution(S) && Extends(g, S)
    requires IsCell(p) && IsCell(q) && p != q
    requires UnitIndex(kind, p.0, p.1) == UnitIndex(kind, q.0, q.1)
    ensures g[q.0][q.1] != S[p.0][p.1]
  {
    var i := UnitIndex(kind, p.0, p.1);
    UnitMembership(kind, i, p);
    UnitMembership(kind, i, q);
    assert S[p.0][p.1] != S[q.0][q.1];
  }

  /** The solution value of an empty cell is one of its candidates. */
  lemma SolutionCandidate(g: Grid, S: Grid, r: int, c: int)
    requires IsGrid(g) && Solution(S) && Extends(g, S)
    requires 0 <= r < 9 && 0 <= c < 9 && g[r][c] == 0
    ensures S[r][c] in Candidates(g, r, c)
  {
    var d := S[r][c];
    forall k | 0 <= k < 9
      ensures g[r][k] != d && g[k][c] != d
    {
      if k != c {
        SolutionPeer(g, S, RowUnits, (r, c), (r, k));
      }
      if k != r {
        SolutionPeer(g, S, ColUnits, (r, c), (k, c));
      }
    }
    forall r', c' | 0 <= r' < 9 && 0 <= c' < 9 && r' / 3 == r / 3 && c' / 3 == c / 3
      ensures g[r'][c'] != d
    {
      if (r', c') != (r, c) {
        assert BlockIndex(r', c') == BlockIndex(r, c);
        SolutionPeer(g, S, BlockUnits, (r, c), (r', c'));
      }
    }
    CandidateIff(g, r, c, d);
  }

  /** A candidate of a cell is placed in no other cell of any of its units. */
  lemma CandidateNotPlaced(g: Grid, kind: Kind, p: Cell, q: Cell, d: int)
    requires IsGrid(g) && IsCell(p) && IsCell(q)
    requires UnitIndex(kind, p.0, p.1) == UnitIndex(kind, q.0, q.1)
    requires d in Candidates(g, p.0, p.1)
    ensures g[q.0][q.1] != d
  {
    CandidateIff(g, p.0, p.1, d);
    match kind
    case RowUnits =>
    case ColUnits =>
    case BlockUnits =>
      var b := BlockIndex(p.0, p.1);
      TileRange(b / 3, p.0);
      TileRange(b / 3, q.0);
      TileRange(b % 3, p.1);
      TileRange(b % 3, q.1);
  }

  /** The naked fill agrees with every solution the board agrees with: a one-candidate
      cell's candidate is its solution value. */
  lemma FillAgrees(g: Grid, S: Grid)
    requires IsDigitGrid(g) && Solution(S) && Extends(g, S)
    ensures Extends(Fill(g, OptsOf(g)), S)
  {
    var opts := OptsOf(g);
    OptsOfShape(g);
    forall r, c | 0 <= r < 9 && 0 <= c < 9
      ensures S[r][c] == Fill(g, opts)[r][c] || (Fill(g, opts)[r][c] == 0 && S[r][c] != 0)
    {
      if g[r][c] == 0 {
        SolutionCandidate(g, S, r, c);
        assert (r, c) in opts;
      }
    }
  }

  /** Each digit has a holder in each unit of a solution. */
  lemma SolutionHolder(S: Grid, kind: Kind, i: int, d: int) returns (q: Cell)
    requires Solution(S) && 0 <= i < 9 && 1 <= d <= 9
    ensures IsCell(q) && UnitIndex(kind, q.0, q.1) == i && S[q.0][q.1] == d
  {
    assert Occurs(S, kind, i, d);
    q :| q in Unit(kind, i) && IsCell(q) && S[q.0][q.1] == d;
    UnitMembership(kind, i, q);
  }

  /** The cell of p's unit whose solution value is a candidate w of p is still empty. */
  lemma HolderIsEmpty(g: Grid, S: Grid, kind: Kind, p: Cell, q: Cell, w: int)
    requires IsGrid(g) && IsGrid(S) && Extends(g, S) && IsCell(p) && IsCell(q) && g[p.0][p.1] == 0
    requires UnitIndex(kind, p.0, p.1) == UnitIndex(kind, q.0, q.1)
    requires w in Candidates(g, p.0, p.1) && S[q.0][q.1] == w
    ensures g[q.0][q.1] == 0
  {
    CandidateNotPlaced(g, kind, p, q, w);
  }

  /** A digit that a sweep finds held by cell p alone in its unit is p's solution value:
      the cell of that unit whose solution value it is must be empty and list it. */
  lemma HiddenSingleAgrees(g: Grid, S: Grid, kind: Kind, p: Cell, w: int)
    requires IsDigitGrid(g) && Solution(S) && Extends(g, S) && IsCell(p) && 1 <= w <= 9
    requires Held(OptsOf(g), Unit(kind, UnitIndex(kind, p.0, p.1)), w) == {p}
    ensures S[p.0][p.1] == w
  {
    var opts := OptsOf(g);
    var i := UnitIndex(kind, p.0, p.1);
    var unit := Unit(kind, i);
    OptsOfShape(g);
    assert p in Held(opts, unit, w);
    var q := SolutionHolder(S, kind, i, w);
    HolderIsEmpty(g, S, kind, p, q, w);
    SolutionCandidate(g, S, q.0, q.1);
    UnitMembership(kind, i, q);
    assert q in Held(opts, unit, w);
  }

  /** A cell whose value agrees with the solution still agrees after its unit's sweep. */
  lemma SweptAgrees(g: Grid, S: Grid, kind: Kind, p: Cell, v: int)
    requires IsDigitGrid(g) && Solution(S) && Extends(g, S) && IsCell(p)
    requires v == S[p.0][p.1] || (v == 0 && S[p.0][p.1] != 0)
    ensures var w := SweptValue(OptsOf(g), Unit(kind, UnitIndex(kind, p.0, p.1)), p, v);
      w == S[p.0][p.1] || (w == 0 && S[p.0][p.1] != 0)
  {
    var opts, unit := OptsOf(g), Unit(kind, UnitIndex(kind, p.0, p.1));
    LastHiddenSpec(opts, unit, p, 9);
    match LastHidden(opts, unit, p, 9)
    case Some(w) =>
      HiddenSingleAgrees(g, S, kind, p, w);
    case None =>
  }

  /** One step (rebuild, naked fill, sweep of one unit kind) agrees with every solution
      the board agrees with. */
  lemma StepAgrees(g: Grid, S: Grid, kind: Kind)
    requires IsDigitGrid(g) && Solution(S) && Extends(g, S)
    ensures Extends(Step(g, kind), S)
  {
    var opts := OptsOf(g);
    var f := Fill(g, opts);
    FillAgrees(g, S);
    forall r, c | 0 <= r < 9 && 0 <= c < 9
      ensures S[r][c] == Step(g, kind)[r][c] || (Step(g, kind)[r][c] == 0 && S[r][c] != 0)
    {
      SweptAt(f, opts, kind, r, c);
      SweptAgrees(g, S, kind, (r, c), f[r][c]);
    }
  }

  /** A whole pass agrees with every solution the board agrees with: the solver never
      writes a wrong digit into a puzzle that has a solution. */
  lemma PassSound(g: Grid, S: Grid)
    requires IsDigitGrid(g) && Solution(S) && Extends(g, S)
    ensures IsDigitGrid(Pass(g).grid) && Extends(Pass(g).grid, S)
  {
    var g1 := Step(g, BlockUnits);
    var g2 := Step(g1, RowUnits);
    var g3 := Step(g2, ColUnits);
    StepExtends(g, BlockUnits);
    StepAgrees(g, S, BlockUnits);
    StepExtends(g1, RowUnits);
    StepAgrees(g1, S, RowUnits);
    StepExtends(g2, ColUnits);
    StepAgrees(g2, S, ColUnits);
    FillExtends(g3);
    FillAgrees(g3, S);
  }

  /** A pass that ends with no candidate map left has produced that solution itself. */
  lemma SolvedIsSolution(g: Grid, S: Grid)
    requires IsDigitGrid(g) && Solution(S) && Extends(g, S)
    requires Pass(g).opts == map[]
    ensures Pass(g).grid == S
  {
    PassSound(g, S);
    SolvedMeansFull(g);
    GridsEqual(Pass(g).grid, S);
  }

  /** The board after n passes. */
  function Run(g: Grid, n: nat): (h: Grid)
    requires IsDigitGrid(g)
    ensures IsDigitGrid(h)
    decreases n
  {
    if n == 0 then g
    else
      PassKeepsFilled(g);
      Run(Pass(g).grid, n - 1)
  }

  /** Pass after pass, the board keeps agreeing with every solution the puzzle has. */
  lemma {:induction false} RunSound(g: Grid, S: Grid, n: nat)
    requires IsDigitGrid(g) && Solution(S) && Extends(g, S)
    ensures Extends(Run(g, n), S)
    decreases n
  {
    if n > 0 {
      PassSound(g, S);
      RunSound(Pass(g).grid, S, n - 1);
    }
  }
}
