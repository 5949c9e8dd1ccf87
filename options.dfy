/** Candidate lists: for every empty cell, the ascending digits 1..9 that occur in
    neither its row, nor its column, nor its block; and the naked-single fill that
    writes every one-candidate cell. */
module Options {
  import opened Grids

  /** The candidate map: one ascending list of digits per empty cell. */
  type Opts = map<Cell, seq<int>>

  /** Digit d is missing from the row, column and block views of cell (r, c). */
  predicate Absent(g: Grid, r: int, c: int, d: int)
    requires IsGrid(g) && 0 <= r < 9 && 0 <= c < 9
  {
    d !in g[r] && d !in Transpose(g)[c] && d !in Blocks(g)[BlockIndex(r, c)]
  }

  /** The digits 1..n that are absent for (r, c), in ascending order. */
  function CandidatesUpTo(g: Grid, r: int, c: int, n: nat): seq<int>
    requires IsGrid(g) && 0 <= r < 9 && 0 <= c < 9 && n <= 9
  {
    if n == 0 then []
    else CandidatesUpTo(g, r, c, n - 1) + (if Absent(g, r, c, n) then [n] else [])
  }

  function Candidates(g: Grid, r: int, c: int): seq<int>
    requires IsGrid(g) && 0 <= r < 9 && 0 <= c < 9
  {
    CandidatesUpTo(g, r, c, 9)
  }

  /** The digits 1..9 in ascending order. */
  const AllDigits: seq<int> := seq(9, i => i + 1)

  /** Strictly ascending digits 1..9 (so also free of duplicates). */
  predicate AscendingDigits(s: seq<int>) {
    (forall i | 0 <= i < |s| :: 1 <= s[i] <= 9) &&
    (forall i, j | 0 <= i < j < |s| :: s[i] < s[j])
  }

  lemma {:induction false} CandidatesUpToSpec(g: Grid, r: int, c: int, n: nat)
    requires IsGrid(g) && 0 <= r < 9 && 0 <= c < 9 && n <= 9
    ensures AscendingDigits(CandidatesUpTo(g, r, c, n))
    ensures forall i | 0 <= i < |CandidatesUpTo(g, r, c, n)| :: CandidatesUpTo(g, r, c, n)[i] <= n
    ensures forall d :: d in CandidatesUpTo(g, r, c, n) <==> 1 <= d <= n && Absent(g, r, c, d)
  {
    if n > 0 {
      CandidatesUpToSpec(g, r, c, n - 1);
    }
  }

  /** The candidate list of a cell is exactly the ascending list of digits absent from its
      row, column and block. */
  lemma CandidatesSpec(g: Grid, r: int, c: int)
    requires IsGrid(g) && 0 <= r < 9 && 0 <= c < 9
    ensures AscendingDigits(Candidates(g, r, c))
    ensures forall d :: d in Candidates(g, r, c) <==> 1 <= d <= 9 && Absent(g, r, c, d)
  {
    CandidatesUpToSpec(g, r, c, 9);
  }

  /** Soundness and completeness stated on the board itself: d is a candidate of (r, c)
      exactly when d is a digit 1..9 found in no cell of that row, that column, or that
      3x3 tile. */
  lemma CandidateIff(g: Grid, r: int, c: int, d: int)
    requires IsGrid(g) && 0 <= r < 9 && 0 <= c < 9
    ensures d in Candidates(g, r, c) <==>
      1 <= d <= 9 &&
      (forall k | 0 <= k < 9 :: g[r][k] != d) &&
      (forall k | 0 <= k < 9 :: g[k][c] != d) &&
      (forall r', c' | 0 <= r' < 9 && 0 <= c' < 9 && r' / 3 == r / 3 && c' / 3 == c / 3 :: g[r'][c'] != d)
  {
    CandidatesSpec(g, r, c);
    InBlockIff(g, r, c, d);
    var col := Transpose(g)[c];
    assert d in col <==> exists k | 0 <= k < 9 :: g[k][c] == d by {
      if d in col {
        var k :| 0 <= k < 9 && col[k] == d;
        assert g[k][c] == d;
      }
      if exists k | 0 <= k < 9 :: g[k][c] == d {
        var k :| 0 <= k < 9 && g[k][c] == d;
        assert col[k] == d;
      }
    }
  }

  /** Every key is a cell of the board and every list ascending digits 1..9. */
  predicate WellFormed(opts: Opts) {
    forall p | p in opts :: IsCell(p) && AscendingDigits(opts[p])
  }

  /** The candidate map of a board: every empty cell, with its candidate list. */
  function OptsOf(g: Grid): (m: Opts)
    requires IsGrid(g)
  {
    map p | p in Cells && g[p.0][p.1] == 0 :: Candidates(g, p.0, p.1)
  }

  /** The keys of the candidate map are exactly the empty cells, each list is ascending,
      and no candidate occurs in the cell's row, column or tile. */
  lemma OptsOfSpec(g: Grid)
    requires IsGrid(g)
    ensures forall p :: p in OptsOf(g) <==> IsCell(p) && g[p.0][p.1] == 0
    ensures WellFormed(OptsOf(g))
    ensures forall p, d | p in OptsOf(g) && d in OptsOf(g)[p] ::
      (forall k | 0 <= k < 9 :: g[p.0][k] != d && g[k][p.1] != d)
    ensures forall p, d | p in OptsOf(g) && d in OptsOf(g)[p] ::
      (forall r', c' | 0 <= r' < 9 && 0 <= c' < 9 && r' / 3 == p.0 / 3 && c' / 3 == p.1 / 3 :: g[r'][c'] != d)
  {
    forall p
      ensures p in OptsOf(g) <==> IsCell(p) && g[p.0][p.1] == 0
    {
      CellsAreCells(p);
    }
    forall p | p in OptsOf(g)
      ensures IsCell(p) && AscendingDigits(OptsOf(g)[p])
    {
      CellsAreCells(p);
      CandidatesSpec(g, p.0, p.1);
    }
    forall p, d | p in OptsOf(g) && d in OptsOf(g)[p]
      ensures forall k | 0 <= k < 9 :: g[p.0][k] != d && g[k][p.1] != d
      ensures forall r', c' | 0 <= r' < 9 && 0 <= c' < 9 && r' / 3 == p.0 / 3 && c' / 3 == p.1 / 3 :: g[r'][c'] != d
    {
      CellsAreCells(p);
      CandidateIff(g, p.0, p.1, d);
    }
  }

  /** The keys and lists of the candidate map alone, without the digits they exclude. */
  lemma OptsOfShape(g: Grid)
    requires IsGrid(g)
    ensures forall p :: p in OptsOf(g) <==> IsCell(p) && g[p.0][p.1] == 0
    ensures WellFormed(OptsOf(g))
  {
    OptsOfSpec(g);
  }

  /** A map keyed by exactly the empty cells, each with its candidate list, is the
      candidate map of the board. */
  lemma OptsOfIs(g: Grid, m: Opts)
    requires IsGrid(g)
    requires forall p :: p in m <==> IsCell(p) && g[p.0][p.1] == 0
    requires forall p | p in m :: IsCell(p) && m[p] == Candidates(g, p.0, p.1)
    ensures m == OptsOf(g)
  {
    forall p
      ensures p in m <==> p in OptsOf(g)
    {
      CellsAreCells(p);
    }
  }

  /** The board after the naked-single fill: every key with exactly one candidate
      gets that candidate, every other cell keeps its value. */
  function Fill(g: Grid, opts: Opts): (f: Grid)
    requires IsGrid(g)
    ensures IsGrid(f)
  {
    seq(9, r requires 0 <= r < 9 => seq(9, c requires 0 <= c < 9 =>
      if (r, c) in opts && |opts[(r, c)]| == 1 then opts[(r, c)][0] else g[r][c]))
  }

  /** Filling with the board's own candidate map writes only empty cells, writes a digit
      1..9 that the cell's row, column and tile lack, and leaves every filled cell as it was. */
  lemma FillSpec(g: Grid)
    requires IsGrid(g)
    ensures forall r, c | 0 <= r < 9 && 0 <= c < 9 && g[r][c] != 0 :: Fill(g, OptsOf(g))[r][c] == g[r][c]
    ensures forall r, c | 0 <= r < 9 && 0 <= c < 9 && Fill(g, OptsOf(g))[r][c] != g[r][c] ::
      g[r][c] == 0 && 1 <= Fill(g, OptsOf(g))[r][c] <= 9 &&
      Candidates(g, r, c) == [Fill(g, OptsOf(g))[r][c]]
  {
    OptsOfSpec(g);
  }
}
