/** One full solving pass as a function of the board: candidate rebuild and naked
    fill, block sweep, rebuild, row sweep, rebuild, column sweep, final rebuild. */
module Passes {
  import opened Grids
  import opened Options
  import opened HiddenSingles
  import opened Stagnation

  /** The board after the column sweep of a pass (from which the last rebuild derives
      its views), the board after the pass, the candidate map of its last rebuild, and
      the map of the rebuild before it (which the last rebuild moved into the previous
      slot). */
  datatype PassResult = PassResult(swept: Grid, grid: Grid, opts: Opts, prevOpts: Opts)

  /** A candidate rebuild with its naked fill, followed by a sweep of one unit kind. */
  function Step(g: Grid, kind: Kind): (s: Grid)
    requires IsGrid(g)
    ensures IsGrid(s)
  {
    Swept(Fill(g, OptsOf(g)), OptsOf(g), kind)
  }

  function Pass(g: Grid): PassResult
    requires IsGrid(g)
  {
    var g1 := Step(g, BlockUnits);
    var g2 := Step(g1, RowUnits);
    var g3 := Step(g2, ColUnits);
    PassResult(g3, Fill(g3, OptsOf(g3)), OptsOf(g3), OptsOf(g2))
  }

  /** A step never changes a filled cell, keeps every naked single it fills, and writes
      only digits 1..9, each a candidate of the cell in the board the step started from. */
  lemma StepSpec(g: Grid, kind: Kind)
    requires IsDigitGrid(g)
    ensures IsDigitGrid(Step(g, kind))
    ensures forall r, c | 0 <= r < 9 && 0 <= c < 9 && g[r][c] != 0 :: Step(g, kind)[r][c] == g[r][c]
    ensures forall r, c | 0 <= r < 9 && 0 <= c < 9 && Fill(g, OptsOf(g))[r][c] != 0 ::
      Step(g, kind)[r][c] == Fill(g, OptsOf(g))[r][c]
    ensures forall r, c | 0 <= r < 9 && 0 <= c < 9 && Step(g, kind)[r][c] != g[r][c] ::
      g[r][c] == 0 && Step(g, kind)[r][c] in Candidates(g, r, c)
  {
    var opts := OptsOf(g);
    var f := Fill(g, opts);
    OptsOfSpec(g);
    FillSpec(g);
    forall r, c | 0 <= r < 9 && 0 <= c < 9
      ensures 0 <= Step(g, kind)[r][c] <= 9
      ensures g[r][c] != 0 ==> Step(g, kind)[r][c] == g[r][c]
      ensures f[r][c] != 0 ==> Step(g, kind)[r][c] == f[r][c]
      ensures Step(g, kind)[r][c] != g[r][c] ==> g[r][c] == 0 && Step(g, kind)[r][c] in Candidates(g, r, c)
    {
      var p, unit := (r, c), Unit(kind, UnitIndex(kind, r, c));
      assert Step(g, kind)[r][c] == SweptValue(opts, unit, p, f[r][c]);
      SweptValueSpec(opts, unit, p, f[r][c]);
      if f[r][c] != 0 {
        SweptKeepsSettled(opts, unit, p, f[r][c]);
      }
      if p in opts {
        assert AscendingDigits(opts[p]);
      }
    }
  }

  /** A pass never changes a filled cell and keeps the board a board of digits. */
  lemma PassKeepsFilled(g: Grid)
    requires IsDigitGrid(g)
    ensures IsDigitGrid(Pass(g).grid)
    ensures forall r, c | 0 <= r < 9 && 0 <= c < 9 && g[r][c] != 0 :: Pass(g).grid[r][c] == g[r][c]
  {
    var g1 := Step(g, BlockUnits);
    var g2 := Step(g1, RowUnits);
    var g3 := Step(g2, ColUnits);
    StepSpec(g, BlockUnits);
    StepSpec(g1, RowUnits);
    StepSpec(g2, ColUnits);
    FillSpec(g3);
    OptsOfSpec(g3);
  }

  /** The final map of a pass has no key the map before it lacks, and the stagnation test
      of the pass is therefore the order-independent equality of the two maps. */
  lemma PassComparison(g: Grid)
    requires IsDigitGrid(g)
    ensures Pass(g).opts.Keys <= Pass(g).prevOpts.Keys
    ensures MapsEqual(Pass(g).prevOpts, Pass(g).opts) <==>
      Pass(g).prevOpts != map[] && Pass(g).prevOpts.Keys == Pass(g).opts.Keys &&
      forall k | k in Pass(g).prevOpts :: Elements(Pass(g).prevOpts[k]) == Elements(Pass(g).opts[k])
  {
    var g1 := Step(g, BlockUnits);
    var g2 := Step(g1, RowUnits);
    var g3 := Step(g2, ColUnits);
    StepExtends(g, BlockUnits);
    StepExtends(g1, RowUnits);
    StepExtends(g2, ColUnits);
    ComparisonAfter(g2, g3);
  }

  /** Between a board and a board that extends it, the later candidate map has no key the
      earlier one lacks, and the stagnation test is the equality of the two maps. */
  lemma ComparisonAfter(a: Grid, b: Grid)
    requires IsDigitGrid(a) && IsDigitGrid(b) && Extends(a, b)
    ensures OptsOf(b).Keys <= OptsOf(a).Keys
    ensures MapsEqual(OptsOf(a), OptsOf(b)) <==>
      OptsOf(a) != map[] && OptsOf(a).Keys == OptsOf(b).Keys &&
      forall k | k in OptsOf(a) :: Elements(OptsOf(a)[k]) == Elements(OptsOf(b)[k])
  {
    var prev, cur := OptsOf(a), OptsOf(b);
    OptsOfShape(a);
    OptsOfShape(b);
    WellFormedDistinct(prev);
    WellFormedDistinct(cur);
    MapsEqualIsSetEquality(prev, cur);
  }

  /** The candidate lists of a well-formed map are free of repetitions. */
  lemma WellFormedDistinct(opts: Opts)
    requires WellFormed(opts)
    ensures forall k | k in opts :: Distinct(opts[k])
  {
    forall k | k in opts
      ensures Distinct(opts[k])
    {
      assert AscendingDigits(opts[k]);
    }
  }

  /** When a pass ends with no candidate map left, the board has no empty cell. */
  lemma SolvedMeansFull(g: Grid)
    requires IsGrid(g)
    requires Pass(g).opts == map[]
    ensures forall r, c | 0 <= r < 9 && 0 <= c < 9 :: Pass(g).grid[r][c] != 0
  {
    var g3 := Pass(g).swept;
    assert Pass(g).grid == Fill(g3, OptsOf(g3)) && OptsOf(g3) == map[];
    NoKeysMeansFull(g3);
  }

  /** A board whose candidate map is empty has no empty cell, and the naked fill keeps it. */
  lemma NoKeysMeansFull(g: Grid)
    requires IsGrid(g) && OptsOf(g) == map[]
    ensures Fill(g, OptsOf(g)) == g
    ensures forall r, c | 0 <= r < 9 && 0 <= c < 9 :: g[r][c] != 0
  {
    OptsOfShape(g);
    forall r, c | 0 <= r < 9 && 0 <= c < 9
      ensures g[r][c] != 0 && Fill(g, OptsOf(g))[r][c] == g[r][c]
    {
      assert (r, c) !in OptsOf(g);
    }
    GridsEqual(Fill(g, OptsOf(g)), g);
  }

  /** A step only writes empty cells, and writes a digit 1..9 there. */
  lemma StepExtends(g: Grid, kind: Kind)
    requires IsDigitGrid(g)
    ensures IsDigitGrid(Step(g, kind)) && Extends(g, Step(g, kind))
  {
    StepSpec(g, kind);
    forall r, c | 0 <= r < 9 && 0 <= c < 9 && Step(g, kind)[r][c] != g[r][c]
      ensures Step(g, kind)[r][c] != 0
    {
      CandidatesSpec(g, r, c);
    }
  }

  /** The naked fill only writes empty cells, and writes a digit 1..9 there. */
  lemma FillExtends(g: Grid)
    requires IsDigitGrid(g)
    ensures IsDigitGrid(Fill(g, OptsOf(g))) && Extends(g, Fill(g, OptsOf(g)))
  {
    FillSpec(g);
  }

  /** A pass that changes no cell changed none in any of its steps either. */
  lemma PassFixedSteps(g: Grid)
    requires IsDigitGrid(g) && Pass(g).grid == g
    ensures Step(g, BlockUnits) == g && Step(g, RowUnits) == g && Step(g, ColUnits) == g
  {
    var g1 := Step(g, BlockUnits);
    var g2 := Step(g1, RowUnits);
    var g3 := Step(g2, ColUnits);
    StepExtends(g, BlockUnits);
    StepExtends(g1, RowUnits);
    StepExtends(g2, ColUnits);
    FillExtends(g3);
    ExtendsTrans(g2, g3, g);
    ExtendsTrans(g1, g2, g);
    ExtendsAntisymmetric(g, g1);
    ExtendsAntisymmetric(g1, g2);
    ExtendsAntisymmetric(g2, g3);
  }

  /** A pass that changes no cell has its last two rebuilds see that same board. */
  lemma PassFixedMaps(g: Grid)
    requires IsDigitGrid(g) && Pass(g).grid == g
    ensures Pass(g).prevOpts == OptsOf(g) && Pass(g).opts == OptsOf(g)
  {
    PassFixedSteps(g);
    var g1 := Step(g, BlockUnits);
    var g2 := Step(g1, RowUnits);
    assert g1 == g && g2 == g;
  }

  /** So, after a pass that changes no cell, the stagnation test holds exactly when
      cells are still empty. */
  lemma PassFixedPoint(g: Grid)
    requires IsDigitGrid(g) && Pass(g).grid == g
    ensures MapsEqual(Pass(g).prevOpts, Pass(g).opts) <==> Pass(g).opts != map[]
  {
    PassFixedMaps(g);
    MapsEqualSelf(OptsOf(g));
  }

  /** Every pass either changes nothing or fills at least one more cell: the number of
      empty cells is a measure that a pass which is not a fixed point strictly lowers. */
  lemma PassProgress(g: Grid)
    requires IsDigitGrid(g)
    ensures EmptyCells(Pass(g).grid) <= EmptyCells(g)
    ensures Pass(g).grid != g ==> |EmptyCells(Pass(g).grid)| < |EmptyCells(g)|
  {
    var g1 := Step(g, BlockUnits);
    var g2 := Step(g1, RowUnits);
    var g3 := Step(g2, ColUnits);
    StepExtends(g, BlockUnits);
    StepExtends(g1, RowUnits);
    StepExtends(g2, ColUnits);
    FillExtends(g3);
    ExtendsTrans(g, g1, g2);
    ExtendsTrans(g, g2, g3);
    ExtendsTrans(g, g3, Pass(g).grid);
    ExtendsShrinks(g, Pass(g).grid);
  }

  /** A board with no digit placed. */
  predicate AllEmpty(z: Grid) {
    IsGrid(z) && forall r, c | 0 <= r < 9 && 0 <= c < 9 :: z[r][c] == 0
  }

  /** On a board with no digit, every digit is missing from every unit. */
  lemma AllEmptyAbsent(z: Grid, r: int, c: int, d: int)
    requires AllEmpty(z) && 0 <= r < 9 && 0 <= c < 9 && 1 <= d <= 9
    ensures Absent(z, r, c, d)
  {
    CandidateIff(z, r, c, d);
    CandidatesSpec(z, r, c);
  }

  lemma {:induction false} AllEmptyCandidatesUpTo(z: Grid, r: int, c: int, n: nat)
    requires AllEmpty(z) && 0 <= r < 9 && 0 <= c < 9 && n <= 9
    ensures CandidatesUpTo(z, r, c, n) == seq(n, i => i + 1)
  {
    if n > 0 {
      AllEmptyCandidatesUpTo(z, r, c, n - 1);
      AllEmptyAbsent(z, r, c, n);
    }
  }

  /** On a board with no digit every cell has all nine digits as candidates. */
  lemma AllEmptyCandidates(z: Grid, r: int, c: int)
    requires AllEmpty(z) && 0 <= r < 9 && 0 <= c < 9
    ensures Candidates(z, r, c) == AllDigits
  {
    AllEmptyCandidatesUpTo(z, r, c, 9);
  }

  /** On a board with no digit every cell is a key with all nine digits. */
  lemma AllEmptyOpts(z: Grid)
    requires AllEmpty(z)
    ensures forall p :: p in OptsOf(z) <==> IsCell(p)
    ensures forall p | p in OptsOf(z) :: OptsOf(z)[p] == AllDigits
  {
    OptsOfShape(z);
    forall p | p in OptsOf(z)
      ensures OptsOf(z)[p] == AllDigits
    {
      AllEmptyCandidates(z, p.0, p.1);
    }
  }

  /** The naked fill leaves a board with no digit as it is. */
  lemma AllEmptyFill(z: Grid)
    requires AllEmpty(z)
    ensures Fill(z, OptsOf(z)) == z
  {
    AllEmptyOpts(z);
    var opts := OptsOf(z);
    forall r, c | 0 <= r < 9 && 0 <= c < 9
      ensures Fill(z, opts)[r][c] == z[r][c]
    {
      assert (r, c) in opts;
    }
    GridsEqual(Fill(z, opts), z);
  }

  /** A step leaves a board with no digit as it is. */
  lemma AllEmptyStep(z: Grid, kind: Kind)
    requires AllEmpty(z)
    ensures Step(z, kind) == z
  {
    var opts := OptsOf(z);
    AllEmptyFill(z);
    AllEmptyOpts(z);
    forall p, d | IsCell(p) && 1 <= d <= 9
      ensures p in opts && d in opts[p]
    {
      assert opts[p][d - 1] == d;
    }
    SweepOfFullMap(z, opts, kind);
    assert Step(z, kind) == Swept(Fill(z, opts), opts, kind);
  }

  /** A pass leaves a board with no digit as it is. */
  lemma AllEmptyPass(z: Grid)
    requires AllEmpty(z)
    ensures Pass(z).grid == z && Pass(z).opts == OptsOf(z)
  {
    AllEmptyStep(z, BlockUnits);
    AllEmptyStep(z, RowUnits);
    AllEmptyStep(z, ColUnits);
    AllEmptyFill(z);
    var g1 := Step(z, BlockUnits);
    var g2 := Step(g1, RowUnits);
    var g3 := Step(g2, ColUnits);
    assert g1 == z && g2 == z && g3 == z;
  }

  /** Since a board with no digit is a fixed point of a pass whose candidate map is not
      empty, its stagnation test holds on every pass; so by the counter logic the driver
      stops as stalled at pass 3, naming pass 1. */
  lemma AllEmptyStalls(z: Grid)
    requires AllEmpty(z)
    ensures Pass(z).opts != map[] && MapsEqual(Pass(z).prevOpts, Pass(z).opts)
  {
    AllEmptyPass(z);
    AllEmptyOpts(z);
    assert (0, 0) in Pass(z).opts;
    PassFixedPoint(z);
  }
}
