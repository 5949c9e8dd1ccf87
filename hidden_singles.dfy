/** Hidden singles: within one unit (a block, a row or a column), a digit that is a
    candidate of exactly one cell of the unit is written into that cell. */
module HiddenSingles {
  import opened Grids
  import opened Options

  datatype Option<T> = None | Some(value: T)

  /** The three kinds of unit, in the order a pass sweeps them. */
  datatype Kind = BlockUnits | RowUnits | ColUnits

  /** Unit i of the given kind, as a set of cells. */
  function Unit(kind: Kind, i: int): set<Cell>
    requires 0 <= i < 9
  {
    match kind
    case BlockUnits =>
      set x, y | 3 * (i / 3) <= x < 3 * (i / 3) + 3 && 3 * (i % 3) <= y < 3 * (i % 3) + 3 :: (x, y)
    case RowUnits => set y | 0 <= y < 9 :: (i, y)
    case ColUnits => set x | 0 <= x < 9 :: (x, i)
  }

  /** The index of the unit of the given kind that holds cell (r, c). */
  function UnitIndex(kind: Kind, r: int, c: int): (i: int)
    requires 0 <= r < 9 && 0 <= c < 9
    ensures 0 <= i < 9
  {
    match kind
    case BlockUnits => BlockIndex(r, c)
    case RowUnits => r
    case ColUnits => c
  }

  /** The units of one kind split the board: a unit holds only cells, and a cell lies in
      unit i exactly when i is its unit index. */
  lemma UnitMembership(kind: Kind, i: int, q: Cell)
    requires 0 <= i < 9
    ensures q in Unit(kind, i) ==> IsCell(q)
    ensures IsCell(q) ==> (q in Unit(kind, i) <==> UnitIndex(kind, q.0, q.1) == i)
  {
    match kind
    case BlockUnits =>
      BlockUnitIff(i, q);
    case RowUnits =>
      if IsCell(q) && q.0 == i {
        assert q == (i, q.1);
      }
    case ColUnits =>
      if IsCell(q) && q.1 == i {
        assert q == (q.0, i);
      }
  }

  /** The cells of a unit that are keys of the map and list digit d. */
  function Held(opts: Opts, unit: set<Cell>, d: int): (h: set<Cell>)
    ensures h <= unit
  {
    set p | p in unit && p in opts && d in opts[p]
  }

  /** The largest digit d in 1..n for which p is the only holder of d in the unit:
      the digit a sweep that tries d = 1, 2, ..., n in turn leaves in p. */
  function LastHidden(opts: Opts, unit: set<Cell>, p: Cell, n: nat): Option<int>
  {
    if n == 0 then None
    else if Held(opts, unit, n) == {p} then Some(n)
    else LastHidden(opts, unit, p, n - 1)
  }

  lemma {:induction false} LastHiddenSpec(opts: Opts, unit: set<Cell>, p: Cell, n: nat)
    ensures LastHidden(opts, unit, p, n).None? <==>
      forall d | 1 <= d <= n :: Held(opts, unit, d) != {p}
    ensures LastHidden(opts, unit, p, n).Some? ==>
      var d := LastHidden(opts, unit, p, n).value;
      1 <= d <= n && Held(opts, unit, d) == {p} &&
      p in unit && p in opts && d in opts[p] &&
      forall d' | d < d' <= n :: Held(opts, unit, d') != {p}
  {
    if n > 0 {
      LastHiddenSpec(opts, unit, p, n - 1);
      if Held(opts, unit, n) == {p} {
        assert p in Held(opts, unit, n);
      }
    }
  }

  /** The value cell p holds once digits 1..n of a unit have been tried, given its value v
      before. */
  function ValueAfter(opts: Opts, unit: set<Cell>, p: Cell, v: int, n: nat): int {
    match LastHidden(opts, unit, p, n)
    case Some(d) => d
    case None => v
  }

  /** The value cell p holds after the sweep of a unit, given its value v before. */
  function SweptValue(opts: Opts, unit: set<Cell>, p: Cell, v: int): int {
    ValueAfter(opts, unit, p, v, 9)
  }

  /** A hidden-single sweep over all nine units of one kind. */
  function Swept(g: Grid, opts: Opts, kind: Kind): (s: Grid)
    requires IsGrid(g)
    ensures IsGrid(s)
  {
    seq(9, r requires 0 <= r < 9 => seq(9, c requires 0 <= c < 9 =>
      SweptValue(opts, Unit(kind, UnitIndex(kind, r, c)), (r, c), g[r][c])))
  }

  /** Cell (r, c) after a sweep: its value swept within its own unit. */
  lemma SweptAt(g: Grid, opts: Opts, kind: Kind, r: int, c: int)
    requires IsGrid(g) && 0 <= r < 9 && 0 <= c < 9
    ensures Swept(g, opts, kind)[r][c] == SweptValue(opts, Unit(kind, UnitIndex(kind, r, c)), (r, c), g[r][c])
  {
  }

  /** The cells of unit i after a sweep, as the values reached after trying all nine
      digits in that unit. */
  lemma SweptUnit(g: Grid, opts: Opts, kind: Kind, i: int)
    requires IsGrid(g)
    ensures forall r, c | 0 <= r < 9 && 0 <= c < 9 && UnitIndex(kind, r, c) == i ::
      Swept(g, opts, kind)[r][c] == ValueAfter(opts, Unit(kind, i), (r, c), g[r][c], 9)
  {
    forall r, c | 0 <= r < 9 && 0 <= c < 9 && UnitIndex(kind, r, c) == i
      ensures Swept(g, opts, kind)[r][c] == ValueAfter(opts, Unit(kind, i), (r, c), g[r][c], 9)
    {
      SweptAt(g, opts, kind, r, c);
    }
  }

  /** Every unit holds a second cell besides any given one of its cells. */
  lemma OtherInUnit(kind: Kind, r: int, c: int) returns (q: Cell)
    requires 0 <= r < 9 && 0 <= c < 9
    ensures IsCell(q) && q != (r, c) && q in Unit(kind, UnitIndex(kind, r, c))
  {
    match kind
    case RowUnits => q := (r, (c + 1) % 9);
    case ColUnits => q := ((r + 1) % 9, c);
    case BlockUnits => q := if c % 3 == 2 then (r, c - 1) else (r, c + 1);
    UnitMembership(kind, UnitIndex(kind, r, c), q);
  }

  /** When every cell is a key listing every digit, no digit has a single holder in any
      unit, and a sweep changes nothing. */
  lemma SweepOfFullMap(g: Grid, opts: Opts, kind: Kind)
    requires IsGrid(g)
    requires forall p | IsCell(p) :: p in opts && forall d | 1 <= d <= 9 :: d in opts[p]
    ensures Swept(g, opts, kind) == g
  {
    forall r, c | 0 <= r < 9 && 0 <= c < 9
      ensures Swept(g, opts, kind)[r][c] == g[r][c]
    {
      var unit := Unit(kind, UnitIndex(kind, r, c));
      var q := OtherInUnit(kind, r, c);
      forall d | 1 <= d <= 9
        ensures Held(opts, unit, d) != {(r, c)}
      {
        assert q in Held(opts, unit, d);
      }
      SweptAt(g, opts, kind, r, c);
      SweptValueSpec(opts, unit, (r, c), g[r][c]);
    }
    GridsEqual(Swept(g, opts, kind), g);
  }

  /** A sweep writes into a cell exactly when some digit is held by that cell alone in its
      unit; it then receives the largest such digit, which is one of its candidates. (A
      naked single already filled in may receive the same digit again.) */
  lemma SweptValueSpec(opts: Opts, unit: set<Cell>, p: Cell, v: int)
    ensures (exists d | 1 <= d <= 9 :: Held(opts, unit, d) == {p}) ==>
      var w := SweptValue(opts, unit, p, v);
      1 <= w <= 9 && Held(opts, unit, w) == {p} && p in opts && w in opts[p] &&
      forall d' | w < d' <= 9 :: Held(opts, unit, d') != {p}
    ensures (forall d | 1 <= d <= 9 :: Held(opts, unit, d) != {p}) ==>
      SweptValue(opts, unit, p, v) == v
  {
    LastHiddenSpec(opts, unit, p, 9);
  }

  /** A cell whose only candidate is v (and which a naked fill has therefore set to v),
      or a cell that is not a key at all, keeps its value in a sweep. */
  lemma SweptKeepsSettled(opts: Opts, unit: set<Cell>, p: Cell, v: int)
    requires p in opts ==> opts[p] == [v]
    ensures SweptValue(opts, unit, p, v) == v
  {
    LastHiddenSpec(opts, unit, p, 9);
  }

  /** A map from digit to the cells listing it, as each sweep builds per unit. */
  type Tally = map<int, seq<Cell>>

  function Lookup(m: Tally, d: int): seq<Cell> {
    if d in m then m[d] else []
  }

  /** A list of cells lists the set h: each of its cells once, and nothing else. */
  ghost predicate Lists(l: seq<Cell>, h: set<Cell>) {
    |l| == |h| &&
    (forall i | 0 <= i < |l| :: l[i] in h) &&
    Distinct(l)
  }

  /** m lists, under digit d, each cell of `done` that holds d, once; and d is a key
      exactly when some cell of `done` holds it. */
  ghost predicate TalliedAt(m: Tally, opts: Opts, done: set<Cell>, d: int) {
    (d in m <==> Held(opts, done, d) != {}) && Lists(Lookup(m, d), Held(opts, done, d))
  }

  /** m lists, for every digit d, each cell of `done` that holds d, once. */
  ghost predicate Tallied(m: Tally, opts: Opts, done: set<Cell>) {
    forall d :: TalliedAt(m, opts, done, d)
  }

  /** A listing of h followed by a new cell p lists h + {p}. */
  lemma ListsAppend(l: seq<Cell>, h: set<Cell>, p: Cell)
    requires Lists(l, h) && p !in h
    ensures Lists(l + [p], h + {p})
  {
    assert forall i | 0 <= i < |l| :: l[i] != p;
  }

  /** Appends cell p to the list of digit d, starting that list when d is not yet a key. */
  function Push(m: Tally, d: int, p: Cell): (m': Tally)
    ensures forall e :: Lookup(m', e) == Lookup(m, e) + (if e == d then [p] else [])
    ensures forall e :: e in m' <==> e in m || e == d
  {
    if d in m then m[d := m[d] + [p]] else m[d := [p]]
  }

  /** Cell p appended to the list of each digit of ds, in order. */
  function PushAll(m: Tally, ds: seq<int>, p: Cell): Tally {
    if ds == [] then m else Push(PushAll(m, ds[..|ds| - 1], p), ds[|ds| - 1], p)
  }

  /** For a list without repetitions, digit d gains p once if it is in the list, and
      nothing otherwise. */
  lemma {:induction false} PushAllAt(m: Tally, ds: seq<int>, p: Cell, d: int)
    requires Distinct(ds)
    ensures Lookup(PushAll(m, ds, p), d) == Lookup(m, d) + (if d in ds then [p] else [])
    ensures d in PushAll(m, ds, p) <==> d in m || d in ds
  {
    if ds != [] {
      var init, last := ds[..|ds| - 1], ds[|ds| - 1];
      PushAllAt(m, init, p, d);
      assert PushAll(m, ds, p) == Push(PushAll(m, init, p), last, p);
      assert d in ds <==> d in init || d == last by {
        assert ds == init + [last];
      }
      if d == last {
        assert d !in init;
      }
    }
  }

  /** Appends cell p to the list of each digit of `digits`: the loop of a sweep over the
      candidate list of one cell. */
  method AddHolder(m: Tally, p: Cell, digits: seq<int>) returns (m': Tally)
    requires Distinct(digits)
    ensures forall d :: Lookup(m', d) == Lookup(m, d) + (if d in digits then [p] else [])
    ensures forall d :: d in m' <==> d in m || d in digits
  {
    m' := m;
    for i := 0 to |digits|
      invariant m' == PushAll(m, digits[..i], p)
    {
      assert digits[..i + 1][..i] == digits[..i];
      m' := Push(m', digits[i], p);
    }
    assert digits[..|digits|] == digits;
    forall d
      ensures Lookup(m', d) == Lookup(m, d) + (if d in digits then [p] else [])
      ensures d in m' <==> d in m || d in digits
    {
      PushAllAt(m, digits, p, d);
    }
  }

  /** Adding a key p that is not yet done keeps the tally exact. */
  lemma TallyStep(m: Tally, m': Tally, opts: Opts, done: set<Cell>, p: Cell)
    requires Tallied(m, opts, done) && p !in done && p in opts
    requires forall d :: Lookup(m', d) == Lookup(m, d) + (if d in opts[p] then [p] else [])
    requires forall d :: d in m' <==> d in m || d in opts[p]
    ensures Tallied(m', opts, done + {p})
  {
    forall d
      ensures TalliedAt(m', opts, done + {p}, d)
    {
      assert TalliedAt(m, opts, done, d);
      var h, h' := Held(opts, done, d), Held(opts, done + {p}, d);
      assert p !in h;
      if d in opts[p] {
        assert h' == h + {p};
        ListsAppend(Lookup(m, d), h, p);
      } else {
        assert h' == h;
      }
    }
  }

  /** An exact tally of a well-formed map is keyed by digits 1..9 only. */
  lemma TallyDigits(m: Tally, opts: Opts, unit: set<Cell>)
    requires Tallied(m, opts, unit) && WellFormed(opts)
    ensures forall d | d in m :: 1 <= d <= 9
  {
    forall d | d in m
      ensures 1 <= d <= 9
    {
      assert TalliedAt(m, opts, unit, d);
      var p :| p in Held(opts, unit, d);
      assert AscendingDigits(opts[p]);
    }
  }

  /** A cell lies in block b exactly when it lies in that block's 3x3 tile. */
  lemma BlockUnitIff(b: int, q: Cell)
    requires 0 <= b < 9
    ensures q in Unit(BlockUnits, b) <==>
      3 * (b / 3) <= q.0 < 3 * (b / 3) + 3 && 3 * (b % 3) <= q.1 < 3 * (b % 3) + 3
  {
    if 3 * (b / 3) <= q.0 < 3 * (b / 3) + 3 && 3 * (b % 3) <= q.1 < 3 * (b % 3) + 3 {
      assert q == (q.0, q.1);
    }
  }

  /** A cell that is not a key adds nothing to the tally. */
  lemma TallySkip(m: Tally, opts: Opts, done: set<Cell>, p: Cell)
    requires Tallied(m, opts, done) && p !in opts
    ensures Tallied(m, opts, done + {p})
  {
    forall d
      ensures TalliedAt(m, opts, done + {p}, d)
    {
      assert TalliedAt(m, opts, done, d);
      assert Held(opts, done + {p}, d) == Held(opts, done, d);
    }
  }

  /** Two sets of cells that agree on the keys of the map tally alike. */
  lemma TallySameKeys(m: Tally, opts: Opts, done: set<Cell>, unit: set<Cell>)
    requires Tallied(m, opts, done)
    requires forall q | q in opts :: q in done <==> q in unit
    ensures Tallied(m, opts, unit)
  {
    forall d
      ensures TalliedAt(m, opts, unit, d)
    {
      assert TalliedAt(m, opts, done, d);
      assert Held(opts, done, d) == Held(opts, unit, d);
    }
  }

  /** A set of one element is that element's singleton. */
  lemma Singleton(s: set<Cell>, q: Cell)
    requires |s| == 1 && q in s
    ensures s == {q}
  {
    assert |s - {q}| == 0;
  }

  /** Trying digit d in a unit whose tally is exact: the cells the sweep then writes are
      exactly those that ValueAfter moves to d. */
  lemma TryDigit(m: Tally, opts: Opts, unit: set<Cell>, d: nat, q: Cell, v: int)
    requires Tallied(m, opts, unit) && d >= 1
    ensures ValueAfter(opts, unit, q, v, d) ==
      if |Lookup(m, d)| == 1 && Lookup(m, d)[0] == q then d else ValueAfter(opts, unit, q, v, d - 1)
  {
    var h := Held(opts, unit, d);
    assert TalliedAt(m, opts, unit, d);
    if |Lookup(m, d)| == 1 {
      Singleton(h, Lookup(m, d)[0]);
    } else {
      assert h != {q};
    }
  }
}
