/** The solver's state and the operations that update it in place: loading a puzzle,
    rebuilding the column and block views, rebuilding the candidate map with its naked
    fill, the three hidden-single sweeps, the stagnation test and one step of the driver. */
module SudokuSolver {
  import opened Grids
  import opened Options
  import opened HiddenSingles
  import opened Stagnation
  import opened Passes

  /** The numeric value of a decimal digit character. */
  function DigitValue(ch: char): (d: int)
    requires '0' <= ch <= '9'
    ensures 0 <= d <= 9 && (d == 0 <==> ch == '0')
  {
    ch as int - '0' as int
  }

  /** The digits of an 81-character puzzle string, in order. */
  function Digits(input: string): (s: seq<int>)
    requires |input| == 81 && forall k | 0 <= k < 81 :: '0' <= input[k] <= '9'
    ensures |s| == 81
  {
    seq(81, k requires 0 <= k < 81 => DigitValue(input[k]))
  }

  /** The list comparison: equal lengths, and every element of the first list is found
      in the second. */
  method IsArrEqual(arr1: seq<int>, arr2: seq<int>) returns (equality: bool)
    ensures equality == SameElements(arr1, arr2)
  {
    equality := true;
    if |arr1| != |arr2| {
      equality := false;
    } else {
      for i := 0 to |arr1|
        invariant forall k | 0 <= k < i :: arr1[k] in arr2
      {
        if arr1[i] !in arr2 {
          equality := false;
          break;
        }
      }
    }
  }

  /** After the n-th digit of a row (n in 1..9) the running count is a multiple of nine
      exactly when the row is complete. */
  lemma RowEnds(q: int, n: int)
    requires 1 <= n <= 9
    ensures (9 * q + n) % 9 == 0 <==> n == 9
  {
    if n < 9 {
      assert (9 * q + n) % 9 == n;
    } else {
      assert 9 * q + n == 9 * (q + 1);
    }
  }

  /** How a driver iteration ends: solved, stalled (naming the pass where the repetition
      began), or going on with the next pass number. */
  datatype Outcome = Solved | Stalled(since: int) | Continue(nextPass: int)

  class Solver {
    /** The board, one row per first index; the row view is this same array. */
    const board: array2<int>
    /** Column view: C[x] is column x. */
    var C: seq<seq<int>>
    /** Block view: B[b] is block b, cells row by row. */
    var B: seq<seq<int>>
    /** Candidate list of each empty cell, from the latest rebuild. */
    var opts: Opts
    /** The candidate map of the rebuild before the latest one. */
    var prevOpts: Opts
    /** Consecutive stagnation tests that found the two maps equal. */
    var loopCount: nat

    predicate Valid() {
      board.Length0 == 9 && board.Length1 == 9
    }

    /** Row r of the board. */
    function Row(r: int): (row: seq<int>)
      requires Valid() && 0 <= r < 9
      reads board
      ensures |row| == 9 && forall c | 0 <= c < 9 :: row[c] == board[r, c]
    {
      seq(9, c requires 0 <= c < 9 reads board => board[r, c])
    }

    /** The board as a value. */
    function Snapshot(): (g: Grid)
      requires Valid()
      reads board
      ensures IsGrid(g) && forall r, c | 0 <= r < 9 && 0 <= c < 9 :: g[r][c] == board[r, c]
    {
      seq(9, r requires 0 <= r < 9 reads board => Row(r))
    }

    /** The board equals a grid when they agree cell by cell. */
    lemma SnapshotIs(h: Grid)
      requires Valid() && IsGrid(h)
      requires forall r, c | 0 <= r < 9 && 0 <= c < 9 :: board[r, c] == h[r][c]
      ensures Snapshot() == h
    {
      var g := Snapshot();
      forall r | 0 <= r < 9
        ensures g[r] == h[r]
      {
      }
    }

    /** An empty board and empty maps, as the globals start out. */
    constructor ()
      ensures Valid() && fresh(board)
      ensures forall r, c | 0 <= r < 9 && 0 <= c < 9 :: board[r, c] == 0
      ensures C == [] && B == [] && opts == map[] && prevOpts == map[] && loopCount == 0
    {
      board := new int[9, 9]((r, c) => 0);
      C, B := [], [];
      opts, prevOpts := map[], map[];
      loopCount := 0;
    }

    /** Lays the 81 digits of the puzzle into the board, row by row. */
    method PopulateSudoku(input: string)
      requires Valid()
      requires |input| == 81 && forall k | 0 <= k < 81 :: '0' <= input[k] <= '9'
      modifies board
      ensures Snapshot() == Unflatten(Digits(input))
      ensures forall k | 0 <= k < 81 :: board[k / 9, k % 9] == DigitValue(input[k])
    {
      ghost var digits := Digits(input);
      var row: seq<int> := [];
      var rowCount := 0;
      for inCount := 0 to 81
        invariant 0 <= rowCount && |row| < 9 && inCount == 9 * rowCount + |row|
        invariant row == digits[9 * rowCount .. inCount]
        invariant forall r, c | 0 <= r < rowCount && 0 <= c < 9 :: board[r, c] == digits[9 * r + c]
      {
        row := row + [DigitValue(input[inCount])];
        RowEnds(rowCount, |row|);
        if (inCount + 1) % 9 == 0 {
          forall c | 0 <= c < 9 {
            board[rowCount, c] := row[c];
          }
          rowCount := rowCount + 1;
          row := [];
        }
      }
      forall r, c | 0 <= r < 9 && 0 <= c < 9
        ensures board[r, c] == Unflatten(digits)[r][c]
      {
      }
      SnapshotIs(Unflatten(digits));
      UnflattenRoundTrip(digits);
    }

    /** Rebuilds the column view as the transpose of the board. */
    method GenerateC()
      requires Valid()
      modifies this`C
      ensures C == Transpose(Snapshot())
    {
      ghost var t := Transpose(Snapshot());
      var cRow: seq<int> := [];
      C := [];
      for x := 0 to 9
        invariant C == t[..x] && cRow == []
      {
        for y := 0 to 9
          invariant cRow == t[x][..y]
        {
          cRow := cRow + [board[y, x]];
        }
        assert cRow == t[x];
        assert t[..x + 1] == t[..x] + [t[x]];
        C := C + [cRow];
        cRow := [];
      }
    }

    /** The nine cells of the tile whose top-left corner is (addI, addJ), row by row. */
    method BlockRow(addI: int, addJ: int, ghost b: int) returns (bRow: seq<int>)
      requires Valid()
      requires (addI == 0 || addI == 3 || addI == 6) && (addJ == 0 || addJ == 3 || addJ == 6)
      requires 0 <= b < 9 && 3 * b == 3 * addI + addJ
      ensures bRow == Blocks(Snapshot())[b]
    {
      ghost var g := Snapshot();
      ghost var blk := Blocks(g)[b];
      bRow := [];
      for i := 0 to 3
        invariant bRow == blk[..3 * i]
      {
        for j := 0 to 3
          invariant bRow == blk[..3 * i + j]
        {
          BlockSlot(g, b, addI, addJ, i, j);
          assert blk[3 * i + j] == board[addI + i, addJ + j];
          bRow := bRow + [board[addI + i, addJ + j]];
        }
      }
    }

    /** Rebuilds the block view, walking the top-left corners of the nine tiles. */
    method GenerateB()
      requires Valid()
      modifies this`B
      ensures B == Blocks(Snapshot())
    {
      ghost var bs := Blocks(Snapshot());
      var bRow: seq<int> := [];
      var addI, addJ := 0, 0;
      B := [];
      while addI < 9
        invariant (addI == 0 || addI == 3 || addI == 6 || addI == 10) && (addJ == 0 || addJ == 3 || addJ == 6)
        invariant addI < 9 ==> 3 * |B| == 3 * addI + addJ
        invariant addI == 10 ==> |B| == 9 && addJ == 0
        invariant |B| <= 9 && B == bs[..|B|] && bRow == []
        decreases 9 - |B|
      {
        ghost var b := |B|;
        TileCorner(b, addI, addJ);
        bRow := BlockRow(addI, addJ, |B|);
        assert bRow == bs[b];
        assert bs[..b + 1] == bs[..b] + [bs[b]];
        B := B + [bRow];
        bRow := [];
        if addJ == 6 {
          addJ := 0;
          if addI == 6 {
            addI := 10;
          } else {
            addI := addI + 3;
          }
        } else {
          addJ := addJ + 3;
        }
      }
    }

    /** Rebuilds both derived views from the board. */
    method GenerateCheckArrays()
      requires Valid()
      modifies this`C, this`B
      ensures C == Transpose(Snapshot()) && B == Blocks(Snapshot())
    {
      GenerateC();
      GenerateB();
    }
  
    /** The candidate list of cell (r, c): the digits 1..9, in ascending order, that
        occur in neither its row, nor its column view, nor its block view. */
    method CellOptions(r: int, c: int) returns (list: seq<int>)
      requires Valid() && 0 <= r < 9 && 0 <= c < 9
      requires C == Transpose(Snapshot()) && B == Blocks(Snapshot())
      ensures list == Candidates(Snapshot(), r, c)
    {
      var idxB := BlockIndex(r, c);
      var row := Row(r);
      list := [];
      for i := 1 to 10
        invariant list == CandidatesUpTo(Snapshot(), r, c, i - 1)
      {
        if i !in row && i !in C[c] && i !in B[idxB] {
          list := list + [i];
        }
      }
    }

    /** Writes every cell whose candidate list has exactly one digit; the keys may be
        taken in any order, since only the map is read. */
    method WriteNakedSingles()
      requires Valid() && forall p | p in opts :: IsCell(p)
      modifies board
      ensures forall r, c | 0 <= r < 9 && 0 <= c < 9 ::
        board[r, c] == if (r, c) in opts && |opts[(r, c)]| == 1 then opts[(r, c)][0] else old(board[r, c])
    {
      var todo := opts.Keys;
      while todo != {}
        invariant todo <= opts.Keys
        invariant forall r, c | 0 <= r < 9 && 0 <= c < 9 ::
          board[r, c] == if (r, c) in opts && (r, c) !in todo && |opts[(r, c)]| == 1 then opts[(r, c)][0] else old(board[r, c])
        decreases |todo|
      {
        var x :| x in todo;
        if |opts[x]| == 1 {
          board[x.0, x.1] := opts[x][0];
        }
        todo := todo - {x};
      }
    }

    /** Makes every empty cell, and nothing else, a key of the candidate map, with an
        empty list. */
    method CollectEmptyCells()
      requires Valid()
      modifies this`opts
      ensures forall p :: p in opts <==> IsCell(p) && Snapshot()[p.0][p.1] == 0
      ensures forall p | p in opts :: opts[p] == []
    {
      ghost var g := Snapshot();
      opts := map[];
      for i := 0 to 9
        invariant forall p :: p in opts <==> IsCell(p) && p.0 < i && g[p.0][p.1] == 0
        invariant forall p | p in opts :: opts[p] == []
      {
        for j := 0 to 9
          invariant forall p :: p in opts <==> IsCell(p) && (p.0 < i || (p.0 == i && p.1 < j)) && g[p.0][p.1] == 0
          invariant forall p | p in opts :: opts[p] == []
        {
          assert board[i, j] == g[i][j];
          if board[i, j] == 0 {
            opts := opts[(i, j) := []];
          }
          assert forall p: Cell | p.0 == i && p.1 == j :: p == (i, j);
        }
      }
    }

    /** Gives every key of the candidate map its candidate list; the keys may be taken
        in any order. */
    method ListCandidates()
      requires Valid() && C == Transpose(Snapshot()) && B == Blocks(Snapshot())
      requires forall p :: p in opts <==> IsCell(p) && Snapshot()[p.0][p.1] == 0
      modifies this`opts
      ensures opts == OptsOf(Snapshot())
    {
      ghost var g := Snapshot();
      var todo := opts.Keys;
      while todo != {}
        invariant todo <= opts.Keys
        invariant forall p :: p in opts <==> IsCell(p) && g[p.0][p.1] == 0
        invariant forall p | p in opts && p !in todo :: opts[p] == Candidates(g, p.0, p.1)
        decreases |todo|
      {
        var x :| x in todo;
        var list := CellOptions(x.0, x.1);
        opts := opts[x := list];
        todo := todo - {x};
      }
      OptsOfIs(g, opts);
    }

    /** Rebuilds the views, moves the candidate map to prevOpts, builds the candidate map
        of the board, then writes every cell with a single candidate. */
    method GenerateOpts()
      requires Valid()
      modifies this`C, this`B, this`opts, this`prevOpts, board
      ensures prevOpts == old(opts) && loopCount == old(loopCount)
      ensures C == Transpose(old(Snapshot())) && B == Blocks(old(Snapshot()))
      ensures opts == OptsOf(old(Snapshot()))
      ensures Snapshot() == Fill(old(Snapshot()), opts)
    {
      GenerateCheckArrays();
      prevOpts := opts;
      CollectEmptyCells();
      ListCandidates();
      ghost var g := Snapshot();
      WriteNakedSingles();
      SnapshotIs(Fill(g, opts));
    }

    /** Writes each digit that the tally lists under exactly one cell into that cell,
        trying the digits in ascending order, as the integer keys of the tally are
        enumerated; a later digit overwrites an earlier one in the same cell. The cells
        of the unit end as the sweep of g leaves them, given that they start as in g. */
    method WriteSingles(m: Tally, ghost kind: Kind, ghost i: int, ghost g: Grid)
      requires Valid() && 0 <= i < 9 && Tallied(m, opts, Unit(kind, i))
      requires forall d | d in m :: 1 <= d <= 9
      requires IsGrid(g) && forall r, c | 0 <= r < 9 && 0 <= c < 9 && UnitIndex(kind, r, c) == i :: board[r, c] == g[r][c]
      modifies board
      ensures forall r, c | 0 <= r < 9 && 0 <= c < 9 ::
        board[r, c] == if UnitIndex(kind, r, c) == i then Swept(g, opts, kind)[r][c] else old(board[r, c])
    {
      ghost var unit := Unit(kind, i);
      for d := 1 to 10
        invariant forall r, c | 0 <= r < 9 && 0 <= c < 9 ::
          board[r, c] ==
            if UnitIndex(kind, r, c) == i then ValueAfter(opts, unit, (r, c), g[r][c], d - 1)
            else old(board[r, c])
      {
        assert TalliedAt(m, opts, unit, d);
        if d in m && |m[d]| == 1 {
          var q := m[d][0];
          UnitMembership(kind, i, q);
          board[q.0, q.1] := d;
        }
        forall r, c | 0 <= r < 9 && 0 <= c < 9
          ensures board[r, c] ==
            if UnitIndex(kind, r, c) == i then ValueAfter(opts, unit, (r, c), g[r][c], d)
            else old(board[r, c])
        {
          UnitMembership(kind, i, (r, c));
          TryDigit(m, opts, unit, d, (r, c), g[r][c]);
        }
      }
      SweptUnit(g, opts, kind, i);
    }

    /** The tally of the tile whose top-left corner is (blkX, blkY): its cells are visited
        row by row, and each key's candidates are appended to the tally. */
    method TallyBlock(blkX: int, blkY: int, ghost b: int) returns (m: Tally)
      requires WellFormed(opts)
      requires (blkX == 0 || blkX == 3 || blkX == 6) && (blkY == 0 || blkY == 3 || blkY == 6)
      requires 0 <= b < 9 && 3 * b == 3 * blkX + blkY
      ensures Tallied(m, opts, Unit(BlockUnits, b))
    {
      TileCorner(b, blkX, blkY);
      m := map[];
      ghost var done: set<Cell> := {};
      for x := blkX to blkX + 3
        invariant forall q: Cell :: q in done <==> blkX <= q.0 < x && blkY <= q.1 < blkY + 3
        invariant Tallied(m, opts, done)
      {
        for y := blkY to blkY + 3
          invariant forall q: Cell :: q in done <==>
            (blkX <= q.0 < x && blkY <= q.1 < blkY + 3) || (q.0 == x && blkY <= q.1 < y)
          invariant Tallied(m, opts, done)
        {
          if (x, y) in opts {
            assert AscendingDigits(opts[(x, y)]);
            var m' := AddHolder(m, (x, y), opts[(x, y)]);
            TallyStep(m, m', opts, done, (x, y));
            m := m';
          } else {
            TallySkip(m, opts, done, (x, y));
          }
          done := done + {(x, y)};
        }
      }
      forall q | q in opts
        ensures q in done <==> q in Unit(BlockUnits, b)
      {
        BlockUnitIff(b, q);
      }
      TallySameKeys(m, opts, done, Unit(BlockUnits, b));
    }

    /** The sweep of the tile whose top-left corner is (blkX, blkY): its tally, then the
        writes. */
    method SweepBlock(blkX: int, blkY: int, ghost b: int, ghost g: Grid)
      requires Valid() && WellFormed(opts)
      requires (blkX == 0 || blkX == 3 || blkX == 6) && (blkY == 0 || blkY == 3 || blkY == 6)
      requires 0 <= b < 9 && 3 * b == 3 * blkX + blkY
      requires IsGrid(g) && forall r, c | 0 <= r < 9 && 0 <= c < 9 && BlockIndex(r, c) == b :: board[r, c] == g[r][c]
      modifies board
      ensures forall r, c | 0 <= r < 9 && 0 <= c < 9 ::
        board[r, c] == if BlockIndex(r, c) == b then Swept(g, opts, BlockUnits)[r][c] else old(board[r, c])
    {
      var blkOpts := TallyBlock(blkX, blkY, b);
      TallyDigits(blkOpts, opts, Unit(BlockUnits, b));
      WriteSingles(blkOpts, BlockUnits, b, g);
    }

    /** The block sweep: the nine tiles in order of their top-left corners, each tallied
        and then written. */
    method SweepBlocks()
      requires Valid() && WellFormed(opts)
      modifies board
      ensures Snapshot() == Swept(old(Snapshot()), opts, BlockUnits)
    {
      ghost var g := Snapshot();
      ghost var sw := Swept(g, opts, BlockUnits);
      ghost var b := 0;
      var blkX, blkY := 0, 0;
      while blkX < 9
        invariant (blkX == 0 || blkX == 3 || blkX == 6 || blkX == 10) && (blkY == 0 || blkY == 3 || blkY == 6)
        invariant blkX < 9 ==> 3 * b == 3 * blkX + blkY
        invariant blkX == 10 ==> b == 9 && blkY == 0
        invariant 0 <= b <= 9
        invariant forall r, c | 0 <= r < 9 && 0 <= c < 9 ::
          board[r, c] == if BlockIndex(r, c) < b then sw[r][c] else g[r][c]
        decreases 9 - b
      {
        SweepBlock(blkX, blkY, b, g);
        b := b + 1;
        if blkY == 6 {
          blkY := 0;
          if blkX == 6 {
            blkX := 10;
          } else {
            blkX := blkX + 3;
          }
        } else {
          blkY := blkY + 3;
        }
      }
      SnapshotIs(sw);
    }

    /** The tally of row i (kind RowUnits) or column i (kind ColUnits): every key of the
        map, in any order, whose row (column) is i adds its candidates. */
    method TallyLine(kind: Kind, i: int) returns (m: Tally)
      requires WellFormed(opts) && (kind == RowUnits || kind == ColUnits) && 0 <= i < 9
      ensures Tallied(m, opts, Unit(kind, i))
    {
      m := map[];
      ghost var done: set<Cell> := {};
      var todo := opts.Keys;
      while todo != {}
        invariant todo <= opts.Keys
        invariant forall q | q in opts :: q in done <==> q !in todo && UnitIndex(kind, q.0, q.1) == i
        invariant forall q | q in done :: q in opts
        invariant Tallied(m, opts, done)
        decreases |todo|
      {
        var key :| key in todo;
        var line := if kind == RowUnits then key.0 else key.1;
        if line == i {
          assert AscendingDigits(opts[key]);
          var m' := AddHolder(m, key, opts[key]);
          TallyStep(m, m', opts, done, key);
          m := m';
          done := done + {key};
        }
        todo := todo - {key};
      }
      forall q | q in opts
        ensures q in done <==> q in Unit(kind, i)
      {
        UnitMembership(kind, i, q);
      }
      TallySameKeys(m, opts, done, Unit(kind, i));
    }

    /** The row sweep (kind RowUnits) or the column sweep (kind ColUnits): lines 0..8 in
        order, each tallied and then written. */
    method SweepLines(kind: Kind)
      requires Valid() && WellFormed(opts) && (kind == RowUnits || kind == ColUnits)
      modifies board
      ensures Snapshot() == Swept(old(Snapshot()), opts, kind)
    {
      ghost var g := Snapshot();
      ghost var sw := Swept(g, opts, kind);
      for i := 0 to 9
        invariant forall r, c | 0 <= r < 9 && 0 <= c < 9 ::
          board[r, c] == if UnitIndex(kind, r, c) < i then sw[r][c] else g[r][c]
      {
        var lineOpts := TallyLine(kind, i);
        TallyDigits(lineOpts, opts, Unit(kind, i));
        WriteSingles(lineOpts, kind, i, g);
      }
      SnapshotIs(sw);
    }

    /** The stagnation test: false when there is no previous map; otherwise true exactly
        when every previous key is a current key with a list of the same elements. The
        counter is bumped when the test holds. */
    method IsEqual() returns (equality: bool)
      modifies this`loopCount
      ensures equality == MapsEqual(prevOpts, opts)
      ensures loopCount == if equality then old(loopCount) + 1 else old(loopCount)
    {
      equality := true;
      if |prevOpts| == 0 {
        equality := false;
      } else {
        var todo := prevOpts.Keys;
        while todo != {}
          invariant todo <= prevOpts.Keys
          invariant forall k | k in prevOpts && k !in todo :: k in opts && SameElements(prevOpts[k], opts[k])
          invariant loopCount == old(loopCount)
          decreases |todo|
        {
          var pkey :| pkey in todo;
          if pkey in opts {
            var same := IsArrEqual(prevOpts[pkey], opts[pkey]);
            if !same {
              equality := false;
              break;
            }
          } else {
            equality := false;
            break;
          }
          todo := todo - {pkey};
        }
      }
      if equality {
        loopCount := loopCount + 1;
      }
    }

    /** One pass: rebuild and naked fill, block sweep, rebuild, row sweep, rebuild, column
        sweep, rebuild. */
    method SolveSudoku()
      requires Valid()
      modifies this`C, this`B, this`opts, this`prevOpts, board
      ensures Snapshot() == Pass(old(Snapshot())).grid
      ensures opts == Pass(old(Snapshot())).opts && prevOpts == Pass(old(Snapshot())).prevOpts
      ensures C == Transpose(Pass(old(Snapshot())).swept) && B == Blocks(Pass(old(Snapshot())).swept)
      ensures loopCount == old(loopCount)
    {
      GenerateOpts();
      OptsOfSpec(old(Snapshot()));
      SweepBlocks();
      ghost var g1 := Snapshot();
      GenerateOpts();
      OptsOfSpec(g1);
      SweepLines(RowUnits);
      ghost var g2 := Snapshot();
      GenerateOpts();
      OptsOfSpec(g2);
      SweepLines(ColUnits);
      GenerateOpts();
    }

    /** The driver loop's decision after the pass numbered `pass` (the body of that loop
        is SolveSudoku followed by this): solved when no empty cell is left, stalled when
        the stagnation test holds for the third time in a row, and otherwise the next pass,
        with the counter reset when the test fails. */
    method Decide(pass: int) returns (outcome: Outcome)
      modifies this`loopCount
      ensures opts == map[] ==> outcome == Solved && loopCount == old(loopCount)
      ensures opts != map[] ==> loopCount == NextCount(old(loopCount), MapsEqual(prevOpts, opts))
      ensures opts != map[] ==> outcome == if loopCount == 3 then Stalled(pass - 2) else Continue(pass + 1)
    {
      if |opts| == 0 {
        outcome := Solved;
      } else {
        var equal := IsEqual();
        if equal {
          if loopCount == 3 {
            outcome := Stalled(pass - 2);
          } else {
            outcome := Continue(pass + 1);
          }
        } else {
          outcome := Continue(pass + 1);
          loopCount := 0;
        }
      }
    }
  }
}
