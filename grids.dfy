/** The 9x9 board as a value, and the three unit views derived from it:
    rows (the board itself), columns (its transpose) and the nine 3x3 blocks. */
module Grids {

  /** A coordinate (row, col); the source keys cells by the two-character string "rc". */
  type Cell = (int, int)

  /** A board as a sequence of rows. */
  type Grid = seq<seq<int>>

  predicate IsCell(p: Cell) {
    0 <= p.0 < 9 && 0 <= p.1 < 9
  }

  /** All 81 coordinates of the board. */
  const Cells: set<Cell> := set r, c | 0 <= r < 9 && 0 <= c < 9 :: (r, c)

  lemma CellsAreCells(p: Cell)
    ensures p in Cells <==> IsCell(p)
  {
    if IsCell(p) {
      assert p == (p.0, p.1);
    }
  }

  predicate IsGrid(g: Grid) {
    |g| == 9 && forall r | 0 <= r < 9 :: |g[r]| == 9
  }

  /** Every cell holds a digit 0..9, 0 meaning empty. */
  predicate IsDigitGrid(g: Grid) {
    IsGrid(g) && forall r, c | 0 <= r < 9 && 0 <= c < 9 :: 0 <= g[r][c] <= 9
  }

  /** Two boards that agree cell by cell are equal. */
  lemma GridsEqual(g: Grid, h: Grid)
    requires IsGrid(g) && IsGrid(h)
    requires forall r, c | 0 <= r < 9 && 0 <= c < 9 :: g[r][c] == h[r][c]
    ensures g == h
  {
    forall r | 0 <= r < 9
      ensures g[r] == h[r]
    {
    }
  }

  /** The empty cells of a board. */
  function EmptyCells(g: Grid): (e: set<Cell>)
    requires IsGrid(g)
    ensures forall p :: p in e <==> IsCell(p) && g[p.0][p.1] == 0
  {
    CellsAreCellsAll();
    set p | p in Cells && g[p.0][p.1] == 0
  }

  lemma CellsAreCellsAll()
    ensures forall p :: p in Cells <==> IsCell(p)
  {
    forall p
      ensures p in Cells <==> IsCell(p)
    {
      CellsAreCells(p);
    }
  }

  /** b is a (possibly equal) continuation of a: every cell either keeps its value or
      goes from empty to filled. */
  predicate Extends(a: Grid, b: Grid)
    requires IsGrid(a) && IsGrid(b)
  {
    forall r, c | 0 <= r < 9 && 0 <= c < 9 :: b[r][c] == a[r][c] || (a[r][c] == 0 && b[r][c] != 0)
  }

  lemma ExtendsTrans(a: Grid, b: Grid, c: Grid)
    requires IsGrid(a) && IsGrid(b) && IsGrid(c) && Extends(a, b) && Extends(b, c)
    ensures Extends(a, c)
  {
  }

  /** Two boards that continue each other are the same board. */
  lemma ExtendsAntisymmetric(a: Grid, b: Grid)
    requires IsGrid(a) && IsGrid(b) && Extends(a, b) && Extends(b, a)
    ensures a == b
  {
    GridsEqual(a, b);
  }

  /** A continuation has no more empty cells, and strictly fewer unless it is the same
      board. */
  lemma ExtendsShrinks(a: Grid, b: Grid)
    requires IsGrid(a) && IsGrid(b) && Extends(a, b)
    ensures EmptyCells(b) <= EmptyCells(a)
    ensures a != b ==> |EmptyCells(b)| < |EmptyCells(a)|
  {
    var ea, eb := EmptyCells(a), EmptyCells(b);
    assert eb <= ea;
    if a != b {
      if forall r, c | 0 <= r < 9 && 0 <= c < 9 :: a[r][c] == b[r][c] {
        GridsEqual(a, b);
      }
      var r, c :| 0 <= r < 9 && 0 <= c < 9 && a[r][c] != b[r][c];
      assert (r, c) in ea && (r, c) !in eb;
      ProperSubsetCard(ea, eb, (r, c));
    }
  }

  /** Dropping at least one element from a set lowers its size. */
  lemma ProperSubsetCard(x: set<Cell>, y: set<Cell>, p: Cell)
    requires y <= x && p in x && p !in y
    ensures |y| < |x|
  {
    assert x == y + (x - y);
    assert p in x - y;
  }

  /** Column view: entry x is column x of the board, read top to bottom. */
  function Transpose(g: Grid): (t: Grid)
    requires IsGrid(g)
    ensures IsGrid(t)
  {
    seq(9, x requires 0 <= x < 9 => seq(9, y requires 0 <= y < 9 => g[y][x]))
  }

  /** Block view: block b is the 3x3 tile whose top-left cell is
      (3 * (b / 3), 3 * (b % 3)), its cells listed row by row. */
  function Blocks(g: Grid): (bs: Grid)
    requires IsGrid(g)
    ensures IsGrid(bs)
  {
    seq(9, b requires 0 <= b < 9 =>
      seq(9, k requires 0 <= k < 9 => g[3 * (b / 3) + k / 3][3 * (b % 3) + k % 3]))
  }

  /** A coordinate's band of three, by range. */
  lemma Thirds(x: int)
    requires 0 <= x < 9
    ensures 0 <= x <= 2 ==> x / 3 == 0
    ensures 3 <= x <= 5 ==> x / 3 == 1
    ensures 6 <= x <= 8 ==> x / 3 == 2
  {
  }

  /** A coordinate inside band q of three lies in that band. */
  lemma TileRange(q: int, x: int)
    requires 0 <= q < 3 && 3 * q <= x < 3 * q + 3
    ensures x / 3 == q
  {
    DivMod3(q, x - 3 * q);
  }

  /** A list without repetitions. */
  predicate Distinct<T(==)>(s: seq<T>) {
    forall i, j | 0 <= i < j < |s| :: s[i] != s[j]
  }

  /** The block index the source derives from a coordinate with nine range tests. */
  function BlockIndex(r: int, c: int): (b: int)
    requires 0 <= r < 9 && 0 <= c < 9
    ensures 0 <= b < 9
    ensures b == (r / 3) * 3 + c / 3
    ensures 3 * (b / 3) <= r < 3 * (b / 3) + 3 && 3 * (b % 3) <= c < 3 * (b % 3) + 3
  {
    Thirds(r);
    Thirds(c);
    if 0 <= r <= 2 && 0 <= c <= 2 then 0
    else if 0 <= r <= 2 && 3 <= c <= 5 then 1
    else if 0 <= r <= 2 && 6 <= c <= 8 then 2
    else if 3 <= r <= 5 && 0 <= c <= 2 then 3
    else if 3 <= r <= 5 && 3 <= c <= 5 then 4
    else if 3 <= r <= 5 && 6 <= c <= 8 then 5
    else if 6 <= r <= 8 && 0 <= c <= 2 then 6
    else if 6 <= r <= 8 && 3 <= c <= 5 then 7
    else 8
  }

  /** The position of a cell inside its block's list. */
  function BlockPosition(r: int, c: int): (k: int)
    requires 0 <= r < 9 && 0 <= c < 9
    ensures 0 <= k < 9
  {
    3 * (r % 3) + c % 3
  }

  /** Transposing twice gives the board back: the column view loses nothing. */
  lemma TransposeInvolution(g: Grid)
    requires IsGrid(g)
    ensures Transpose(Transpose(g)) == g
  {
    var t := Transpose(Transpose(g));
    forall r | 0 <= r < 9
      ensures t[r] == g[r]
    {
      assert forall c | 0 <= c < 9 :: t[r][c] == g[r][c];
    }
  }

  /** Splitting a small number into a multiple of 3 and a remainder below 3. */
  lemma DivMod3(q: int, m: int)
    requires 0 <= q < 3 && 0 <= m < 3
    ensures (3 * q + m) / 3 == q && (3 * q + m) % 3 == m
  {
  }

  /** Cell (r, c) sits at slot BlockPosition(r, c) of block BlockIndex(r, c). */
  lemma CellInBlock(g: Grid, r: int, c: int)
    requires IsGrid(g) && 0 <= r < 9 && 0 <= c < 9
    ensures Blocks(g)[BlockIndex(r, c)][BlockPosition(r, c)] == g[r][c]
  {
    var b, k := BlockIndex(r, c), BlockPosition(r, c);
    var qr, qc, mr, mc := r / 3, c / 3, r % 3, c % 3;
    assert r == 3 * qr + mr && c == 3 * qc + mc;
    assert b == 3 * qr + qc && k == 3 * mr + mc;
    DivMod3(qr, qc);
    DivMod3(mr, mc);
    assert Blocks(g)[b][k] == g[3 * qr + mr][3 * qc + mc];
  }

  /** The top-left corner (i0, j0) of a tile gives its block index b by 3 * b == 3 * i0 + j0. */
  lemma TileCorner(b: int, i0: int, j0: int)
    requires (i0 == 0 || i0 == 3 || i0 == 6) && (j0 == 0 || j0 == 3 || j0 == 6)
    requires 3 * b == 3 * i0 + j0
    ensures 0 <= b < 9 && 3 * (b / 3) == i0 && 3 * (b % 3) == j0
  {
  }

  /** Slot 3 * i + j of block b, whose tile has its top-left corner at (i0, j0), is row
      i, column j of that tile. */
  lemma BlockSlot(g: Grid, b: int, i0: int, j0: int, i: int, j: int)
    requires IsGrid(g) && 0 <= i < 3 && 0 <= j < 3
    requires (i0 == 0 || i0 == 3 || i0 == 6) && (j0 == 0 || j0 == 3 || j0 == 6)
    requires 3 * b == 3 * i0 + j0
    ensures 0 <= b < 9 && Blocks(g)[b][3 * i + j] == g[i0 + i][j0 + j]
  {
    TileCorner(b, i0, j0);
    DivMod3(i, j);
  }

  /** Slot k of block b is the cell (3 * (b / 3) + k / 3, 3 * (b % 3) + k % 3), and that
      cell's block and slot are b and k again. */
  lemma SlotOfBlock(b: int, k: int)
    requires 0 <= b < 9 && 0 <= k < 9
    ensures var r, c := 3 * (b / 3) + k / 3, 3 * (b % 3) + k % 3;
      0 <= r < 9 && 0 <= c < 9 && BlockIndex(r, c) == b && BlockPosition(r, c) == k
  {
    var r, c := 3 * (b / 3) + k / 3, 3 * (b % 3) + k % 3;
    DivMod3(b / 3, k / 3);
    DivMod3(b % 3, k % 3);
    assert r / 3 == b / 3 && r % 3 == k / 3;
    assert c / 3 == b % 3 && c % 3 == k % 3;
  }

  /** The block view is a rearrangement of the board: every cell appears in its block
      at its slot, and every slot of every block is exactly one cell. */
  lemma BlockLayout(g: Grid)
    requires IsGrid(g)
    ensures forall r, c | 0 <= r < 9 && 0 <= c < 9 ::
      Blocks(g)[BlockIndex(r, c)][BlockPosition(r, c)] == g[r][c]
    ensures forall b, k | 0 <= b < 9 && 0 <= k < 9 ::
      var r, c := 3 * (b / 3) + k / 3, 3 * (b % 3) + k % 3;
      0 <= r < 9 && 0 <= c < 9 && BlockIndex(r, c) == b && BlockPosition(r, c) == k
  {
    forall r, c | 0 <= r < 9 && 0 <= c < 9
      ensures Blocks(g)[BlockIndex(r, c)][BlockPosition(r, c)] == g[r][c]
    {
      CellInBlock(g, r, c);
    }
    forall b, k | 0 <= b < 9 && 0 <= k < 9
      ensures var r, c := 3 * (b / 3) + k / 3, 3 * (b % 3) + k % 3;
        0 <= r < 9 && 0 <= c < 9 && BlockIndex(r, c) == b && BlockPosition(r, c) == k
    {
      SlotOfBlock(b, k);
    }
  }

  /** A digit occurs in the block list of (r, c) exactly when it occurs in one of
      the nine cells sharing that cell's 3x3 tile. */
  lemma InBlockIff(g: Grid, r: int, c: int, d: int)
    requires IsGrid(g) && 0 <= r < 9 && 0 <= c < 9
    ensures d in Blocks(g)[BlockIndex(r, c)] <==>
      exists r', c' | 0 <= r' < 9 && 0 <= c' < 9 :: r' / 3 == r / 3 && c' / 3 == c / 3 && g[r'][c'] == d
  {
    if d in Blocks(g)[BlockIndex(r, c)] {
      InBlockWitness(g, r, c, d);
    }
    if exists r', c' | 0 <= r' < 9 && 0 <= c' < 9 :: r' / 3 == r / 3 && c' / 3 == c / 3 && g[r'][c'] == d {
      var r', c' :| 0 <= r' < 9 && 0 <= c' < 9 && r' / 3 == r / 3 && c' / 3 == c / 3 && g[r'][c'] == d;
      TileMateInBlock(g, r, c, r', c');
    }
  }

  /** A digit of the block list of (r, c) sits in a cell of that cell's tile. */
  lemma InBlockWitness(g: Grid, r: int, c: int, d: int)
    requires IsGrid(g) && 0 <= r < 9 && 0 <= c < 9
    requires d in Blocks(g)[BlockIndex(r, c)]
    ensures exists r', c' | 0 <= r' < 9 && 0 <= c' < 9 :: r' / 3 == r / 3 && c' / 3 == c / 3 && g[r'][c'] == d
  {
    var b := BlockIndex(r, c);
    var k :| 0 <= k < 9 && Blocks(g)[b][k] == d;
    SlotOfBlock(b, k);
    var r', c' := 3 * (b / 3) + k / 3, 3 * (b % 3) + k % 3;
    assert g[r'][c'] == d;
    TileRange(b / 3, r);
    TileRange(b / 3, r');
    TileRange(b % 3, c);
    TileRange(b % 3, c');
  }

  /** The value of a cell sharing the tile of (r, c) is in the block list of (r, c). */
  lemma TileMateInBlock(g: Grid, r: int, c: int, r': int, c': int)
    requires IsGrid(g) && 0 <= r < 9 && 0 <= c < 9 && 0 <= r' < 9 && 0 <= c' < 9
    requires r' / 3 == r / 3 && c' / 3 == c / 3
    ensures g[r'][c'] in Blocks(g)[BlockIndex(r, c)]
  {
    CellInBlock(g, r', c');
    assert BlockIndex(r', c') == BlockIndex(r, c);
  }

  /** Row-major reading of an 81-element sequence into 9 rows of 9. */
  function Unflatten(s: seq<int>): (g: Grid)
    requires |s| == 81
    ensures IsGrid(g)
  {
    seq(9, r requires 0 <= r < 9 => s[9 * r .. 9 * r + 9])
  }

  /** Row-major listing of a board. */
  function Flatten(g: Grid): (s: seq<int>)
    requires IsGrid(g)
    ensures |s| == 81
  {
    seq(81, k requires 0 <= k < 81 => g[k / 9][k % 9])
  }

  /** Laying out a digit string row by row and reading it back row by row is the identity,
      and element k lands at row k / 9, column k % 9. */
  lemma {:induction false} UnflattenRoundTrip(s: seq<int>)
    requires |s| == 81
    ensures Flatten(Unflatten(s)) == s
    ensures forall k | 0 <= k < 81 :: Unflatten(s)[k / 9][k % 9] == s[k]
  {
    var g := Unflatten(s);
    forall k | 0 <= k < 81
      ensures g[k / 9][k % 9] == s[k]
    {
      var r := k / 9;
      assert 9 * r <= k < 9 * r + 9;
      assert g[r] == s[9 * r .. 9 * r + 9];
    }
  }

  lemma {:induction false} FlattenRoundTrip(g: Grid)
    requires IsGrid(g)
    ensures Unflatten(Flatten(g)) == g
  {
    var s := Flatten(g);
    var u := Unflatten(s);
    forall r | 0 <= r < 9
      ensures u[r] == g[r]
    {
      forall c | 0 <= c < 9
        ensures u[r][c] == g[r][c]
      {
        assert u[r][c] == s[9 * r + c];
        assert (9 * r + c) / 9 == r && (9 * r + c) % 9 == c;
      }
    }
  }
}
