# SS.js Sudoku solver, modelled in Dafny

SS.js solves a 9×9 Sudoku by constraint propagation alone. It loads an 81-digit puzzle
string (0 for an empty cell) into a row-major board. It then repeats a *pass* until no
empty cell is left or the candidate maps stop changing. A pass does the following:

1. It rebuilds the column and block views of the board.
2. It builds the candidate map: every empty cell, keyed by its row and column, with the
   ascending digits 1..9 that are missing from its row, column and 3×3 block.
3. It fills every cell that has exactly one candidate (a *naked single*).
4. It runs three *hidden-single sweeps*, over blocks, then rows, then columns. In each
   unit, a digit that is a candidate of only one cell is written into that cell.
   A candidate rebuild comes between sweeps and after the last one.

A stagnation test compares the last two candidate maps and counts consecutive equal
results. The driver stops as stalled when that count reaches 3.

The model follows the program's structure:

- `grids.dfy` (module `Grids`): the board as a value, its transpose, and its block view.
  It gives the nine-way block index of the source and the row-major layout of the input
  string. It also defines `Extends` (a board that only fills empty cells of another) and
  the set of empty cells.
- `options.dfy` (module `Options`): candidate lists and the candidate map as functions
  of a board (`Candidates`, `OptsOf`), and the naked-single fill (`Fill`).
- `hidden_singles.dfy` (module `HiddenSingles`): what a hidden-single sweep does to each
  cell (`LastHidden`, `SweptValue`, `Swept`). It also covers the per-unit digit tally the
  sweeps build, and the loop that appends a cell to the tally (`AddHolder`).
- `stagnation.dfy` (module `Stagnation`): the list and map comparisons and the counter
  of equal comparisons.
- `passes.dfy` (module `Passes`): one whole pass as a function of the board (`Pass`),
  and what a pass preserves, fills and compares.
- `soundness.dfy` (module `Soundness`): soundness against a solution. A *solution* is a
  completed board holding each digit 1..9 once in every row, column and block. If a board
  agrees with a solution on every filled cell, then every digit a pass writes is that
  solution's digit. A pass that empties the map has produced that solution.
- `solver.dfy` (module `SudokuSolver`): the program's global state as the class
  `Solver`. Its fields are `board` (a 9×9 array; the row view `R` is this same array),
  `C`, `B`, `opts`, `prevOpts` and `loopCount`. Each source function is a method with
  the same loops, proved against the functions above.

Map keys are `(row, column)` pairs rather than two-character strings. A loop over the
keys of a candidate map picks keys in any order (`var x :| x in todo`), so the proofs
hold whatever order the keys are enumerated in. A loop over a tally's digit keys tries
1..9 in ascending order, which is the order in which JavaScript enumerates integer keys.
When two digits are hidden singles of the same cell, the later write wins; this can only
happen on a contradictory board.

What the stagnation test compares: the comment at SS.js:128 speaks of the previous set
of options. But `generateOpts` runs four times per pass, and each run moves the current
map into `prevOpts` (SS.js:159). So when the driver calls `isEqual`, it compares the
map from the rebuild at SS.js:315 with the map from the rebuild at SS.js:287 of the same
pass. The model follows the code. `Pass(g).prevOpts` is the map of the board as the row
sweep leaves it, built before the rebuild at SS.js:287 fills that map's naked singles.
The column sweep then starts from the filled board. `Pass(g).opts` is the map of the board
after the column sweep, built before the final naked fill.

## Model

| member | source | states |
|---|---|---|
| SudokuSolver.Solver.constructor | SS.js:32-38 | the globals start with empty views, empty candidate maps and the counter at 0, the start value the stagnation counter's run count assumes; the board starts as 81 zeros where the source starts with an empty list, which makes no difference because `PopulateSudoku` writes every row |
| SudokuSolver.Solver.PopulateSudoku | SS.js:41-52 | digit k of the puzzle string lands at row k / 9, column k % 9; the board is the row-major layout of the 81 digits |
| Grids.UnflattenRoundTrip | SS.js:41-52 | reading the laid-out board back row by row gives the digit string again, and element k is at row k / 9, column k % 9 |
| Grids.FlattenRoundTrip | SS.js:41-52 | laying out the row-major listing of a board gives that board back, so the layout is a bijection between 81-digit strings and boards |
| SudokuSolver.Solver.GenerateC | SS.js:58-68 | the column view becomes the transpose of the board (C[x][y] is board[y, x]); the board is not changed |
| Grids.TransposeInvolution | SS.js:58-68 | transposing the column view gives the board back, so the column view loses nothing |
| SudokuSolver.Solver.BlockRow | SS.js:85-89 | the nine values read from the tile at corner (addI, addJ), row by row, are block b of the board |
| SudokuSolver.Solver.GenerateB | SS.js:70-103 | walking the tile corners (addI, addJ) row by row, with the exit value 10, builds exactly the nine blocks in order |
| Grids.BlockSlot | SS.js:85-89 | slot 3i + j of block b is cell (3·(b div 3) + i, 3·(b mod 3) + j), the cell at row i, column j of that block's tile |
| Grids.BlockLayout | SS.js:70-103 | every cell appears in its block at its slot, and every slot of every block is one cell whose block and slot lead back to it |
| Grids.BlockIndex | SS.js:171-179 | the nine range tests give block (r div 3)·3 + (c div 3), a number 0..8 whose tile's rows and columns contain (r, c) |
| Grids.InBlockIff | SS.js:171-181 | a digit is in the block list chosen by the nine-way index exactly when some cell of the same 3×3 tile holds it |
| SudokuSolver.Solver.GenerateCheckArrays | SS.js:106-110 | both derived views are rebuilt from the current board |
| SudokuSolver.IsArrEqual | SS.js:113-126 | the result is true exactly when the lengths match and every element of the first list occurs in the second |
| Stagnation.SameElementsIsSetEquality | SS.js:113-126 | for lists without repetitions, the list comparison is set equality, in both directions |
| SudokuSolver.Solver.IsEqual | SS.js:129-154 | false when prevOpts is empty; otherwise true exactly when every previous key is a current key with the same elements; the counter goes up by one exactly when the result is true |
| Stagnation.MapsEqualIsSetEquality | SS.js:129-154 | when the current keys are among the previous keys and the lists are repetition-free, the map comparison holds exactly when the maps are non-empty with the same keys and the same candidate set per key |
| Stagnation.MapsEqualSelf | SS.js:131-146 | a map compares equal to itself exactly when it is not empty |
| SudokuSolver.Solver.CollectEmptyCells | SS.js:160-167 | the keys of the new map are exactly the empty cells of the board, each with an empty list |
| SudokuSolver.Solver.CellOptions | SS.js:171-184 | the list of a cell is its candidate list: the ascending digits 1..9 missing from its row, its column view and its block view |
| SudokuSolver.Solver.ListCandidates | SS.js:169-185 | after every key, taken in any order, gets its list, the map is the candidate map of the board |
| SudokuSolver.Solver.WriteNakedSingles | SS.js:188-192 | exactly the cells whose list has one digit get that digit; every other cell keeps its value |
| SudokuSolver.Solver.GenerateOpts | SS.js:157-196 | prevOpts takes the old map; the views are those of the board on entry; the new map is the candidate map of the board on entry; the board becomes the naked-single fill of that map |
| Options.CandidatesSpec | SS.js:180-184 | a candidate list is strictly ascending and holds exactly the digits 1..9 absent from the cell's row, column and block views |
| Options.CandidateIff | SS.js:171-184 | d is a candidate of (r, c) exactly when d is in 1..9 and no cell of row r, of column c, or of the 3×3 tile of (r, c) holds d |
| Options.OptsOfSpec | SS.js:157-185 | the candidate map's keys are exactly the empty cells, every list is strictly ascending digits 1..9, and no candidate occurs in its cell's row, column or 3×3 tile |
| Options.OptsOfIs | SS.js:160-185 | a map keyed by exactly the empty cells, each with its candidate list, is the candidate map |
| Options.FillSpec | SS.js:187-192 | the naked fill never changes a filled cell; a cell it changes was empty and gets its only candidate, a digit 1..9 |
| HiddenSingles.LastHiddenSpec | SS.js:234-240 | trying digits 1..n in ascending order leaves in a cell the largest digit held by that cell alone in its unit, or nothing when there is none |
| HiddenSingles.SweptValueSpec | SS.js:215-312 | a sweep writes into a cell exactly when some digit is a candidate of that cell alone in its unit; the cell then gets the largest such digit, one of its own candidates |
| HiddenSingles.SweptKeepsSettled | SS.js:215-312 | a cell that is not a key, or whose only candidate was filled in, keeps its value in a sweep |
| HiddenSingles.SweepOfFullMap | SS.js:215-312 | when every cell lists every digit, no digit has a single holder and a sweep changes nothing |
| HiddenSingles.UnitMembership | SS.js:220-221 | the cells of unit i are exactly the cells whose unit index is i |
| HiddenSingles.AddHolder | SS.js:223-229 | appending cell p under each of its candidate digits adds p once to the list of every digit it lists, starts a list for a new digit, and changes no other digit's list |
| HiddenSingles.PushAllAt | SS.js:223-229 | for a repetition-free digit list, each listed digit gains the cell once and no other digit changes |
| HiddenSingles.TallyStep | SS.js:222-229 | adding the candidates of one more key keeps the tally exact: for each digit, the key is present exactly when some cell of the unit so far lists it, and its list holds exactly those cells, each once |
| HiddenSingles.TryDigit | SS.js:234-240 | trying digit d writes it into a cell exactly when the tally lists that cell alone under d |
| SudokuSolver.Solver.TallyBlock | SS.js:219-232 | the tally of a tile, visited row by row, lists for every digit exactly the keys of that tile holding it, each once and no other cell |
| SudokuSolver.Solver.WriteSingles | SS.js:234-240 | the cells of the unit end as the sweep leaves them; every cell outside the unit is unchanged |
| SudokuSolver.Solver.SweepBlock | SS.js:219-240 | one tile's sweep: its cells end as the block sweep leaves them, and every other cell is unchanged |
| SudokuSolver.Solver.SweepBlocks | SS.js:215-252 | the board after the nine tiles, walked by their corners (blkX, blkY), is the block sweep of the board before |
| SudokuSolver.Solver.TallyLine | SS.js:263-274 | the tally of row (column) i, taking every key of the map in any order, lists for every digit exactly the keys of that line holding it, each once and no other cell |
| SudokuSolver.Solver.SweepLines | SS.js:261-312 | the board after lines 0..8 is the row (column) sweep of the board before |
| SudokuSolver.Solver.SolveSudoku | SS.js:199-316 | the board, the map and the previous map after the call are those of one pass of the board on entry; the views are those of the board after the column sweep; the counter is unchanged |
| Passes.StepSpec | SS.js:199-316 | a rebuild plus sweep keeps the board a board of digits, never changes a filled cell, keeps every naked single, and writes into an empty cell only one of its candidates |
| Passes.StepExtends | SS.js:199-316 | a rebuild plus sweep only fills empty cells, with digits 1..9 |
| Passes.PassKeepsFilled | SS.js:199-316 | a pass keeps a board of digits and never changes a filled cell |
| Passes.PassComparison | SS.js:287-315 | the map the driver compares has no key the previous one lacks, so the stagnation test of a pass is equality of the two maps as sets of candidates per cell |
| Passes.ComparisonAfter | SS.js:129-154 | between a board and one that extends it, the later map has no new key and the comparison is map equality |
| Passes.SolvedMeansFull | SS.js:343-344 | when a pass ends with an empty map, no cell of the board is empty |
| Passes.PassFixedSteps | SS.js:199-316 | a pass that changes no cell changes none in any of its three steps |
| Passes.PassFixedPoint | SS.js:343-355 | after a pass that changes no cell, the stagnation test holds exactly when the map is not empty |
| Passes.PassProgress | SS.js:335-356 | a pass never adds an empty cell, and one that changes the board strictly lowers the number of empty cells |
| Passes.AllEmptyCandidates | SS.js:180-184 | on a board with no digit every cell has all nine digits as candidates |
| Passes.AllEmptyPass | SS.js:199-316 | a pass leaves a board with no digit unchanged |
| Passes.AllEmptyStalls | SS.js:343-355 | on a board with no digit the map stays non-empty and the stagnation test holds, so the driver stalls |
| Soundness.SolutionCandidate | SS.js:168-185 | the solution digit of an empty cell is one of its candidates, when the board agrees with the solution |
| Soundness.CandidateNotPlaced | SS.js:180-184 | a candidate of a cell is placed in no cell of the same row, column or block |
| Soundness.FillAgrees | SS.js:187-192 | the naked fill writes into each cell only that cell's solution digit |
| Soundness.HiddenSingleAgrees | SS.js:234-240 | a digit that only one cell of a unit lists is that cell's solution digit |
| Soundness.SweptAgrees | SS.js:215-312 | a sweep leaves each cell either empty or holding its solution digit, when it did so before |
| Soundness.StepAgrees | SS.js:199-316 | a rebuild plus sweep keeps the board agreeing with every solution it agreed with |
| Soundness.PassSound | SS.js:199-316 | a pass writes only digits of every solution that agrees with the givens: the result still agrees with that solution |
| Soundness.SolvedIsSolution | SS.js:343-344 | when a pass ends with an empty map, its board is the solution the puzzle agreed with |
| Soundness.RunSound | SS.js:338-356 | after any number of passes the board still agrees with every solution of the puzzle |
| Stagnation.CountIsTrailingRun | SS.js:343-355 | the counter after a run of comparisons is the length of the trailing run of equal ones |
| Stagnation.StopAfterThree | SS.js:345-348 | the counter first reaches 3 exactly when the last three comparisons were equal, so the stall reported at pass - 2 names the first of those passes |
| SudokuSolver.Solver.Decide | SS.js:343-355 | with an empty map the run ends as solved and the counter is unchanged; otherwise the counter is bumped on an equal test and reset to 0 on an unequal one, the run stalls naming pass - 2 when it reaches 3, and otherwise it continues with pass + 1 |

## Left out

- Reading the puzzle from the command line (SS.js:31) and the input checks (SS.js:322-327).
  `PopulateSudoku` requires 81 decimal digit characters instead. This is slightly
  narrower than the source: its `isNaN` check also lets whitespace through, which
  `Number` turns into 0.
- All console output: the pass banners, the board dumps and the final messages
  (SS.js:331-339, 357-360). Only the pass number of a stall (`pass - 2`) is kept, as
  `Outcome.Stalled`.
- JavaScript string keys and their coercion (`x[0] >= 0`, `key[0] == row`). Keys are
  `(row, column)` pairs.
- The example puzzles and their pass counts (SS.js:363-372). Checking them would mean
  running the whole solver inside the verifier.
- The `while(!end)` driver loop itself (SS.js:338-356). The source sets no bound on the
  number of passes. The model gives the pass (`SolveSudoku`, `Pass`) and the decision
  that ends each iteration (`Decide`). `PassProgress` and `PassFixedPoint` give the
  termination argument: each pass either fills a cell, or makes the stagnation test hold
  or the map empty.
- That a completed board is valid for a puzzle with no solution. All naked singles are
  filled at once, and a sweep can write a digit that another cell of the same unit also
  receives, so a contradictory puzzle can end full but invalid. For a puzzle that has a
  solution, `PassSound`, `SolvedIsSolution` and `RunSound` show that every write is that
  solution's digit and that a solved board is that solution.
