# N-Queens backtracking solvers, modelled and verified in Dafny

The repository holds two independent backtracking solvers for the N-Queens
puzzle: place n queens on an n-by-n board so that no two share a row, a
column or a diagonal.

- **`NQueens` (Actividad5.3.cpp)** is a search engine object. It keeps an
  n-by-n 0/1 `board` and three occupancy flag arrays: `cols` (size n),
  `diag1` (indexed by `row - col + n - 1`) and `diag2` (indexed by
  `row + col`), each diagonal array of size 2n-1. `SolveNQueens(row)` fills
  the board row by row. It prunes when fewer safe cells are left than queens
  still to place. It tries the safe columns of a row in decreasing order of
  a degree score, with ties going to the larger column. It places a queen,
  recurses, and removes the queen when the recursion fails. A separate
  checker (`HasValidSolution`) counts the queens and tests every pair.
- **The column solver (main.cpp)** fills a 0/1 board column by column
  (`solve_n_queens_util`). It tries rows in ascending order. `is_safe`
  looks only to the left: along the row, then along the up-left and
  down-left diagonals.

The project has five modules:

- `Geometry` (geometry.dfy) covers boards as values (`Grid`), the content of
  a two-dimensional array as a value (`Snapshot`), and what a solution of
  the puzzle is (`IsSolution`). It also proves the facts the tests rely on:
  solutions exist for 4 and 8 and none exist for 2 and 3.
- `Ranking` (ranking.dfy) defines the order `greater<pair<int,int>>` imposes
  on (degree, column) pairs. `SortDescending` stands in for `std::sort`:
  only its result (descending order, a permutation) is stated.
- `EngineSpec` (engine_spec.dfy) describes the engine's state as a value
  `State`. It defines:
  - the invariant `Consistent`: the flags mirror the board and no two queens
    share a column or a diagonal;
  - `Place` and `Remove`;
  - the completions a search from a row looks for (`IsCompletion`);
  - the safe-cell counts of the prune;
  - the degree score;
  - the whole search as a function (`Search`, `TryAll`).

  The lemmas there prove what the search computes.
- `Engine` (engine.dfy) is the class `NQueens` over an `array2<int>` and
  three `array<bool>`. Each method is proved against `EngineSpec` through
  `Model()`, the object's state read as a `State`. The module also restates
  the test suite's scenarios as verified methods.
- `ColumnSolver` (column_solver.dfy) holds `is_safe` and
  `solve_n_queens_util` on an `array2<int>` passed by reference. It also
  holds the search as a function (`ColumnSearch`, `RowsFrom`) and the lemmas
  about it.

The recursive methods (`SolveNQueens`, `TryAllPositions`, `SolveNQueensUtil`)
each state their result and the new state as the value the matching search
function returns. What that value means is proved once, by the mutually
inductive lemmas `SearchCorrect`/`TryAllCorrect`, `ColumnSearchCorrect`/
`RowsFromCorrect` and `ColumnSearchFrame`/`RowsFromFrame`:

- on success the board holds a non-attacking completion and nothing else
  has changed;
- on failure the state is exactly what it was and no completion exists;
- the column solver never touches the columns left of `col`, on failure
  gives back any board it was handed unchanged, and keeps a 0/1
  board 0/1.

Notes on the source:

- `IsSafe` (Actividad5.3.cpp:25-27) does not look at rows. After
  `PlaceQueen(0, 1)` on a 4-by-4 engine it reports (0, 0) safe, although
  the test at Actividad5.3.cpp:292 expects `false` there.
  `Engine.IsSafeScenario` proves the value the code computes. The search
  itself never reuses a row, so this does not affect it.
- `GetValidPositions` (Actividad5.3.cpp:72) sorts with
  `greater<pair<int,int>>`. Among columns of equal degree the larger column
  therefore comes first. The model follows the code; a column-ascending
  tie-break is not what the code does.
- Both searches are functions of their input state, so two runs from the
  same state give the same answer and the same board.

## Model

| member | source | states |
|---|---|---|
| Engine.NQueens.constructor | Actividad5.3.cpp:18-23 | the new engine has an n-by-n board of zeros and `cols`, `diag1`, `diag2` of sizes n, 2n-1, 2n-1 with every flag false (`Model() == Fresh(size)`) |
| EngineSpec.FreshConsistent | Actividad5.3.cpp:18-23 | a fresh engine satisfies the invariant: the flags mirror the (empty) board |
| Engine.NQueens.IsSafe | Actividad5.3.cpp:25-27 | the result is the flag test on `cols[col]`, `diag1[row-col+n-1]`, `diag2[row+col]` (all indices in range), and on a consistent state it is true exactly when no queen shares the column or a diagonal of (row, col) |
| EngineSpec.SafeMeansUnthreatened | Actividad5.3.cpp:25-27 | when the flags mirror the board, the flag test holds iff no queen stands on the column or either diagonal of the cell |
| Engine.IsSafeScenario | Actividad5.3.cpp:286-297 | on a fresh 4-by-4 engine (0,0) and (0,1) are safe; after a queen on (0,1), (1,1) and (1,2) are unsafe and (0,0), which shares only the row, is reported safe |
| Engine.NQueens.IsValidPosition | Actividad5.3.cpp:58-60 | a position that passes the bounds test indexes `board`, and through row-col+n-1 and row+col also `diag1` and `diag2`, in range, so the flag test of `IsSafe` may follow it; `CountInDirection` states its walk through this test |
| Engine.IsValidPositionScenario | Actividad5.3.cpp:275-284 | on a 4-by-4 engine (0,0) and (3,3) are on the board and (-1,0), (0,-1), (4,0), (0,4) are not |
| Engine.NQueens.CountInDirection | Actividad5.3.cpp:44-56 | every one of the first `count` steps from (row, col) in the direction stays on the board and the next one leaves it; from a cell on the board, `count` is the smaller of the two distances to the edge in that direction |
| Engine.NQueens.CountDiagonalPositions | Actividad5.3.cpp:37-42 | for a cell on the board, the two directions together count the other cells of the diagonal: n-1-\|row-col\| for the descending one, n-1-\|row+col-(n-1)\| for the ascending one |
| Engine.NQueens.CalculateDegrees | Actividad5.3.cpp:29-35 | the degree is at least 2(n-1), and for a cell on the board equals `Degree`: 2(n-1) plus the other cells of both diagonals; it reads and changes no occupancy state |
| Engine.DegreeScenario | Actividad5.3.cpp:327-332 | the corner of a 4-by-4 board has degree 9, which is positive |
| EngineSpec.ScoredRow | Actividad5.3.cpp:65-70 | the pairs collected for a row are exactly (Degree, c) for the safe columns c, each once |
| Ranking.Insert | Actividad5.3.cpp:72 | inserting into a descending sequence keeps it descending, adds exactly one element (multiset) and keeps distinct elements distinct |
| Ranking.SortDescending | Actividad5.3.cpp:72 | the sorted pairs are in descending `greater<pair>` order, a permutation of the input (multiset equality) with the same members, and distinct if the input was |
| EngineSpec.Candidates | Actividad5.3.cpp:62-74 | the candidate columns of a row are exactly its safe columns, each once, in strictly decreasing (degree, column) order |
| Engine.NQueens.GetValidPositions | Actividad5.3.cpp:62-74 | returns `Candidates` of the current state: each safe column once, no other column, ordered by decreasing (degree, column) so ties go to the larger column |
| Engine.NQueens.ExtractColumns | Actividad5.3.cpp:76-82 | the result has one entry per pair, the pair's column, in the same order |
| Engine.NQueens.CountValidInRow | Actividad5.3.cpp:92-100 | the count is the number of safe columns of the row |
| Engine.NQueens.CountValidPositions | Actividad5.3.cpp:84-90 | the count is the number of safe cells in rows startRow..n-1, at most (n-startRow)·n |
| EngineSpec.SafeFromBound | Actividad5.3.cpp:84-90 | rows from..n-1 hold at most (n-from)·n safe cells |
| Engine.CountScenario | Actividad5.3.cpp:334-339 | on a fresh engine of any size every cell is safe, so the count from row 0 is n·n, which is positive |
| EngineSpec.FreshAllSafe | Actividad5.3.cpp:334-339 | every cell of a fresh engine is safe and the safe cells number n·n |
| Engine.NQueens.HasSufficientPositions | Actividad5.3.cpp:116-118 | true iff the safe cells left number at least n-row; on a consistent state a false answer means no completion exists |
| EngineSpec.PruneSound | Actividad5.3.cpp:116-127 | whenever rows row..n-1 can be completed, at least n-row safe cells are left, so the prune never cuts a completable branch |
| Engine.NQueens.PlaceQueen | Actividad5.3.cpp:102-107 | the new state is `Place`: board[row][col] = 1 and the three flags of the cell set, nothing else changed |
| Engine.NQueens.RemoveQueen | Actividad5.3.cpp:109-114 | the new state is `Remove`: board[row][col] = 0 and the three flags of the cell cleared, nothing else changed |
| EngineSpec.PlaceKeepsConsistent | Actividad5.3.cpp:102-107 | placing on a safe cell of a consistent state keeps the flags mirroring the board and the queens apart |
| EngineSpec.RemoveKeepsConsistent | Actividad5.3.cpp:109-114 | removing a queen of a consistent state keeps the flags mirroring the board |
| EngineSpec.RemoveUndoesPlace | Actividad5.3.cpp:102-114 | on a safe cell of a consistent state, remove after place gives back exactly the same board and flags |
| Engine.PlaceRemoveScenario | Actividad5.3.cpp:299-309 | after placing on (0,1) the cell holds 1, after removing it holds 0 |
| EngineSpec.ThreatenedAfterPlace | Actividad5.3.cpp:102-107 | after a queen on (row, col), a cell is threatened iff it was before or it shares the column or a diagonal with (row, col) |
| EngineSpec.CompletionHead | Actividad5.3.cpp:133-144 | the first queen of a completion stands on a safe cell, and the rest completes the state after placing it |
| EngineSpec.CompletionCons | Actividad5.3.cpp:133-144 | a safe queen followed by a completion of the state after placing it is a completion, and placing them all is the same as placing it first |
| EngineSpec.PlaceAllCells | Actividad5.3.cpp:133-144 | placing a completion puts a 1 on (row+k, q[k]) for each k and leaves every other cell as it was |
| EngineSpec.PlaceAllConsistent | Actividad5.3.cpp:120-144 | placing a completion on a consistent state leaves the flags mirroring the board |
| EngineSpec.Search | Actividad5.3.cpp:120-131 | the search as a function (done at row n, pruned when too few safe cells, otherwise TryAll over the candidates) returns a state of the same shape |
| EngineSpec.TryAll | Actividad5.3.cpp:133-144 | place, search the next row, on failure remove and go on with the next candidate; the state returned has the same shape |
| EngineSpec.SearchCorrect | Actividad5.3.cpp:120-131 | from a consistent state: on success the answer is a completion (each of rows row..n-1 gets one queen sharing no column or diagonal with a queen already on the board, and no two of them sharing a column or a diagonal) and the state is the old one with exactly those queens placed; on failure the state is unchanged and no completion exists |
| EngineSpec.TryAllCorrect | Actividad5.3.cpp:133-144 | over safe candidate columns: on success a completion is placed and nothing else changed; on failure the state is unchanged and no completion starts in any of the candidates |
| EngineSpec.TryAllMiss | Actividad5.3.cpp:135-141 | when the search after placing on a candidate fails, removing it restores the state exactly, and no completion starts in that column |
| Engine.NQueens.SolveNQueens | Actividad5.3.cpp:120-131 | the answer and the new state are those of `Search` on the old state; from a consistent state the state stays consistent, success places a completion of rows row..n-1 and nothing else, failure leaves board and flags unchanged and means no completion exists |
| Engine.NQueens.TryAllPositions | Actividad5.3.cpp:133-144 | the answer and the new state are those of `TryAll` on the old state and the given columns |
| Engine.NQueens.TryColumn | Actividad5.3.cpp:135-141 | the body of the candidate loop for one column: the answer is that of `Search` from the state with the queen placed; on success the new state and completion are that search's, on failure the state is that search's with the queen removed again |
| Engine.NQueens.HasValidSolution | Actividad5.3.cpp:182-209 | true iff the board holds exactly n ones and no queen shares a row, a column or a diagonal with another |
| Engine.NQueens.IsQueenSafe | Actividad5.3.cpp:211-228 | true iff no other queen shares the row, the column or a diagonal of (row, col) |
| Engine.NQueens.CheckDiagonals | Actividad5.3.cpp:230-250 | true iff no queen off the row and column of (row, col) lies on either diagonal through it |
| EngineSpec.RowBoardCount | Actividad5.3.cpp:184-191 | a board with exactly one 1 per row holds as many queens as rows |
| EngineSpec.EmptyBoardCount | Actividad5.3.cpp:184-191 | a board of zeros holds no queen |
| EngineSpec.SolutionBoardPasses | Actividad5.3.cpp:182-209 | the board of a solution holds n queens, none attacking another |
| EngineSpec.FreshCompletions | Actividad5.3.cpp:311-325 | from a fresh engine, the completions of row 0 are exactly the solutions of the puzzle |
| EngineSpec.FreshSearch | Actividad5.3.cpp:311-325 | the search from a fresh engine succeeds iff a solution exists, and then leaves n queens none of which attacks another; on failure the board holds no queen |
| Engine.SolveFresh | Actividad5.3.cpp:311-325 | a fresh engine's `SolveNQueens(0)` succeeds iff the puzzle has a solution, and `HasValidSolution` then agrees with it |
| Engine.SolveFourAndEight | Actividad5.3.cpp:311-325 | for n = 4 and n = 8 the search succeeds and the checker accepts the board |
| Engine.SolveTwoAndThree | Actividad5.3.cpp:120-144 | for n = 2 and n = 3 the search fails |
| Geometry.SolutionForFour | Actividad5.3.cpp:311-317 | [1, 3, 0, 2] solves the puzzle for n = 4 |
| Geometry.SolutionForEight | Actividad5.3.cpp:319-325 | [0, 4, 7, 5, 2, 6, 1, 3] solves the puzzle for n = 8 |
| Geometry.NoSolutionForTwo | main.cpp:43-52 | no placement of 2 queens on a 2-by-2 board is non-attacking |
| Geometry.NoSolutionForThree | main.cpp:43-52 | no placement of 3 queens on a 3-by-3 board is non-attacking |
| ColumnSolver.RowScanMeans | main.cpp:15-19 | the row scan passes iff no cell of the row left of col is occupied |
| ColumnSolver.UpLeftScanMeans | main.cpp:22-26 | the up-left scan passes iff every occupied cell on that diagonal lies below the start |
| ColumnSolver.DownLeftScanMeans | main.cpp:29-33 | the down-left scan passes iff every occupied cell on that diagonal lies above the start |
| ColumnSolver.SafeTestMeans | main.cpp:13-36 | the three scans together pass iff no occupied cell in columns up to col shares the row or a diagonal with (row, col) |
| ColumnSolver.IsSafe | main.cpp:13-36 | the answer is the three scans' result, i.e. no occupied cell in columns up to col shares the row or a diagonal; the board is only read |
| ColumnSolver.LeftClearIffUnattacked | main.cpp:13-36 | when every column from col on is empty, the left-only check passes exactly on the cells no queen attacks |
| ColumnSolver.PlaceOnEmptyColumn | main.cpp:45-49 | writing 1 into an empty column keeps the columns after it empty, and writing 0 back restores the board |
| ColumnSolver.WriteCell | main.cpp:45 | the board after the assignment is the old board with that one cell changed |
| ColumnSolver.ColumnCompletionHead | main.cpp:43-52 | the first queen of a column completion is unattacked and the rest completes the board holding it |
| ColumnSolver.ColumnCompletionCons | main.cpp:43-52 | an unattacked queen followed by a completion of the board holding it is a completion |
| ColumnSolver.PlaceColumnsCells | main.cpp:43-52 | placing a column completion writes 1 on (q[k], col+k) for each k and leaves every other cell alone |
| ColumnSolver.ColumnSearch | main.cpp:38-41 | the search as a function (done once col reaches n, otherwise the rows of column col from 0) returns an n-by-n board |
| ColumnSolver.RowsFrom | main.cpp:43-52 | the row loop as a function (on a row the check accepts, write 1, search on, on failure write 0 back) returns an n-by-n board |
| ColumnSolver.ColumnSearchCorrect | main.cpp:38-53 | with columns col.. empty (the state every call from column 0 of an empty board is in): for col ≥ n it succeeds without touching the board; on success each column col..n-1 holds exactly one queen, on a row no other queen attacks, and nothing else changed; on failure the board is unchanged and no completion exists |
| ColumnSolver.RowsFromCorrect | main.cpp:43-52 | the row loop from row i: on success as above, on failure the board is unchanged and no completion puts the queen of column col on row i or a later row |
| ColumnSolver.RowExcluded | main.cpp:44-50 | a row the check rejects, or whose queen cannot be completed, heads no completion |
| ColumnSolver.ColumnSearchFrame | main.cpp:38-53 | on any board the search leaves every column left of col as it was, a 0/1 board stays 0/1, and on failure the board is given back exactly as it was |
| ColumnSolver.RowsFromFrame | main.cpp:43-52 | on any board the row loop leaves every column left of col as it was, a 0/1 board stays 0/1, and on failure the board is given back exactly as it was: each 1 written at line 45 lands on a cell the up-left scan saw empty, and line 49 writes the 0 back |
| ColumnSolver.SolveNQueensUtil | main.cpp:38-53 | the answer and the new board are those of `ColumnSearch` on the old board |
| ColumnSolver.EmptyBoardCompletions | main.cpp:59-61 | from the board of zeros, the completions of column 0 are exactly the solutions of the puzzle |
| ColumnSolver.SolveBoard | main.cpp:59-61 | from an n-by-n board of zeros the search succeeds iff a solution exists; the board then holds a 1 on row q[j] of each column j and 0 elsewhere for a solution q, and after a failure it is still all zeros |
| ColumnSolver.SolveTwoAndThree | main.cpp:43-52 | for n = 2 and n = 3 the search fails |
| ColumnSolver.SolveFourAndEight | main.cpp:38-53 | for n = 4 and n = 8 the search succeeds |

## Left out

- Console output is not modelled: `Solve`'s print branches, `PrintSolution`, `PrintRow` and `PrintNoSolution` (Actividad5.3.cpp:146-175), and the board-printing loop of main.cpp:62-74. They only present the board.
- Both `main` functions, which read n from standard input (Actividad5.3.cpp:357-375, main.cpp:55-78), are not modelled. The board setup of main.cpp:59-61 is modelled by `ColumnSolver.SolveBoard`, with n as a parameter.
- `is_valid_input` (Actividad5.3.cpp:253-257) is the caller's {4, 8} input policy and is not modelled. The solvers are modelled for every n ≥ 1 (the engine) and every n ≥ 0 (the column solver).
- `GetBoard` (Actividad5.3.cpp:178-180) is a copy accessor. The scenarios read the board array directly.
- The test harness (`run_all_tests`, the `test_*` functions, `#ifdef TESTING`, Actividad5.3.cpp:259-355) is not modelled as such. Its assertions are the scenario methods in `Engine`. The `is_valid_input` tests are left out with that function.
- `std::sort` is modelled by an insertion sort (`Ranking.SortDescending`). Only its result is stated: descending order and a permutation. Columns are distinct, so that result is unique.
- Engine.NQueens.constructor: requires size ≥ 1. For n = 0 the C++ code sizes the diagonal arrays with 2n-1 = -1, which is not a meaningful state.
- Engine.NQueens.CountInDirection: requires steps of 1 or -1, the only ones its callers pass. Other steps are not modelled; among them (0, 0) from a cell on the board makes the C++ loop run forever, while steps such as (0, 1) end at the edge.
- Engine.NQueens.CalculateDegrees: for a cell off the board only the lower bound 2(n-1) is stated. The source only calls it on board cells.
- Engine.NQueens.SolveNQueens: its semantic guarantees are conditional on the flags mirroring the board on entry (`Consistent`). `PlaceQueen` on an unsafe or occupied cell, and `RemoveQueen` on an empty one, can break that invariant, so it is not a class invariant.
- C++ `int` overflow is not modelled: integers are unbounded. Every count here is at most n·n.
- The recursive methods return the completion they found as a ghost out-parameter. The source does not return it; it exists only to state the result.
