/**
 * The column-by-column solver of main.cpp: a backtracking search that
 * fills one column at a time of a board passed by reference, trying rows
 * in ascending order, with a safety test that looks only at the columns
 * to the left.
 */
module ColumnSolver {
  import opened Geometry

  /** The cell (i, j) of g exists and is non-zero. */
  predicate Occupied(g: Grid, i: int, j: int) {
    0 <= i < |g| && 0 <= j < |g[i]| && g[i][j] != 0
  }

  /**
   * What the safety test inspects: no occupied cell in a column up to and
   * including col lies on the row of (row, col), or on either diagonal
   * through it.
   */
  ghost predicate LeftClear(g: Grid, row: int, col: int) {
    forall i, j :: Occupied(g, i, j) && j <= col ==> i != row && i - j != row - col && i + j != row + col
  }

  /** No occupied cell anywhere shares a row, a column or a diagonal with (row, col). */
  ghost predicate Unattacked(g: Grid, row: int, col: int) {
    forall i, j :: Occupied(g, i, j) ==> !SharesLine(i, j, row, col)
  }

  /** Every column from col on is empty. */
  ghost predicate EmptyFrom(g: Grid, col: int) {
    forall i, j :: Occupied(g, i, j) ==> j < col
  }

  /** No cell of row `row` in columns k..col-1 is occupied: the first loop of the safety test. */
  function RowScan(g: Grid, row: int, k: int, col: int): bool
    requires 0 <= row < |g| && 0 <= k && col <= |g[row]|
    decreases col - k
  {
    if k >= col then true else g[row][k] == 0 && RowScan(g, row, k + 1, col)
  }

  /** No cell of (i, j), (i - 1, j - 1), ... is occupied while both stay at least 0: the second loop. */
  function UpLeftScan(g: Grid, i: int, j: int): bool
    requires IsSquare(g, |g|) && i < |g| && j < |g|
    decreases i + 1
  {
    if i < 0 || j < 0 then true else g[i][j] == 0 && UpLeftScan(g, i - 1, j - 1)
  }

  /** No cell of (i, j), (i + 1, j - 1), ... is occupied while i stays below n and j at least 0: the third loop. */
  function DownLeftScan(g: Grid, n: int, i: int, j: int): bool
    requires IsSquare(g, n) && 0 <= i && j < n
    decreases n - i
  {
    if j < 0 || i >= n then true else g[i][j] == 0 && DownLeftScan(g, n, i + 1, j - 1)
  }

  /** `is_safe` as a function: the three scans. */
  function SafeTest(g: Grid, n: int, row: int, col: int): bool
    requires IsSquare(g, n) && 0 <= row < n && 0 <= col < n
  {
    RowScan(g, row, 0, col) && UpLeftScan(g, row, col) && DownLeftScan(g, n, row, col)
  }

  lemma {:induction false} RowScanMeans(g: Grid, row: int, k: int, col: int)
    requires 0 <= row < |g| && 0 <= k && col <= |g[row]|
    ensures RowScan(g, row, k, col) <==> forall j :: k <= j < col ==> !Occupied(g, row, j)
    decreases col - k
  {
    if k < col {
      RowScanMeans(g, row, k + 1, col);
      assert Occupied(g, row, k) <==> g[row][k] != 0;
    }
  }

  lemma {:induction false} UpLeftScanMeans(g: Grid, i: int, j: int)
    requires IsSquare(g, |g|) && i < |g| && j < |g|
    ensures UpLeftScan(g, i, j) <==> forall a, b :: Occupied(g, a, b) && a - b == i - j ==> a > i
    decreases i + 1
  {
    if i >= 0 && j >= 0 {
      UpLeftScanMeans(g, i - 1, j - 1);
      assert Occupied(g, i, j) <==> g[i][j] != 0;
    }
  }

  lemma {:induction false} DownLeftScanMeans(g: Grid, n: int, i: int, j: int)
    requires IsSquare(g, n) && 0 <= i && j < n
    ensures DownLeftScan(g, n, i, j) <==> forall a, b :: Occupied(g, a, b) && a + b == i + j ==> a < i
    decreases n - i
  {
    if j >= 0 && i < n {
      DownLeftScanMeans(g, n, i + 1, j - 1);
      assert Occupied(g, i, j) <==> g[i][j] != 0;
    }
  }

  /**
   * What the three scans check: no occupied cell in a column up to col
   * shares the row (left of col) or a diagonal with (row, col).
   */
  lemma SafeTestMeans(g: Grid, n: int, row: int, col: int)
    requires IsSquare(g, n) && 0 <= row < n && 0 <= col < n
    ensures SafeTest(g, n, row, col) <==> LeftClear(g, row, col)
  {
    RowScanMeans(g, row, 0, col);
    UpLeftScanMeans(g, row, col);
    DownLeftScanMeans(g, n, row, col);
  }

  /**
   * The safety test: the row to the left of (row, col), then the diagonal
   * up and to the left, then the diagonal down and to the left, both
   * starting at (row, col) itself. The board is only read.
   */
  method IsSafe(board: array2<int>, row: int, col: int, n: int) returns (safe: bool)
    requires board.Length0 == n && board.Length1 == n
    requires 0 <= row < n && 0 <= col < n
    ensures safe == SafeTest(Snapshot(board), n, row, col)
    ensures safe <==> LeftClear(Snapshot(board), row, col)
  {
    ghost var g := Snapshot(board);
    SafeTestMeans(g, n, row, col);
    for i := 0 to col
      invariant RowScan(g, row, 0, col) == RowScan(g, row, i, col)
    {
      if board[row, i] != 0 {
        return false;
      }
    }
    var i, j := row, col;
    while i >= 0 && j >= 0
      invariant i - j == row - col && i <= row && j <= col
      invariant UpLeftScan(g, row, col) == UpLeftScan(g, i, j)
      decreases i
    {
      if board[i, j] != 0 {
        return false;
      }
      i, j := i - 1, j - 1;
    }
    i, j := row, col;
    while j >= 0 && i < n
      invariant i + j == row + col && row <= i && j <= col
      invariant DownLeftScan(g, n, row, col) == DownLeftScan(g, n, i, j)
      decreases n - i
    {
      if board[i, j] != 0 {
        return false;
      }
      i, j := i + 1, j - 1;
    }
    return true;
  }

  /**
   * Why looking left is enough: while the columns from col on are empty,
   * the safety test passes exactly on the cells no queen attacks.
   */
  lemma LeftClearIffUnattacked(g: Grid, row: int, col: int)
    requires EmptyFrom(g, col)
    ensures LeftClear(g, row, col) <==> Unattacked(g, row, col)
  {
  }

  /**
   * q places one queen in each column col..n-1 (the queen of column col + k
   * on row q[k]), each unattacked by the queens of g and none attacking
   * another.
   */
  ghost predicate ColumnCompletion(g: Grid, n: int, col: int, q: seq<int>) {
    && |q| == (if col < n then n - col else 0)
    && (forall k :: 0 <= k < |q| ==> 0 <= q[k] < n && Unattacked(g, q[k], col + k))
    && (forall k, l :: 0 <= k < l < |q| ==> Compatible(col + k, q[k], col + l, q[l]))
  }

  ghost predicate NoColumnCompletion(g: Grid, n: int, col: int) {
    forall q :: !ColumnCompletion(g, n, col, q)
  }

  /** g with a queen on row q[k] of column col + k, for each k. */
  function PlaceColumns(g: Grid, col: int, q: seq<int>): (h: Grid)
    requires IsSquare(g, |g|) && 0 <= col && col + |q| <= |g|
    requires forall k :: 0 <= k < |q| ==> 0 <= q[k] < |g|
    ensures IsSquare(h, |g|)
    decreases q
  {
    if q == [] then g else PlaceColumns(SetCell(g, q[0], col, 1), col + 1, q[1..])
  }

  /** PlaceColumns writes a 1 on each (q[k], col + k) and no other cell: only columns col.. change. */
  lemma {:induction false} PlaceColumnsCells(g: Grid, col: int, q: seq<int>)
    requires IsSquare(g, |g|) && 0 <= col && col + |q| <= |g|
    requires forall k :: 0 <= k < |q| ==> 0 <= q[k] < |g|
    ensures forall i, j :: 0 <= i < |g| && 0 <= j < |g| ==>
      PlaceColumns(g, col, q)[i][j] == if col <= j < col + |q| && i == q[j - col] then 1 else g[i][j]
    decreases q
  {
    if q != [] {
      PlaceColumnsCells(SetCell(g, q[0], col, 1), col + 1, q[1..]);
    }
  }

  /** The first queen of a completion is unattacked, and the rest complete the board that holds it. */
  lemma ColumnCompletionHead(g: Grid, n: int, col: int, q: seq<int>)
    requires IsSquare(g, n) && 0 <= col < n
    requires ColumnCompletion(g, n, col, q)
    ensures 0 <= q[0] < n && Unattacked(g, q[0], col)
    ensures ColumnCompletion(SetCell(g, q[0], col, 1), n, col + 1, q[1..])
  {
    var h := SetCell(g, q[0], col, 1);
    forall k | 0 <= k < |q[1..]|
      ensures Unattacked(h, q[1..][k], col + 1 + k)
    {
      assert Compatible(col, q[0], col + 1 + k, q[k + 1]);
      assert Unattacked(g, q[k + 1], col + 1 + k);
    }
    forall k, l | 0 <= k < l < |q[1..]|
      ensures Compatible(col + 1 + k, q[1..][k], col + 1 + l, q[1..][l])
    {
      assert Compatible(col + (k + 1), q[k + 1], col + (l + 1), q[l + 1]);
    }
  }

  /** An unattacked queen on (r, col) followed by a completion of the board holding it is a completion. */
  lemma ColumnCompletionCons(g: Grid, n: int, col: int, r: int, rest: seq<int>)
    requires IsSquare(g, n) && 0 <= col < n && 0 <= r < n
    requires Unattacked(g, r, col)
    requires ColumnCompletion(SetCell(g, r, col, 1), n, col + 1, rest)
    ensures ColumnCompletion(g, n, col, [r] + rest)
  {
    var h := SetCell(g, r, col, 1);
    var q := [r] + rest;
    assert Occupied(h, r, col);
    forall k | 1 <= k < |q|
      ensures Unattacked(g, q[k], col + k)
    {
      assert q[k] == rest[k - 1];
      assert Unattacked(h, rest[k - 1], col + 1 + (k - 1));
      forall i, j | Occupied(g, i, j)
        ensures !SharesLine(i, j, q[k], col + k)
      {
        assert Occupied(h, i, j) || (i, j) == (r, col);
      }
    }
    forall k, l | 0 <= k < l < |q|
      ensures Compatible(col + k, q[k], col + l, q[l])
    {
      if k == 0 {
        assert q[l] == rest[l - 1];
        assert Unattacked(h, rest[l - 1], col + 1 + (l - 1));
        assert !SharesLine(r, col, q[l], col + l);
      } else {
        assert Compatible(col + 1 + (k - 1), rest[k - 1], col + 1 + (l - 1), rest[l - 1]);
      }
    }
  }

  /**
   * A queen put on an empty column col leaves the columns after it empty,
   * and clearing it again gives back the board.
   */
  lemma PlaceOnEmptyColumn(g: Grid, n: int, i: int, col: int)
    requires IsSquare(g, n) && 0 <= i < n && 0 <= col < n
    requires EmptyFrom(g, col)
    ensures EmptyFrom(SetCell(g, i, col, 1), col + 1)
    ensures SetCell(SetCell(g, i, col, 1), i, col, 0) == g
  {
    var h := SetCell(g, i, col, 1);
    assert forall a, b :: Occupied(h, a, b) ==> Occupied(g, a, b) || (a, b) == (i, col);
    assert !Occupied(g, i, col);
    GridExtensionality(SetCell(h, i, col, 0), g);
  }

  /** What a search returns: success, the board it leaves, and the rows it chose. */
  datatype Result = Result(solved: bool, board: Grid, q: seq<int>)

  /** `solve_n_queens_util` as a function: done once col reaches n, otherwise the rows of column col from 0. */
  ghost function ColumnSearch(g: Grid, n: int, col: int): (r: Result)
    requires IsSquare(g, n) && 0 <= col
    ensures IsSquare(r.board, n)
    decreases n - col, 1
  {
    if col >= n then Result(true, g, []) else RowsFrom(g, n, col, 0)
  }

  /**
   * The loop over rows i.. of column col: on a row the safety test
   * accepts, put a 1, search the next column, and on failure put the 0
   * back and go on with the next row.
   */
  ghost function RowsFrom(g: Grid, n: int, col: int, i: int): (r: Result)
    requires IsSquare(g, n) && 0 <= col < n && 0 <= i <= n
    ensures IsSquare(r.board, n)
    decreases n - col, 0, n - i
  {
    if i == n then Result(false, g, [])
    else if SafeTest(g, n, i, col) then
      var r := ColumnSearch(SetCell(g, i, col, 1), n, col + 1);
      if r.solved then Result(true, r.board, [i] + r.q)
      else RowsFrom(SetCell(r.board, i, col, 0), n, col, i + 1)
    else RowsFrom(g, n, col, i + 1)
  }

  /** No completion of columns col..n-1 puts its first queen on row i or below. */
  ghost predicate RowsExcluded(g: Grid, n: int, col: int, i: int) {
    forall q :: ColumnCompletion(g, n, col, q) && |q| > 0 ==> q[0] < i
  }

  /**
   * When the columns from col on are empty: on success the search has
   * placed a completion of columns col..n-1 and nothing else; on failure
   * the board is as it was and no completion exists.
   */
  lemma {:induction false} ColumnSearchCorrect(g: Grid, n: int, col: int)
    requires IsSquare(g, n) && 0 <= col && EmptyFrom(g, col)
    ensures var r := ColumnSearch(g, n, col);
      && (col >= n ==> r.solved && r.board == g)
      && (r.solved ==> ColumnCompletion(g, n, col, r.q))
      && (r.solved && col < n ==> r.board == PlaceColumns(g, col, r.q))
      && (!r.solved ==> r.board == g && NoColumnCompletion(g, n, col))
    decreases n - col, 1
  {
    if col < n {
      RowsFromCorrect(g, n, col, 0);
    }
  }

  lemma {:induction false} RowsFromCorrect(g: Grid, n: int, col: int, i: int)
    requires IsSquare(g, n) && 0 <= col < n && 0 <= i <= n && EmptyFrom(g, col)
    ensures var r := RowsFrom(g, n, col, i);
      && (r.solved ==> ColumnCompletion(g, n, col, r.q) && r.board == PlaceColumns(g, col, r.q))
      && (!r.solved ==> r.board == g && RowsExcluded(g, n, col, i))
    decreases n - col, 0, n - i
  {
    if i < n {
      if SafeTest(g, n, i, col) {
        var h := SetCell(g, i, col, 1);
        SafeTestMeans(g, n, i, col);
        LeftClearIffUnattacked(g, i, col);
        PlaceOnEmptyColumn(g, n, i, col);
        ColumnSearchCorrect(h, n, col + 1);
        var r := ColumnSearch(h, n, col + 1);
        if r.solved {
          ColumnCompletionCons(g, n, col, i, r.q);
          assert RowsFrom(g, n, col, i) == Result(true, r.board, [i] + r.q);
        } else {
          assert RowsFrom(g, n, col, i) == RowsFrom(g, n, col, i + 1);
          RowsFromCorrect(g, n, col, i + 1);
          if !RowsFrom(g, n, col, i + 1).solved {
            RowExcluded(g, n, col, i);
          }
        }
      } else {
        RowsFromCorrect(g, n, col, i + 1);
        if !RowsFrom(g, n, col, i + 1).solved {
          RowExcluded(g, n, col, i);
        }
      }
    } else {
      forall q | ColumnCompletion(g, n, col, q) && |q| > 0
        ensures q[0] < n
      {
      }
    }
  }

  /**
   * A row where the safety test fails, or whose queen cannot be
   * completed, heads no completion.
   */
  lemma RowExcluded(g: Grid, n: int, col: int, i: int)
    requires IsSquare(g, n) && 0 <= col < n && 0 <= i < n && EmptyFrom(g, col)
    requires !SafeTest(g, n, i, col) || NoColumnCompletion(SetCell(g, i, col, 1), n, col + 1)
    requires RowsExcluded(g, n, col, i + 1)
    ensures RowsExcluded(g, n, col, i)
  {
    forall q | ColumnCompletion(g, n, col, q) && |q| > 0
      ensures q[0] != i
    {
      ColumnCompletionHead(g, n, col, q);
      SafeTestMeans(g, n, q[0], col);
      LeftClearIffUnattacked(g, q[0], col);
    }
  }

  /**
   * Whatever the board holds: the search leaves the columns left of col
   * as they were, writes only 0 and 1, so a 0/1 board stays 0/1, and on
   * failure gives the board back unchanged (every 1 it writes lands on a
   * cell the safety test saw empty, and is overwritten by 0 again).
   */
  lemma {:induction false} ColumnSearchFrame(g: Grid, n: int, col: int)
    requires IsSquare(g, n) && 0 <= col
    ensures var r := ColumnSearch(g, n, col);
      && (forall i, j :: 0 <= i < n && 0 <= j < col && j < n ==> r.board[i][j] == g[i][j])
      && (IsBinary(g) ==> IsBinary(r.board))
      && (!r.solved ==> r.board == g)
    decreases n - col, 1
  {
    if col < n {
      RowsFromFrame(g, n, col, 0);
    }
  }

  lemma {:induction false} RowsFromFrame(g: Grid, n: int, col: int, i: int)
    requires IsSquare(g, n) && 0 <= col < n && 0 <= i <= n
    ensures var r := RowsFrom(g, n, col, i);
      && (forall a, b :: 0 <= a < n && 0 <= b < col ==> r.board[a][b] == g[a][b])
      && (IsBinary(g) ==> IsBinary(r.board))
      && (!r.solved ==> r.board == g)
    decreases n - col, 0, n - i
  {
    if i < n {
      if SafeTest(g, n, i, col) {
        var h := SetCell(g, i, col, 1);
        ColumnSearchFrame(h, n, col + 1);
        var r := ColumnSearch(h, n, col + 1);
        if !r.solved {
          SafeTestMeans(g, n, i, col);
          assert !Occupied(g, i, col);
          GridExtensionality(SetCell(h, i, col, 0), g);
          RowsFromFrame(SetCell(r.board, i, col, 0), n, col, i + 1);
        }
      } else {
        RowsFromFrame(g, n, col, i + 1);
      }
    }
  }

  /** The assignment board[i][j] = v. */
  method WriteCell(board: array2<int>, i: int, j: int, v: int)
    requires 0 <= i < board.Length0 && 0 <= j < board.Length1
    modifies board
    ensures Snapshot(board) == SetCell(old(Snapshot(board)), i, j, v)
  {
    board[i, j] := v;
    GridExtensionality(Snapshot(board), SetCell(old(Snapshot(board)), i, j, v));
  }

  /**
   * The search from column col, as the function ColumnSearch describes
   * it; ColumnSearchCorrect says what that result is when the columns
   * from col on are empty, as they are on every call the program makes.
   */
  method SolveNQueensUtil(board: array2<int>, col: int, n: int) returns (solved: bool, ghost q: seq<int>)
    requires board.Length0 == n && board.Length1 == n && 0 <= col
    modifies board
    ensures Result(solved, Snapshot(board), q) == ColumnSearch(old(Snapshot(board)), n, col)
    decreases n - col
  {
    if col >= n {
      return true, [];
    }
    for i := 0 to n
      invariant ColumnSearch(old(Snapshot(board)), n, col) == RowsFrom(Snapshot(board), n, col, i)
    {
      ghost var g := Snapshot(board);
      var safe := IsSafe(board, i, col, n);
      if safe {
        WriteCell(board, i, col, 1);
        var ok, rest := SolveNQueensUtil(board, col + 1, n);
        if ok {
          return true, [i] + rest;
        }
        WriteCell(board, i, col, 0);
      }
    }
    return false, [];
  }

  /** From the empty board, the completions of column 0 are exactly the solutions of the puzzle. */
  lemma EmptyBoardCompletions(n: nat, q: seq<int>)
    ensures ColumnCompletion(Zeros(n), n, 0, q) <==> IsSolution(q, n)
  {
    var g := Zeros(n);
    assert forall i, j :: !Occupied(g, i, j);
    if IsSolution(q, n) {
      forall k, l | 0 <= k < l < |q|
        ensures Compatible(0 + k, q[k], 0 + l, q[l])
      {
        assert Compatible(k, q[k], l, q[l]);
      }
    }
    if ColumnCompletion(g, n, 0, q) {
      forall k, l | 0 <= k < l < n
        ensures Compatible(k, q[k], l, q[l])
      {
        assert Compatible(0 + k, q[k], 0 + l, q[l]);
      }
    }
  }

  /**
   * The program's run: an n-by-n board of zeros and the search from
   * column 0. It succeeds exactly when the puzzle has a solution q, and
   * the board then holds a 1 on row q[j] of each column j and 0 elsewhere;
   * after a failure the board is still all zeros.
   */
  method SolveBoard(n: nat) returns (solved: bool, board: array2<int>, ghost q: seq<int>)
    ensures board.Length0 == n && board.Length1 == n
    ensures solved <==> SolutionExists(n)
    ensures solved ==> IsSolution(q, n)
    ensures solved ==> forall i, j :: 0 <= i < n && 0 <= j < n ==> board[i, j] == if q[j] == i then 1 else 0
    ensures !solved ==> forall i, j :: 0 <= i < n && 0 <= j < n ==> board[i, j] == 0
  {
    board := new int[n, n]((_, _) => 0);
    GridExtensionality(Snapshot(board), Zeros(n));
    assert EmptyFrom(Zeros(n), 0);
    solved, q := SolveNQueensUtil(board, 0, n);
    ColumnSearchCorrect(Zeros(n), n, 0);
    if solved {
      EmptyBoardCompletions(n, q);
      PlaceColumnsCells(Zeros(n), 0, q);
    } else {
      forall q' | IsSolution(q', n)
        ensures ColumnCompletion(Zeros(n), n, 0, q')
      {
        EmptyBoardCompletions(n, q');
      }
    }
  }

  /** The sizes without a solution: the search reports failure and leaves the board empty. */
  method SolveTwoAndThree() returns (solved2: bool, solved3: bool)
    ensures !solved2 && !solved3
  {
    NoSolutionForTwo();
    NoSolutionForThree();
    var board2, board3;
    ghost var q2;
    solved2, board2, q2 := SolveBoard(2);
    ghost var q3;
    solved3, board3, q3 := SolveBoard(3);
  }

  /** The classic sizes: the search succeeds. */
  method SolveFourAndEight() returns (solved4: bool, solved8: bool)
    ensures solved4 && solved8
  {
    SolutionForFour();
    SolutionForEight();
    var board4, board8;
    ghost var q4;
    solved4, board4, q4 := SolveBoard(4);
    ghost var q8;
    solved8, board8, q8 := SolveBoard(8);
  }
}
