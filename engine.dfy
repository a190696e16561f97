/**
 * The `NQueens` search engine of Actividad5.3.cpp: an n-by-n board of 0/1
 * cells and three occupancy flag arrays, updated in place by a
 * row-by-row backtracking search that orders candidate columns by a
 * degree heuristic and prunes on a count of the safe cells left.
 *
 * Each method is proved against the value-level specification in
 * EngineSpec through `Model()`, the engine's state read as a value.
 */
module Engine {
  import opened Geometry
  import opened Ranking
  import opened EngineSpec

  class NQueens {
    const n: nat
    const board: array2<int>
    const cols: array<bool>
    const diag1: array<bool>
    const diag2: array<bool>

    /** The sizes fixed at construction; the three flag arrays are distinct. */
    ghost predicate Valid() {
      && n >= 1
      && board.Length0 == n && board.Length1 == n
      && cols.Length == n && diag1.Length == 2 * n - 1 && diag2.Length == 2 * n - 1
      && cols != diag1 && cols != diag2 && diag1 != diag2
    }

    /** The engine's state as a value. */
    ghost function Model(): (s: State)
      reads board, cols, diag1, diag2
      ensures Valid() ==> Shaped(s) && s.n == n
    {
      State(n, Snapshot(board), cols[..], diag1[..], diag2[..])
    }

    /** An engine for an n-by-n board: every cell 0 and every flag false. */
    constructor (size: nat)
      requires size >= 1
      ensures Valid() && n == size
      ensures Model() == Fresh(size)
      ensures fresh(board) && fresh(cols) && fresh(diag1) && fresh(diag2)
    {
      n := size;
      board := new int[size, size]((_, _) => 0);
      cols := new bool[size](_ => false);
      diag1 := new bool[2 * size - 1](_ => false);
      diag2 := new bool[2 * size - 1](_ => false);
      new;
      GridExtensionality(Snapshot(board), Zeros(size));
      assert cols[..] == seq(size, _ => false);
      assert diag1[..] == seq(2 * size - 1, _ => false);
      assert diag2[..] == seq(2 * size - 1, _ => false);
    }

    /**
     * The O(1) conflict test: no flag is set for the column or either
     * diagonal through (row, col). Rows are not checked.
     */
    function IsSafe(row: int, col: int): (safe: bool)
      reads board, cols, diag1, diag2
      requires Valid() && 0 <= row < n && 0 <= col < n
      ensures safe == Safe(Model(), row, col)
      ensures Consistent(Model()) ==> (safe <==> !Threatened(Model().board, row, col))
    {
      SafeMeansUnthreatened(Model(), row, col);
      !cols[col] && !diag1[row - col + n - 1] && !diag2[row + col]
    }

    /**
     * (row, col) lies on the board. Exactly then it names a cell of `board`
     * and, through row - col + n - 1 and row + col, an entry of `diag1` and
     * of `diag2`, so the flag test of IsSafe may follow it.
     */
    function IsValidPosition(row: int, col: int): (valid: bool)
      ensures valid ==> 0 <= row - col + n - 1 < 2 * n - 1 && 0 <= row + col < 2 * n - 1
    {
      0 <= row < n && 0 <= col < n
    }

    /**
     * The number of steps from (row, col) in direction (deltaRow, deltaCol)
     * before leaving the board.
     */
    method CountInDirection(row: int, col: int, deltaRow: int, deltaCol: int) returns (count: nat)
      requires deltaRow == 1 || deltaRow == -1
      requires deltaCol == 1 || deltaCol == -1
      ensures forall k :: 1 <= k <= count ==> IsValidPosition(Step(row, k, deltaRow), Step(col, k, deltaCol))
      ensures !IsValidPosition(Step(row, count + 1, deltaRow), Step(col, count + 1, deltaCol))
      ensures IsValidPosition(row, col) ==> count == Min(Reach(n, row, deltaRow), Reach(n, col, deltaCol))
    {
      count := 0;
      var r := row + deltaRow;
      var c := col + deltaCol;
      while IsValidPosition(r, c)
        invariant r == Step(row, count + 1, deltaRow) && c == Step(col, count + 1, deltaCol)
        invariant forall k :: 1 <= k <= count ==> IsValidPosition(Step(row, k, deltaRow), Step(col, k, deltaCol))
        invariant IsValidPosition(row, col) ==> count <= Min(Reach(n, row, deltaRow), Reach(n, col, deltaCol))
        decreases if deltaRow == 1 then n - r else r + 1
      {
        count := count + 1;
        r := r + deltaRow;
        c := c + deltaCol;
      }
    }

    /** The number of other cells on the diagonal through (row, col) with direction (deltaRow, deltaCol). */
    method CountDiagonalPositions(row: int, col: int, deltaRow: int, deltaCol: int) returns (count: nat)
      requires deltaRow == 1 || deltaRow == -1
      requires deltaCol == 1 || deltaCol == -1
      ensures IsValidPosition(row, col) ==>
        count == if deltaRow == deltaCol then n - 1 - Abs(row - col) else n - 1 - Abs(row + col - (n - 1))
    {
      count := 0;
      var forward := CountInDirection(row, col, deltaRow, deltaCol);
      count := count + forward;
      var backward := CountInDirection(row, col, -deltaRow, -deltaCol);
      count := count + backward;
    }

    /** The heuristic score of (row, col): the cells of its row, its column and its two diagonals. */
    method CalculateDegrees(row: int, col: int) returns (degree: int)
      ensures degree >= 2 * (n - 1)
      ensures IsValidPosition(row, col) ==> degree == Degree(n, row, col)
    {
      degree := 0;
      degree := degree + (n - 1) * 2;
      var descending := CountDiagonalPositions(row, col, 1, 1);
      degree := degree + descending;
      var ascending := CountDiagonalPositions(row, col, 1, -1);
      degree := degree + ascending;
    }

    /**
     * The safe columns of row, each once, in decreasing order of
     * (degree, column): ties go to the larger column.
     */
    method GetValidPositions(row: int) returns (validCols: seq<int>)
      requires Valid() && 0 <= row < n
      ensures validCols == Candidates(Model(), row)
      ensures forall c :: c in validCols <==> 0 <= c < n && Safe(Model(), row, c)
      ensures forall i, j :: 0 <= i < j < |validCols| ==>
        Greater((Degree(n, row, validCols[i]), validCols[i]), (Degree(n, row, validCols[j]), validCols[j]))
    {
      var scored: seq<Scored> := [];
      for col := 0 to n
        invariant scored == ScoredRow(Model(), row, col)
      {
        if IsSafe(row, col) {
          var degree := CalculateDegrees(row, col);
          scored := scored + [(degree, col)];
        }
      }
      var sorted := SortDescending(scored);
      validCols := ExtractColumns(sorted);
      assert validCols == Columns(sorted);
    }

    /** The second component of each pair, in order. */
    method ExtractColumns(validCols: seq<Scored>) returns (result: seq<int>)
      ensures |result| == |validCols|
      ensures forall i :: 0 <= i < |result| ==> result[i] == validCols[i].1
    {
      result := [];
      for i := 0 to |validCols|
        invariant |result| == i
        invariant forall k :: 0 <= k < i ==> result[k] == validCols[k].1
      {
        result := result + [validCols[i].1];
      }
    }

    /** The number of safe cells in rows startRow..n-1. */
    method CountValidPositions(startRow: int) returns (count: nat)
      requires Valid() && 0 <= startRow
      ensures count == SafeFrom(Model(), startRow)
      ensures startRow <= n ==> count <= (n - startRow) * n
    {
      count := 0;
      var i := startRow;
      while i < n
        invariant startRow <= i && (startRow <= n ==> i <= n)
        invariant count + SafeFrom(Model(), i) == SafeFrom(Model(), startRow)
        decreases n - i
      {
        var inRow := CountValidInRow(i);
        count := count + inRow;
        i := i + 1;
      }
      if startRow <= n {
        SafeFromBound(Model(), startRow);
      }
    }

    /** The number of safe cells in row. */
    method CountValidInRow(row: int) returns (count: nat)
      requires Valid() && 0 <= row < n
      ensures count == SafeInRow(Model(), row, n)
    {
      count := 0;
      for j := 0 to n
        invariant count == SafeInRow(Model(), row, j)
      {
        if IsSafe(row, j) {
          count := count + 1;
        }
      }
    }

    /**
     * The prune: are at least as many safe cells left in rows row..n-1 as
     * queens still to place? When not, no completion exists.
     */
    method HasSufficientPositions(row: int) returns (sufficient: bool)
      requires Valid() && 0 <= row
      ensures sufficient <==> SafeFrom(Model(), row) >= n - row
      ensures Consistent(Model()) && !sufficient ==> NoCompletion(Model(), row)
    {
      var count := CountValidPositions(row);
      sufficient := count >= n - row;
      forall q | Consistent(Model()) && IsCompletion(Model(), row, q)
        ensures SafeFrom(Model(), row) >= n - row
      {
        PruneSound(Model(), row, q);
      }
    }

    /** A queen on (row, col) and its column and diagonal flags set; nothing else changes. */
    method PlaceQueen(row: int, col: int)
      requires Valid() && 0 <= row < n && 0 <= col < n
      modifies board, cols, diag1, diag2
      ensures Model() == Place(old(Model()), row, col)
    {
      board[row, col] := 1;
      cols[col] := true;
      diag1[row - col + n - 1] := true;
      diag2[row + col] := true;
      GridExtensionality(Snapshot(board), SetCell(old(Snapshot(board)), row, col, 1));
    }

    /** The cell (row, col) emptied and its column and diagonal flags cleared; nothing else changes. */
    method RemoveQueen(row: int, col: int)
      requires Valid() && 0 <= row < n && 0 <= col < n
      modifies board, cols, diag1, diag2
      ensures Model() == Remove(old(Model()), row, col)
    {
      board[row, col] := 0;
      cols[col] := false;
      diag1[row - col + n - 1] := false;
      diag2[row + col] := false;
      GridExtensionality(Snapshot(board), SetCell(old(Snapshot(board)), row, col, 0));
    }

    /**
     * The search from row, as the function Search describes it. From a
     * consistent state (one PlaceQueen and RemoveQueen on safe cells lead
     * to): on success the rows row..n-1 hold the queens of a completion q
     * and nothing else has changed; on failure nothing has changed and no
     * completion exists.
     */
    method SolveNQueens(row: int) returns (solved: bool, ghost q: seq<int>)
      requires Valid() && 0 <= row <= n
      modifies board, cols, diag1, diag2
      ensures Outcome(solved, Model(), q) == Search(old(Model()), row)
      ensures Consistent(old(Model())) ==> Consistent(Model())
      ensures Consistent(old(Model())) && solved ==>
        IsCompletion(old(Model()), row, q) && Model() == PlaceAll(old(Model()), row, q)
      ensures Consistent(old(Model())) && !solved ==> Model() == old(Model()) && NoCompletion(old(Model()), row)
      decreases n - row, 1
    {
      ghost var s := Model();
      if Consistent(s) {
        SearchCorrect(s, row);
        if Search(s, row).solved {
          PlaceAllConsistent(s, row, Search(s, row).q);
        }
      }
      if row == n {
        return true, [];
      }
      var sufficient := HasSufficientPositions(row);
      if !sufficient {
        return false, [];
      }
      var validCols := GetValidPositions(row);
      solved, q := TryAllPositions(row, validCols);
    }

    /** Place, search the next row, remove, for each candidate column in turn, as TryAll describes. */
    method TryAllPositions(row: int, validCols: seq<int>) returns (solved: bool, ghost q: seq<int>)
      requires Valid() && 0 <= row < n
      requires forall k :: 0 <= k < |validCols| ==> 0 <= validCols[k] < n
      modifies board, cols, diag1, diag2
      ensures Outcome(solved, Model(), q) == TryAll(old(Model()), row, validCols)
      decreases n - row, 0, 1
    {
      for i := 0 to |validCols|
        invariant TryAll(old(Model()), row, validCols) == TryAll(Model(), row, validCols[i..])
      {
        TryAllStep(Model(), row, validCols, i);
        var ok, rest := TryColumn(row, validCols[i]);
        if ok {
          return true, [validCols[i]] + rest;
        }
      }
      return false, [];
    }

    /**
     * The body of the loop of TryAllPositions for one column: place the
     * queen, search the next row, and remove the queen again when that
     * search fails.
     */
    method TryColumn(row: int, col: int) returns (solved: bool, ghost q: seq<int>)
      requires Valid() && 0 <= row < n && 0 <= col < n
      modifies board, cols, diag1, diag2
      ensures var o := Search(Place(old(Model()), row, col), row + 1);
        && solved == o.solved
        && (solved ==> Model() == o.state && q == o.q)
        && (!solved ==> Model() == Remove(o.state, row, col))
      decreases n - row, 0, 0
    {
      PlaceQueen(row, col);
      solved, q := SolveNQueens(row + 1);
      if !solved {
        RemoveQueen(row, col);
      }
    }

    /** The test suite's checker: exactly n queens, and none shares a row, column or diagonal with another. */
    method HasValidSolution() returns (valid: bool)
      requires Valid()
      ensures valid <==> QueenCount(Model().board) == n && Peaceful(Model().board)
    {
      ghost var g := Model().board;
      var queenCount := 0;
      for i := 0 to n
        invariant queenCount == CountRows(g, i)
      {
        for j := 0 to n
          invariant queenCount == CountRows(g, i) + Count1(g[i], j)
        {
          if board[i, j] == 1 {
            queenCount := queenCount + 1;
          }
        }
      }
      if queenCount != n {
        return false;
      }
      for i := 0 to n
        invariant forall a :: 0 <= a < i ==> RowUnattacked(g, a)
      {
        for j := 0 to n
          invariant forall b :: 0 <= b < j && IsQueen(g, i, b) ==> QueenUnattacked(g, i, b)
        {
          if board[i, j] == 1 {
            var safe := IsQueenSafe(i, j);
            if !safe {
              return false;
            }
          }
        }
        assert RowUnattacked(g, i);
      }
      forall a, b | IsQueen(g, a, b)
        ensures QueenUnattacked(g, a, b)
      {
        assert RowUnattacked(g, a);
      }
      return true;
    }

    /** No queen other than the one on (row, col) shares its row, its column or a diagonal. */
    method IsQueenSafe(row: int, col: int) returns (safe: bool)
      requires Valid() && 0 <= row < n && 0 <= col < n
      ensures safe <==> QueenUnattacked(Model().board, row, col)
    {
      ghost var g := Model().board;
      for j := 0 to n
        invariant forall b :: 0 <= b < j && b != col ==> !IsQueen(g, row, b)
      {
        if j != col && board[row, j] == 1 {
          assert IsQueen(g, row, j) && SharesLine(row, j, row, col);
          return false;
        }
      }
      for i := 0 to n
        invariant forall a :: 0 <= a < i && a != row ==> !IsQueen(g, a, col)
      {
        if i != row && board[i, col] == 1 {
          assert IsQueen(g, i, col) && SharesLine(i, col, row, col);
          return false;
        }
      }
      safe := CheckDiagonals(row, col);
    }

    /** No queen off the row and column of (row, col) lies on either diagonal through it. */
    method CheckDiagonals(row: int, col: int) returns (clear: bool)
      requires Valid()
      ensures clear <==> forall i, j :: IsQueen(Model().board, i, j) && i != row && j != col ==>
        i - j != row - col && i + j != row + col
    {
      ghost var g := Model().board;
      for i := 0 to n
        invariant forall a, b :: IsQueen(g, a, b) && a < i && a != row && b != col ==> a - b != row - col
      {
        for j := 0 to n
          invariant forall a, b :: IsQueen(g, a, b) && (a < i || (a == i && b < j)) && a != row && b != col ==>
            a - b != row - col
        {
          if i != row && j != col && i - j == row - col && board[i, j] == 1 {
            assert IsQueen(g, i, j);
            return false;
          }
        }
      }
      for i := 0 to n
        invariant forall a, b :: IsQueen(g, a, b) && a < i && a != row && b != col ==> a + b != row + col
      {
        for j := 0 to n
          invariant forall a, b :: IsQueen(g, a, b) && (a < i || (a == i && b < j)) && a != row && b != col ==>
            a + b != row + col
        {
          if i != row && j != col && i + j == row + col && board[i, j] == 1 {
            assert IsQueen(g, i, j);
            return false;
          }
        }
      }
      return true;
    }
  }

  // ----- the scenarios of the test suite -----

  /**
   * A fresh 4-by-4 engine, queen on (0, 1): column 1 and the diagonal
   * through (1, 2) are reported unsafe, but (0, 0), which shares only the
   * row with (0, 1), is reported safe, because no flag tracks rows.
   */
  method IsSafeScenario() returns (before00: bool, before01: bool, after00: bool, after11: bool, after12: bool)
    ensures before00 && before01
    ensures after00
    ensures !after11 && !after12
  {
    var nq := new NQueens(4);
    before00 := nq.IsSafe(0, 0);
    before01 := nq.IsSafe(0, 1);
    nq.PlaceQueen(0, 1);
    after00 := nq.IsSafe(0, 0);
    after11 := nq.IsSafe(1, 1);
    after12 := nq.IsSafe(1, 2);
  }

  /** The bounds test on a 4-by-4 engine: (0, 0) and (3, 3) are on the board, one step past an edge is not. */
  method IsValidPositionScenario() returns (inside: bool, outside: bool)
    ensures inside && !outside
  {
    var nq := new NQueens(4);
    inside := nq.IsValidPosition(0, 0) && nq.IsValidPosition(3, 3);
    outside := nq.IsValidPosition(-1, 0) || nq.IsValidPosition(0, -1) ||
      nq.IsValidPosition(4, 0) || nq.IsValidPosition(0, 4);
  }

  /** Placing and then removing a queen on (0, 1) of a fresh 4-by-4 engine. */
  method PlaceRemoveScenario() returns (placed: int, removed: int)
    ensures placed == 1 && removed == 0
  {
    var nq := new NQueens(4);
    nq.PlaceQueen(0, 1);
    placed := nq.board[0, 1];
    nq.RemoveQueen(0, 1);
    removed := nq.board[0, 1];
  }

  /** The degree of the corner of a 4-by-4 board: 3 + 3 for the row and column, 3 + 0 for the diagonals. */
  method DegreeScenario() returns (degrees: int)
    ensures degrees > 0 && degrees == 9
  {
    var nq := new NQueens(4);
    degrees := nq.CalculateDegrees(0, 0);
  }

  /** On a fresh engine every cell is safe. */
  method CountScenario(size: nat) returns (count: int)
    requires size >= 1
    ensures count == size * size && count > 0
  {
    var nq := new NQueens(size);
    FreshAllSafe(size);
    count := nq.CountValidPositions(0);
  }

  /**
   * A fresh engine's search from row 0 succeeds exactly when the puzzle
   * has a solution, and then the board passes the checker; after a
   * failure the board is empty and fails it.
   */
  method SolveFresh(size: nat) returns (solved: bool, valid: bool)
    requires size >= 1
    ensures solved <==> SolutionExists(size)
    ensures valid <==> solved
  {
    var nq := new NQueens(size);
    FreshSearch(size);
    ghost var q;
    solved, q := nq.SolveNQueens(0);
    valid := nq.HasValidSolution();
  }

  /** The two sizes the tests solve: both succeed and pass the checker. */
  method SolveFourAndEight() returns (solved4: bool, valid4: bool, solved8: bool, valid8: bool)
    ensures solved4 && valid4 && solved8 && valid8
  {
    SolutionForFour();
    SolutionForEight();
    solved4, valid4 := SolveFresh(4);
    solved8, valid8 := SolveFresh(8);
  }

  /** The sizes without a solution: the search reports failure. */
  method SolveTwoAndThree() returns (solved2: bool, solved3: bool)
    ensures !solved2 && !solved3
  {
    NoSolutionForTwo();
    NoSolutionForThree();
    var valid2, valid3;
    solved2, valid2 := SolveFresh(2);
    solved3, valid3 := SolveFresh(3);
  }

  /** The coordinate k steps from x in direction d (1 or -1). */
  function Step(x: int, k: int, d: int): int {
    if d == 1 then x + k else x - k
  }
}
