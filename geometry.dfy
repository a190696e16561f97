/**
 * Board geometry shared by both solvers: boards as values, the relation
 * "two queens do not attack each other", and what a solution to the
 * N-Queens puzzle is.
 */
module Geometry {

  /** A board as a value: g[i][j] is the cell in row i, column j. */
  type Grid = seq<seq<int>>

  /** g has n rows of n cells each. */
  predicate IsSquare(g: Grid, n: int) {
    |g| == n && forall i :: 0 <= i < n ==> |g[i]| == n
  }

  /** Every cell of g holds 0 or 1. */
  predicate IsBinary(g: Grid) {
    forall i, j :: 0 <= i < |g| && 0 <= j < |g[i]| ==> g[i][j] == 0 || g[i][j] == 1
  }

  /** The n-by-n board with every cell 0. */
  function Zeros(n: nat): (g: Grid)
    ensures IsSquare(g, n) && IsBinary(g)
    ensures forall i, j :: 0 <= i < n && 0 <= j < n ==> g[i][j] == 0
  {
    seq(n, _ => seq(n, _ => 0))
  }

  /** g with the cell (i, j) set to v and every other cell as it was. */
  function SetCell(g: Grid, i: int, j: int, v: int): (h: Grid)
    requires 0 <= i < |g| && 0 <= j < |g[i]|
    ensures |h| == |g| && forall k :: 0 <= k < |g| ==> |h[k]| == |g[k]|
    ensures h[i][j] == v
    ensures forall k, l :: 0 <= k < |g| && 0 <= l < |g[k]| && (k, l) != (i, j) ==> h[k][l] == g[k][l]
  {
    g[i := g[i][j := v]]
  }

  /** The contents of a two-dimensional array, as a value. */
  ghost function Snapshot(b: array2<int>): (g: Grid)
    reads b
    ensures |g| == b.Length0 && forall i :: 0 <= i < b.Length0 ==> |g[i]| == b.Length1
    ensures forall i, j :: 0 <= i < b.Length0 && 0 <= j < b.Length1 ==> g[i][j] == b[i, j]
  {
    seq(b.Length0, i reads b =>
      seq(b.Length1, j reads b =>
        if 0 <= i < b.Length0 && 0 <= j < b.Length1 then b[i, j] else 0))
  }

  /** Two boards with the same shape and the same cells are the same board. */
  lemma GridExtensionality(g: Grid, h: Grid)
    requires |g| == |h|
    requires forall i :: 0 <= i < |g| ==> |g[i]| == |h[i]|
    requires forall i, j :: 0 <= i < |g| && 0 <= j < |g[i]| ==> g[i][j] == h[i][j]
    ensures g == h
  {
    forall i | 0 <= i < |g|
      ensures g[i] == h[i]
    {
      assert forall j :: 0 <= j < |g[i]| ==> g[i][j] == h[i][j];
    }
  }

  /** The cells (r1, c1) and (r2, c2) share a row, a column or a diagonal. */
  predicate SharesLine(r1: int, c1: int, r2: int, c2: int) {
    r1 == r2 || c1 == c2 || r1 - c1 == r2 - c2 || r1 + c1 == r2 + c2
  }

  /**
   * Queens on (r1, c1) and (r2, c2) share neither the second coordinate
   * nor a diagonal. For queens on different first coordinates (different
   * rows, or different columns when the roles are swapped) this is
   * "they do not attack each other".
   */
  predicate Compatible(r1: int, c1: int, r2: int, c2: int) {
    c1 != c2 && r1 - c1 != r2 - c2 && r1 + c1 != r2 + c2
  }

  /**
   * q places one queen on each of n lines: on line i at position q[i].
   * Read q[i] as the column of the queen of row i, or as the row of the
   * queen of column i: the puzzle is symmetric, so both readings describe
   * the same solutions.
   */
  predicate IsSolution(q: seq<int>, n: int) {
    && |q| == n
    && (forall i :: 0 <= i < n ==> 0 <= q[i] < n)
    && (forall i, j :: 0 <= i < j < n ==> Compatible(i, q[i], j, q[j]))
  }

  ghost predicate SolutionExists(n: int) {
    exists q :: IsSolution(q, n)
  }

  /** The two boards the classic puzzle rules out. */
  lemma NoSolutionForTwo()
    ensures !SolutionExists(2)
  {
    forall q: seq<int> | |q| == 2 && (forall i :: 0 <= i < 2 ==> 0 <= q[i] < 2)
      ensures !Compatible(0, q[0], 1, q[1])
    {
    }
  }

  lemma NoSolutionForThree()
    ensures !SolutionExists(3)
  {
    forall q: seq<int> | |q| == 3 && (forall i :: 0 <= i < 3 ==> 0 <= q[i] < 3)
      ensures !(Compatible(0, q[0], 1, q[1]) && Compatible(1, q[1], 2, q[2]) && Compatible(0, q[0], 2, q[2]))
    {
      assert 0 <= q[0] < 3 && 0 <= q[1] < 3 && 0 <= q[2] < 3;
    }
  }

  /** Row i holds its queen in column [1, 3, 0, 2][i]. */
  lemma SolutionForFour()
    ensures SolutionExists(4)
  {
    var q := [1, 3, 0, 2];
    forall i, j | 0 <= i < j < 4
      ensures Compatible(i, q[i], j, q[j])
    {
      assert i == 0 || i == 1 || i == 2;
      assert j == 1 || j == 2 || j == 3;
    }
    assert IsSolution(q, 4);
  }

  lemma SolutionForEight()
    ensures SolutionExists(8)
  {
    var q := [0, 4, 7, 5, 2, 6, 1, 3];
    forall i, j | 0 <= i < j < 8
      ensures Compatible(i, q[i], j, q[j])
    {
      assert 0 <= i < 7 && i < j < 8;
      if i == 0 {
      } else if i == 1 {
      } else if i == 2 {
      } else if i == 3 {
      } else if i == 4 {
      } else if i == 5 {
      } else {
      }
    }
    assert IsSolution(q, 8);
  }
}
