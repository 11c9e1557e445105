/** Cell-by-cell sums over a grid: how many cells are unvisited, and how many
    internal walls are open (each counted once, at the right and lower side of
    the cell left of or above it). */
module Counting {
  import opened Cells
  import opened Grids

  datatype Measure = UnvisitedCells | OpenWalls

  /** What cell (r, c) contributes to measure `m`. */
  function Weight(L: Layout, m: Measure, r: int, c: int, cell: Cell): nat
  {
    match m
    case UnvisitedCells => if cell.visited then 0 else 1
    case OpenWalls =>
      (if c + 1 < L.numCols && !cell.hasRightWall then 1 else 0) +
      (if r + 1 < L.numRows && !cell.hasBottomWall then 1 else 0)
  }

  function RowSum(L: Layout, m: Measure, r: int, row: seq<Cell>): nat
  {
    if row == [] then 0 else RowSum(L, m, r, row[..|row| - 1]) + Weight(L, m, r, |row| - 1, row[|row| - 1])
  }

  function GridSum(L: Layout, m: Measure, g: Grid): nat
  {
    if g == [] then 0 else GridSum(L, m, g[..|g| - 1]) + RowSum(L, m, |g| - 1, g[|g| - 1])
  }

  function UnvisitedCount(L: Layout, g: Grid): nat
  {
    GridSum(L, UnvisitedCells, g)
  }

  /** The number of open internal walls. */
  function OpenWallCount(L: Layout, g: Grid): nat
  {
    GridSum(L, OpenWalls, g)
  }

  lemma {:induction false} RowSumUpdate(L: Layout, m: Measure, r: int, row: seq<Cell>, c: int, x: Cell)
    requires 0 <= c < |row|
    ensures RowSum(L, m, r, row[c := x]) + Weight(L, m, r, c, row[c]) == RowSum(L, m, r, row) + Weight(L, m, r, c, x)
    decreases |row|
  {
    var n := |row|;
    if c == n - 1 {
      assert row[c := x][..n - 1] == row[..n - 1];
    } else {
      assert row[c := x][..n - 1] == row[..n - 1][c := x];
      RowSumUpdate(L, m, r, row[..n - 1], c, x);
    }
  }

  /** Replacing one cell changes a sum by the difference of that cell's weights. */
  lemma {:induction false} GridSumUpdate(L: Layout, m: Measure, g: Grid, r: int, c: int, x: Cell)
    requires 0 <= r < |g| && 0 <= c < |g[r]|
    ensures GridSum(L, m, g[r := g[r][c := x]]) + Weight(L, m, r, c, g[r][c]) == GridSum(L, m, g) + Weight(L, m, r, c, x)
    decreases |g|
  {
    var n := |g|;
    RowSumUpdate(L, m, r, g[r], c, x);
    if r == n - 1 {
      assert g[r := g[r][c := x]][..n - 1] == g[..n - 1];
    } else {
      assert g[r := g[r][c := x]][..n - 1] == g[..n - 1][r := g[r][c := x]];
      GridSumUpdate(L, m, g[..n - 1], r, c, x);
    }
  }

  lemma {:induction false} RowSumMono(L: Layout, m: Measure, r: int, row: seq<Cell>, row': seq<Cell>)
    requires |row| == |row'|
    requires forall c :: 0 <= c < |row| ==> Weight(L, m, r, c, row[c]) <= Weight(L, m, r, c, row'[c])
    ensures RowSum(L, m, r, row) <= RowSum(L, m, r, row')
    decreases |row|
  {
    if row != [] {
      var n := |row|;
      RowSumMono(L, m, r, row[..n - 1], row'[..n - 1]);
    }
  }

  /** A sum is monotone in the weights of the cells. */
  lemma {:induction false} GridSumMono(L: Layout, m: Measure, g: Grid, h: Grid)
    requires |g| == |h| && forall r :: 0 <= r < |g| ==> |g[r]| == |h[r]|
    requires forall r, c :: 0 <= r < |g| && 0 <= c < |g[r]| ==> Weight(L, m, r, c, g[r][c]) <= Weight(L, m, r, c, h[r][c])
    ensures GridSum(L, m, g) <= GridSum(L, m, h)
    decreases |g|
  {
    if g != [] {
      var n := |g|;
      RowSumMono(L, m, n - 1, g[n - 1], h[n - 1]);
      GridSumMono(L, m, g[..n - 1], h[..n - 1]);
    }
  }

  lemma {:induction false} RowSumConst(L: Layout, m: Measure, r: int, row: seq<Cell>, v: nat)
    requires forall c :: 0 <= c < |row| ==> Weight(L, m, r, c, row[c]) == v
    ensures RowSum(L, m, r, row) == |row| * v
    decreases |row|
  {
    if row != [] {
      var n := |row|;
      RowSumConst(L, m, r, row[..n - 1], v);
      assert (n - 1) * v + v == n * v;
    }
  }

  /** When every cell weighs `v`, the sum over rows of `cols` cells is rows * cols * v. */
  lemma {:induction false} GridSumConst(L: Layout, m: Measure, g: Grid, cols: nat, v: nat)
    requires forall r :: 0 <= r < |g| ==> |g[r]| == cols
    requires forall r, c :: 0 <= r < |g| && 0 <= c < |g[r]| ==> Weight(L, m, r, c, g[r][c]) == v
    ensures GridSum(L, m, g) == |g| * (cols * v)
    decreases |g|
  {
    if g != [] {
      var n, k, front := |g|, cols * v, g[..|g| - 1];
      assert forall r :: 0 <= r < |front| ==> front[r] == g[r];
      RowSumConst(L, m, n - 1, g[n - 1], v);
      GridSumConst(L, m, front, cols, v);
      assert GridSum(L, m, g) == GridSum(L, m, front) + RowSum(L, m, n - 1, g[n - 1]);
      assert (n - 1) * k + k == n * k;
    }
  }
}
