/** Paths through a maze: sequences of positions where each step crosses a
    wall that does not stand. */
module Paths {
  import opened Wrappers
  import opened Cells
  import opened Grids

  predicate StepOpen(L: Layout, g: Grid, p: seq<Pos>, k: int)
    requires 0 <= k < |p| - 1
  {
    Passable(L, g, p[k], p[k + 1])
  }

  predicate IsPath(L: Layout, g: Grid, p: seq<Pos>)
  {
    |p| >= 1 &&
    (forall k :: 0 <= k < |p| ==> InGrid(L, p[k])) &&
    (forall k :: 0 <= k < |p| - 1 ==> StepOpen(L, g, p, k))
  }

  ghost predicate Reachable(L: Layout, g: Grid, a: Pos, b: Pos)
  {
    exists p :: IsPath(L, g, p) && p[0] == a && p[|p| - 1] == b
  }

  /** Every passable neighbour of (r, c) is visited. */
  ghost predicate PassableNeighboursVisited(L: Layout, g: Grid, r: int, c: int)
  {
    forall q :: Passable(L, g, (r, c), q) ==> g[q.0][q.1].visited
  }

  lemma ReachableSelf(L: Layout, g: Grid, a: Pos)
    requires InGrid(L, a)
    ensures Reachable(L, g, a, a)
  {
    assert IsPath(L, g, [a]);
  }

  lemma ReachablePrepend(L: Layout, g: Grid, a: Pos, b: Pos, c: Pos)
    requires Passable(L, g, a, b) && Reachable(L, g, b, c)
    ensures Reachable(L, g, a, c)
  {
    var p: seq<Pos> :| IsPath(L, g, p) && p[0] == b && p[|p| - 1] == c;
    var q := [a] + p;
    forall k | 0 <= k < |q| - 1 ensures StepOpen(L, g, q, k) {
      if k > 0 {
        assert StepOpen(L, g, p, k - 1);
      }
    }
    assert IsPath(L, g, q);
  }

  /** Removing walls keeps every path a path. */
  lemma PassableMono(L: Layout, g: Grid, h: Grid, a: Pos, b: Pos)
    requires Shaped(L, g) && Shaped(L, h) && FewerWalls(L, g, h)
    requires Passable(L, g, a, b)
    ensures Passable(L, h, a, b)
  {
    assert WallsWithinAt(L, g, h, a.0, a.1) && WallsWithinAt(L, g, h, b.0, b.1);
  }

  lemma ReachableMono(L: Layout, g: Grid, h: Grid, a: Pos, b: Pos)
    requires Shaped(L, g) && Shaped(L, h) && FewerWalls(L, g, h)
    requires Reachable(L, g, a, b)
    ensures Reachable(L, h, a, b)
  {
    var p: seq<Pos> :| IsPath(L, g, p) && p[0] == a && p[|p| - 1] == b;
    forall k | 0 <= k < |p| - 1 ensures StepOpen(L, h, p, k) {
      assert StepOpen(L, g, p, k);
      PassableMono(L, g, h, p[k], p[k + 1]);
    }
    assert IsPath(L, h, p);
  }

  /** Grids that differ only in visited flags have the same passages. */
  lemma SameExceptVisitedFewerWalls(L: Layout, g: Grid, h: Grid)
    requires Shaped(L, g) && Shaped(L, h) && SameExceptVisited(L, g, h)
    ensures FewerWalls(L, g, h) && FewerWalls(L, h, g)
  {
    forall r, c | 0 <= r < L.numRows && 0 <= c < L.numCols
      ensures WallsWithin(g[r][c], h[r][c]) && WallsWithin(h[r][c], g[r][c])
    {
      assert g[r][c].Equals(Some(h[r][c]));
    }
  }

  /** A passable step from a visited cell always lands on a visited cell. */
  ghost predicate ClosedUnderSteps(L: Layout, g: Grid)
  {
    forall a, b :: Passable(L, g, a, b) && g[a.0][a.1].visited ==> g[b.0][b.1].visited
  }

  /** A set of visited cells that is closed under passable steps contains every
      cell reachable from one of its members. */
  lemma {:induction false} ClosedContainsReachable(L: Layout, g: Grid, a: Pos, b: Pos)
    requires Shaped(L, g) && InGrid(L, a) && ClosedUnderSteps(L, g)
    requires g[a.0][a.1].visited && Reachable(L, g, a, b)
    ensures InGrid(L, b) && g[b.0][b.1].visited
  {
    var p: seq<Pos> :| IsPath(L, g, p) && p[0] == a && p[|p| - 1] == b;
    var k := 0;
    while k < |p| - 1
      invariant 0 <= k < |p| && InGrid(L, p[k])
      invariant g[p[k].0][p[k].1].visited
    {
      assert StepOpen(L, g, p, k);
      k := k + 1;
    }
  }

  /** A cell the search stopped at without success: not the exit, and every
      neighbour it can step to is visited. */
  ghost predicate DeadEnd(L: Layout, g: Grid, r: int, c: int)
  {
    (r, c) != Exit(L) && PassableNeighboursVisited(L, g, r, c)
  }

  /** A cell visited since `g0` is a dead end in `g`. */
  ghost predicate Exhausted(L: Layout, g0: Grid, g: Grid, r: int, c: int)
    requires Shaped(L, g0) && Shaped(L, g) && InGrid(L, (r, c))
  {
    !g0[r][c].visited && g[r][c].visited ==> DeadEnd(L, g, r, c)
  }

  /** How a search from `p` that did not find the exit leaves the grid: `p` is
      a dead end, and so is every cell visited since `g0`. */
  ghost predicate SearchFailed(L: Layout, g0: Grid, g: Grid, p: Pos)
    requires Shaped(L, g0) && Shaped(L, g) && InGrid(L, p)
  {
    DeadEnd(L, g, p.0, p.1) &&
    forall r, c :: 0 <= r < L.numRows && 0 <= c < L.numCols ==> Exhausted(L, g0, g, r, c)
  }

  /** If the exit is reachable from the entrance, a search that started from no
      visited cells and visited the entrance cannot have made every cell it
      visited a dead end. */
  lemma NotAllExhausted(L: Layout, g0: Grid, g: Grid)
    requires Shaped(L, g0) && Shaped(L, g) && L.numRows >= 1 && L.numCols >= 1
    requires NoneVisited(L, g0)
    requires g[0][0].visited && Reachable(L, g, (0, 0), Exit(L))
    ensures !forall r, c :: 0 <= r < L.numRows && 0 <= c < L.numCols ==> Exhausted(L, g0, g, r, c)
  {
    if forall r, c :: 0 <= r < L.numRows && 0 <= c < L.numCols ==> Exhausted(L, g0, g, r, c) {
      forall a: Pos, b: Pos | Passable(L, g, a, b) && g[a.0][a.1].visited ensures g[b.0][b.1].visited {
        assert Exhausted(L, g0, g, a.0, a.1) && !g0[a.0][a.1].visited;
        assert DeadEnd(L, g, a.0, a.1);
        assert PassableNeighboursVisited(L, g, a.0, a.1);
        assert (a.0, a.1) == a;
      }
      ClosedContainsReachable(L, g, (0, 0), Exit(L));
      // The exit is visited, so it would have to be a dead end, which it is not.
      var atExit := Exhausted(L, g0, g, L.numRows - 1, L.numCols - 1);
      assert false;
    }
  }

  /** Hence a search from the entrance over a grid where the exit can be
      reached, starting with no cell visited, does not fail. */
  lemma SearchFromEntranceFindsExit(L: Layout, g0: Grid, g: Grid)
    requires Shaped(L, g0) && Shaped(L, g) && L.numRows >= 1 && L.numCols >= 1
    requires NoneVisited(L, g0)
    requires g[0][0].visited && Reachable(L, g, (0, 0), Exit(L))
    ensures !SearchFailed(L, g0, g, (0, 0))
  {
    NotAllExhausted(L, g0, g);
  }
}
