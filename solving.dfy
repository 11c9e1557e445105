/** What the depth-first search `_solve_r` keeps true while it runs: it only
    changes visited flags, and when it gives up, every cell it visited is a
    dead end. */
module Solving {
  import opened Wrappers
  import opened Cells
  import opened Grids
  import opened Counting
  import opened Paths
  import opened Carving

  /** The search at `p` has dealt with the neighbour `q`: if it can step there, `q` is visited. */
  ghost predicate Handled(L: Layout, g: Grid, p: Pos, q: Pos)
  {
    Passable(L, g, p, q) ==> g[q.0][q.1].visited
  }

  lemma SameExceptVisitedTrans(L: Layout, g: Grid, h: Grid, k: Grid)
    requires Shaped(L, g) && Shaped(L, h) && Shaped(L, k)
    requires SameExceptVisited(L, g, h) && SameExceptVisited(L, h, k)
    ensures SameExceptVisited(L, g, k)
  {
    forall r, c | 0 <= r < L.numRows && 0 <= c < L.numCols ensures g[r][c].Equals(Some(k[r][c])) {
      EqualsIgnoresOnlyVisited(g[r][c], h[r][c]);
      EqualsIgnoresOnlyVisited(h[r][c], k[r][c]);
      EqualsIgnoresOnlyVisited(g[r][c], k[r][c]);
    }
  }

  lemma VisitedGrowsTrans(L: Layout, g: Grid, h: Grid, k: Grid)
    requires Shaped(L, g) && Shaped(L, h) && Shaped(L, k)
    requires VisitedGrows(L, g, h) && VisitedGrows(L, h, k)
    ensures VisitedGrows(L, g, k)
  {
    forall r, c | 0 <= r < L.numRows && 0 <= c < L.numCols ensures VisitedKept(L, g, k, r, c) {
      assert VisitedKept(L, g, h, r, c) && VisitedKept(L, h, k, r, c);
    }
  }

  /** Grids that differ only in visited flags allow the same steps. */
  lemma SameWallsPassable(L: Layout, g: Grid, h: Grid, a: Pos, b: Pos)
    requires Shaped(L, g) && Shaped(L, h) && SameExceptVisited(L, g, h)
    ensures Passable(L, g, a, b) <==> Passable(L, h, a, b)
  {
    SameExceptVisitedFewerWalls(L, g, h);
    if Passable(L, g, a, b) {
      PassableMono(L, g, h, a, b);
    }
    if Passable(L, h, a, b) {
      PassableMono(L, h, g, a, b);
    }
  }

  /** Cells that differ only in their visited flags sit at the same place
      with the same walls. */
  lemma SameCells(L: Layout, g: Grid, h: Grid)
    requires WellFormed(L, g) && Shaped(L, h) && SameExceptVisited(L, g, h)
    ensures WellFormed(L, h)
    ensures forall r, c :: 0 <= r < L.numRows && 0 <= c < L.numCols ==>
      g[r][c].(visited := false) == h[r][c].(visited := false)
  {
    forall r, c | 0 <= r < L.numRows && 0 <= c < L.numCols
      ensures g[r][c].(visited := false) == h[r][c].(visited := false)
      ensures h[r][c].GetIJ() == (r, c) && Placed(L, h, r, c)
    {
      EqualsIgnoresOnlyVisited(g[r][c], h[r][c]);
      assert Placed(L, g, r, c);
    }
  }

  /** Grids that differ only in visited flags have the same walls, inside and out. */
  lemma SameWalls(L: Layout, g: Grid, h: Grid)
    requires WellFormed(L, g) && Shaped(L, h) && SameExceptVisited(L, g, h)
    requires Symmetric(L, g) && Boundary(L, g)
    ensures Symmetric(L, h) && Boundary(L, h)
  {
    SameCells(L, g, h);
    forall r, c | 0 <= r < L.numRows && 0 <= c < L.numCols ensures SymmetricAt(L, h, r, c) {
      assert SymmetricAt(L, g, r, c);
    }
    forall r | 0 <= r < L.numRows ensures SideWalls(L, h, r) {
      assert SideWalls(L, g, r);
    }
    forall c | 0 <= c < L.numCols ensures EndWalls(L, h, c) {
      assert EndWalls(L, g, c);
    }
  }

  /** Grids that differ only in visited flags are the same maze. */
  lemma SameMaze(L: Layout, g: Grid, h: Grid)
    requires PerfectMaze(L, g) && Shaped(L, h) && SameExceptVisited(L, g, h)
    ensures PerfectMaze(L, h)
  {
    SameCells(L, g, h);
    SameWalls(L, g, h);
    SameExceptVisitedFewerWalls(L, g, h);
    OpenWallsMono(L, g, h);
    OpenWallsMono(L, h, g);
    forall r, c | 0 <= r < L.numRows && 0 <= c < L.numCols ensures Reachable(L, h, (0, 0), (r, c)) {
      ReachableMono(L, g, h, (0, 0), (r, c));
    }
  }

  /** A dead end stays one while only visited flags are set. */
  lemma DeadEndKept(L: Layout, g: Grid, h: Grid, r: int, c: int)
    requires Shaped(L, g) && Shaped(L, h) && SameExceptVisited(L, g, h) && VisitedGrows(L, g, h)
    requires DeadEnd(L, g, r, c)
    ensures DeadEnd(L, h, r, c)
  {
    forall q | Passable(L, h, (r, c), q) ensures h[q.0][q.1].visited {
      SameWallsPassable(L, g, h, (r, c), q);
      assert VisitedKept(L, g, h, q.0, q.1);
    }
  }

  /** A neighbour behind a standing wall, or already visited, is dealt with as it is. */
  lemma HandledSkip(L: Layout, g: Grid, p: Pos, n: Pos, k: int)
    requires 0 <= k < |Neighbours(L, p)| && Neighbours(L, p)[k] == n
    requires !Passable(L, g, p, n) || (InGrid(L, n) && Shaped(L, g) && g[n.0][n.1].visited)
    requires forall k' :: 0 <= k' < k ==> Handled(L, g, p, Neighbours(L, p)[k'])
    ensures forall k' :: 0 <= k' < k + 1 ==> Handled(L, g, p, Neighbours(L, p)[k'])
  {
  }

  /** After a recursive search from `n` that found nothing, the neighbours the
      search at `p` has dealt with stay dealt with, and so does `n`. */
  lemma HandledKept(L: Layout, g: Grid, h: Grid, p: Pos, n: Pos, k: int)
    requires Shaped(L, g) && Shaped(L, h) && SameExceptVisited(L, g, h) && VisitedGrows(L, g, h)
    requires InGrid(L, p) && InGrid(L, n) && 0 <= k < |Neighbours(L, p)| && Neighbours(L, p)[k] == n
    requires h[n.0][n.1].visited
    requires forall k' :: 0 <= k' < k ==> Handled(L, g, p, Neighbours(L, p)[k'])
    ensures forall k' :: 0 <= k' < k + 1 ==> Handled(L, h, p, Neighbours(L, p)[k'])
  {
    var ns := Neighbours(L, p);
    forall k' | 0 <= k' < k + 1 ensures Handled(L, h, p, ns[k']) {
      if k' < k {
        assert Handled(L, g, p, ns[k']);
        SameWallsPassable(L, g, h, p, ns[k']);
        NeighboursExactly(L, p, ns[k']);
        assert VisitedKept(L, g, h, ns[k'].0, ns[k'].1);
      }
    }
  }

  /** ... and every cell visited since `g0` other than `p` stays a dead end. */
  lemma ExhaustedKept(L: Layout, g0: Grid, g: Grid, h: Grid, p: Pos)
    requires Shaped(L, g0) && Shaped(L, g) && Shaped(L, h)
    requires SameExceptVisited(L, g, h) && VisitedGrows(L, g, h)
    requires forall r, c :: 0 <= r < L.numRows && 0 <= c < L.numCols && (r, c) != p ==> Exhausted(L, g0, g, r, c)
    requires forall r, c :: 0 <= r < L.numRows && 0 <= c < L.numCols ==> Exhausted(L, g, h, r, c)
    ensures forall r, c :: 0 <= r < L.numRows && 0 <= c < L.numCols && (r, c) != p ==> Exhausted(L, g0, h, r, c)
  {
    forall r, c | 0 <= r < L.numRows && 0 <= c < L.numCols && (r, c) != p ensures Exhausted(L, g0, h, r, c) {
      assert Exhausted(L, g0, g, r, c) && Exhausted(L, g, h, r, c);
      if !g0[r][c].visited && g[r][c].visited {
        DeadEndKept(L, g, h, r, c);
      }
    }
  }

  /** `g` is `g0` with the same walls and more cells visited, `p` among them,
      every newly visited cell reachable from `p`, and both are well-formed grids. */
  ghost predicate Explored(L: Layout, g0: Grid, g: Grid, p: Pos)
  {
    WellFormed(L, g0) && WellFormed(L, g) && InGrid(L, p) &&
    SameExceptVisited(L, g0, g) && VisitedGrows(L, g0, g) && g[p.0][p.1].visited &&
    forall r, c :: 0 <= r < L.numRows && 0 <= c < L.numCols ==> EnteredFrom(L, g0, g, p, r, c)
  }

  /** If cell (r, c) was first visited since `g0`, it can be reached from `p`. */
  ghost predicate EnteredFrom(L: Layout, g0: Grid, g: Grid, p: Pos, r: int, c: int)
    requires Shaped(L, g0) && Shaped(L, g) && InGrid(L, (r, c))
  {
    !g0[r][c].visited && g[r][c].visited ==> Reachable(L, g, p, (r, c))
  }

  /** The cells visited by a search from a neighbour `n` one can step to from
      `p` can be reached from `p` through `n`; those visited before it, still. */
  lemma EnteredThrough(L: Layout, g0: Grid, g: Grid, h: Grid, p: Pos, n: Pos)
    requires Explored(L, g0, g, p) && Explored(L, g, h, n) && Passable(L, g, p, n)
    ensures forall r, c :: 0 <= r < L.numRows && 0 <= c < L.numCols ==> EnteredFrom(L, g0, h, p, r, c)
  {
    SameExceptVisitedFewerWalls(L, g, h);
    SameWallsPassable(L, g, h, p, n);
    forall r, c | 0 <= r < L.numRows && 0 <= c < L.numCols ensures EnteredFrom(L, g0, h, p, r, c) {
      if !g0[r][c].visited && h[r][c].visited {
        if g[r][c].visited {
          assert EnteredFrom(L, g0, g, p, r, c);
          ReachableMono(L, g, h, p, (r, c));
        } else {
          assert EnteredFrom(L, g, h, n, r, c);
          ReachablePrepend(L, h, p, n, (r, c));
        }
      }
    }
  }

  /** What the search at `p`, started on grid `g0`, has established once it
      has tried its first `k` neighbours without reaching the exit: it has
      visited `p` besides, every neighbour it tried it could not step to or
      found visited, and every other cell visited since `g0` is a dead end. */
  ghost predicate Searching(L: Layout, g0: Grid, g: Grid, p: Pos, k: int)
  {
    Explored(L, g0, g, p) &&
    UnvisitedCount(L, g) + (if g0[p.0][p.1].visited then 0 else 1) <= UnvisitedCount(L, g0) &&
    0 <= k <= |Neighbours(L, p)| &&
    (forall k' :: 0 <= k' < k ==> Handled(L, g, p, Neighbours(L, p)[k'])) &&
    (forall r, c :: 0 <= r < L.numRows && 0 <= c < L.numCols && (r, c) != p ==> Exhausted(L, g0, g, r, c))
  }

  /** Marking `p` visited starts the search at `p`. */
  lemma SearchStart(L: Layout, g0: Grid, p: Pos, g: Grid)
    requires WellFormed(L, g0) && InGrid(L, p)
    requires g == g0[p.0 := g0[p.0][p.1 := g0[p.0][p.1].(visited := true)]]
    ensures Searching(L, g0, g, p, 0) && g[p.0][p.1].GetIJ() == p
    ensures g[p.0][p.1].Equals(Some(g0[L.numRows - 1][L.numCols - 1])) <==> p == Exit(L)
  {
    MarkVisited(L, g0, p, g);
    MarkVisitedCounts(L, g0, p, g);
    GridCellsEqualIffSamePos(L, g0, p, Exit(L));
    EqualsIsEquivalence(g0[p.0][p.1], g0[L.numRows - 1][L.numCols - 1], g0[p.0][p.1], true);
    forall r, c | 0 <= r < L.numRows && 0 <= c < L.numCols && (r, c) != p ensures Exhausted(L, g0, g, r, c) {
      assert g[r][c] == g0[r][c];
    }
    StartEntered(L, g0, p, g);
  }

  /** The only cell a search at `p` has entered when it starts is `p` itself. */
  lemma StartEntered(L: Layout, g0: Grid, p: Pos, g: Grid)
    requires Shaped(L, g0) && InGrid(L, p)
    requires g == g0[p.0 := g0[p.0][p.1 := g0[p.0][p.1].(visited := true)]]
    ensures Shaped(L, g)
    ensures forall r, c :: 0 <= r < L.numRows && 0 <= c < L.numCols ==> EnteredFrom(L, g0, g, p, r, c)
  {
    forall r, c | 0 <= r < L.numRows && 0 <= c < L.numCols ensures EnteredFrom(L, g0, g, p, r, c) {
      if (r, c) == p {
        ReachableSelf(L, g, p);
      } else {
        assert g[r][c] == g0[r][c];
      }
    }
  }

  /** A search from `p` that succeeded: the exit is visited and can be reached from `p`. */
  ghost predicate ReachedExit(L: Layout, g: Grid, p: Pos)
  {
    InGrid(L, Exit(L)) && Shaped(L, g) && g[L.numRows - 1][L.numCols - 1].visited && Reachable(L, g, p, Exit(L))
  }

  /** The search from `p`, started on grid `g0`, has entered the exit: it
      started there, or the exit was unvisited in `g0` and is visited now. */
  ghost predicate ExitEntered(L: Layout, g0: Grid, g: Grid, p: Pos)
  {
    Shaped(L, g0) && Shaped(L, g) && InGrid(L, Exit(L)) &&
    (p == Exit(L) || (!g0[L.numRows - 1][L.numCols - 1].visited && g[L.numRows - 1][L.numCols - 1].visited))
  }

  /** At the exit the search succeeds at once. */
  lemma SearchAtExit(L: Layout, g0: Grid, g: Grid, p: Pos)
    requires Searching(L, g0, g, p, 0) && p == Exit(L)
    ensures Explored(L, g0, g, p) && ReachedExit(L, g, p) && ExitEntered(L, g0, g, p)
  {
    ReachableSelf(L, g, p);
  }

  /** A neighbour behind a standing wall, or already visited, is skipped and
      counts as tried. */
  lemma NeighbourSkipped(L: Layout, g0: Grid, g: Grid, p: Pos, k: int, n: Pos)
    requires Searching(L, g0, g, p, k) && k < |Neighbours(L, p)| && Neighbours(L, p)[k] == n
    requires !Passable(L, g, p, n) || g[n.0][n.1].visited
    ensures Searching(L, g0, g, p, k + 1)
  {
    NeighboursExactly(L, p, n);
    HandledSkip(L, g, p, n, k);
  }

  /** A search from the neighbour `n` that failed leaves `n` tried as well. */
  lemma NeighbourSearched(L: Layout, g0: Grid, g: Grid, h: Grid, p: Pos, k: int, n: Pos)
    requires Searching(L, g0, g, p, k) && k < |Neighbours(L, p)| && Neighbours(L, p)[k] == n
    requires Passable(L, g, p, n) && Explored(L, g, h, n) && SearchFailed(L, g, h, n)
    ensures Searching(L, g0, h, p, k + 1)
  {
    NeighboursExactly(L, p, n);
    EnteredThrough(L, g0, g, h, p, n);
    SameExceptVisitedTrans(L, g0, g, h);
    VisitedGrowsTrans(L, g0, g, h);
    assert VisitedKept(L, g, h, p.0, p.1);
    UnvisitedMono(L, g, h);
    HandledKept(L, g, h, p, n, k);
    ExhaustedKept(L, g0, g, h, p);
  }

  /** A search from an unvisited neighbour `n` one can step to from `p` that
      reached the exit makes the exit reachable from `p`, and entered by the
      search at `p`. */
  lemma NeighbourFound(L: Layout, g0: Grid, g: Grid, h: Grid, p: Pos, k: int, n: Pos)
    requires Searching(L, g0, g, p, k) && Passable(L, g, p, n)
    requires Explored(L, g, h, n) && ReachedExit(L, h, n)
    requires !g[n.0][n.1].visited && ExitEntered(L, g, h, n)
    ensures Explored(L, g0, h, p) && ReachedExit(L, h, p) && ExitEntered(L, g0, h, p)
  {
    ExitEnteredThrough(L, g0, g, h, p, n);
    SameExceptVisitedTrans(L, g0, g, h);
    VisitedGrowsTrans(L, g0, g, h);
    assert VisitedKept(L, g, h, p.0, p.1);
    SameWallsPassable(L, g, h, p, n);
    ReachablePrepend(L, h, p, n, Exit(L));
    EnteredThrough(L, g0, g, h, p, n);
  }

  /** A search from an unvisited neighbour `n` that entered the exit makes
      the search at `p` one that entered it too. */
  lemma ExitEnteredThrough(L: Layout, g0: Grid, g: Grid, h: Grid, p: Pos, n: Pos)
    requires Shaped(L, g0) && Shaped(L, g) && VisitedGrows(L, g0, g)
    requires InGrid(L, n) && !g[n.0][n.1].visited && ExitEntered(L, g, h, n) && h[n.0][n.1].visited
    ensures ExitEntered(L, g0, h, p)
  {
    assert VisitedKept(L, g0, g, L.numRows - 1, L.numCols - 1);
  }

  /** When the search at `p`, which is not the exit, has tried every
      neighbour, it has failed, and it has not entered the exit. */
  lemma SearchExhausted(L: Layout, g0: Grid, g: Grid, p: Pos)
    requires Searching(L, g0, g, p, |Neighbours(L, p)|) && p != Exit(L)
    ensures SearchFailed(L, g0, g, p) && !ExitEntered(L, g0, g, p)
  {
    assert Exhausted(L, g0, g, L.numRows - 1, L.numCols - 1);
    var ns := Neighbours(L, p);
    forall q | Passable(L, g, p, q) ensures g[q.0][q.1].visited {
      NeighboursExactly(L, p, q);
      var k :| 0 <= k < |ns| && ns[k] == q;
      assert Handled(L, g, p, ns[k]);
    }
    assert PassableNeighboursVisited(L, g, p.0, p.1);
    assert DeadEnd(L, g, p.0, p.1);
  }

  /** The position of the k-th adjacent cell of a well-formed grid is the k-th neighbour. */
  lemma AdjacentIndices(L: Layout, g: Grid, i: int, j: int)
    requires WellFormed(L, g) && InGrid(L, (i, j))
    ensures forall k :: 0 <= k < |AdjacentCells(L, g, i, j)| ==>
      AdjacentCells(L, g, i, j)[k].GetIJ() == Neighbours(L, (i, j))[k] &&
      InGrid(L, Neighbours(L, (i, j))[k]) && Direction((i, j), Neighbours(L, (i, j))[k]) != NoWall
  {
    forall k | 0 <= k < |AdjacentCells(L, g, i, j)|
      ensures AdjacentCells(L, g, i, j)[k].GetIJ() == Neighbours(L, (i, j))[k]
      ensures Direction((i, j), Neighbours(L, (i, j))[k]) != NoWall
    {
      NeighboursExactly(L, (i, j), Neighbours(L, (i, j))[k]);
    }
  }
}
