/** What one carving step does to a grid, and why a carving that leaves every
    visited cell with only visited neighbours has visited the whole grid. */
module Carving {
  import opened Wrappers
  import opened Cells
  import opened Grids
  import opened Counting
  import opened Paths

  lemma OpenBetweenAt(L: Layout, g: Grid, a: Pos, b: Pos, r: int, c: int)
    requires Shaped(L, g) && InGrid(L, a) && InGrid(L, b) && a != b && InGrid(L, (r, c))
    ensures OpenBetween(L, g, a, b)[r][c].GetIJ() == g[r][c].GetIJ()
    ensures OpenBetween(L, g, a, b)[r][c].GetPosition() == g[r][c].GetPosition()
    ensures OpenBetween(L, g, a, b)[r][c].visited == g[r][c].visited
    ensures WallsWithin(g[r][c], OpenBetween(L, g, a, b)[r][c])
  {
    OpenBetweenValue(L, g, a, b, r, c);
  }

  /** Carving keeps the grid well formed, only removes walls, leaves the
      visited flags alone and makes the two cells passable to each other. */
  lemma OpenBetweenCells(L: Layout, g: Grid, a: Pos, b: Pos)
    requires WellFormed(L, g) && InGrid(L, a) && InGrid(L, b) && Direction(a, b) != NoWall
    ensures WellFormed(L, OpenBetween(L, g, a, b))
    ensures FewerWalls(L, g, OpenBetween(L, g, a, b))
    ensures Passable(L, OpenBetween(L, g, a, b), a, b)
    ensures forall r, c :: 0 <= r < L.numRows && 0 <= c < L.numCols ==>
      OpenBetween(L, g, a, b)[r][c].visited == g[r][c].visited
  {
    var h: Grid := OpenBetween(L, g, a, b);
    forall r: int, c: int | 0 <= r < L.numRows && 0 <= c < L.numCols
      ensures h[r][c].GetIJ() == (r, c) && Placed(L, h, r, c)
      ensures WallsWithinAt(L, g, h, r, c) && h[r][c].visited == g[r][c].visited
    {
      OpenBetweenAt(L, g, a, b, r, c);
      assert Placed(L, g, r, c);
    }
    assert h[a.0][a.1] == ClearWall(g[a.0][a.1], Direction(a, b));
  }

  /** The cell of `OpenBetween` at (r, c) in terms of the cells of `g`. */
  lemma OpenBetweenValue(L: Layout, g: Grid, a: Pos, b: Pos, r: int, c: int)
    requires Shaped(L, g) && InGrid(L, a) && InGrid(L, b) && a != b && InGrid(L, (r, c))
    ensures OpenBetween(L, g, a, b)[r][c] ==
      if (r, c) == a then ClearWall(g[a.0][a.1], Direction(a, b))
      else if (r, c) == b then ClearWall(g[b.0][b.1], Opposite(Direction(a, b)))
      else g[r][c]
  {
  }

  /** Carving keeps the two sides of every internal wall in agreement. */
  lemma OpenBetweenSymmetric(L: Layout, g: Grid, a: Pos, b: Pos)
    requires Shaped(L, g) && L.numRows >= 1 && L.numCols >= 1 && InGrid(L, a) && InGrid(L, b) && Direction(a, b) != NoWall
    requires Symmetric(L, g)
    ensures Symmetric(L, OpenBetween(L, g, a, b))
  {
    var h: Grid := OpenBetween(L, g, a, b);
    forall r: int, c: int | 0 <= r < L.numRows && 0 <= c < L.numCols ensures SymmetricAt(L, h, r, c) {
      assert SymmetricAt(L, g, r, c);
      OpenBetweenValue(L, g, a, b, r, c);
      if c + 1 < L.numCols {
        OpenBetweenValue(L, g, a, b, r, c + 1);
      }
      if r + 1 < L.numRows {
        OpenBetweenValue(L, g, a, b, r + 1, c);
      }
    }
  }

  /** A wall of (r, c) that faces out of the grid keeps its flag when carving. */
  lemma OuterWallKept(L: Layout, g: Grid, a: Pos, b: Pos, r: int, c: int, w: Wall)
    requires Shaped(L, g) && InGrid(L, a) && InGrid(L, b) && Direction(a, b) != NoWall && InGrid(L, (r, c))
    requires w == Top ==> r == 0
    requires w == Bottom ==> r == L.numRows - 1
    requires w == Left ==> c == 0
    requires w == Right ==> c == L.numCols - 1
    ensures Facing(OpenBetween(L, g, a, b)[r][c], w) == Facing(g[r][c], w)
  {
    OpenBetweenValue(L, g, a, b, r, c);
  }

  /** Carving never touches an outer wall. */
  lemma OpenBetweenBoundary(L: Layout, g: Grid, a: Pos, b: Pos)
    requires Shaped(L, g) && L.numRows >= 1 && L.numCols >= 1 && InGrid(L, a) && InGrid(L, b) && Direction(a, b) != NoWall
    requires Boundary(L, g)
    ensures Boundary(L, OpenBetween(L, g, a, b))
  {
    var h: Grid := OpenBetween(L, g, a, b);
    forall r: int | 0 <= r < L.numRows ensures SideWalls(L, h, r) {
      assert SideWalls(L, g, r);
      OuterWallKept(L, g, a, b, r, 0, Left);
      OuterWallKept(L, g, a, b, r, L.numCols - 1, Right);
    }
    forall c: int | 0 <= c < L.numCols ensures EndWalls(L, h, c) {
      assert EndWalls(L, g, c);
      OuterWallKept(L, g, a, b, 0, c, Top);
      OuterWallKept(L, g, a, b, L.numRows - 1, c, Bottom);
    }
  }

  /** Carving from a visited cell leaves sealed every unvisited cell but the one entered. */
  lemma OpenBetweenSealed(L: Layout, g: Grid, a: Pos, b: Pos)
    requires Shaped(L, g) && L.numRows >= 1 && L.numCols >= 1 && InGrid(L, a) && InGrid(L, b) && Direction(a, b) != NoWall
    requires SealedExcept(L, g, a) && g[a.0][a.1].visited
    ensures SealedExcept(L, OpenBetween(L, g, a, b), b)
  {
    var h: Grid := OpenBetween(L, g, a, b);
    forall r: int, c: int | 0 <= r < L.numRows && 0 <= c < L.numCols ensures SealedUnlessVisited(L, h, b, r, c) {
      OpenBetweenValue(L, g, a, b, r, c);
      assert SealedUnlessVisited(L, g, a, r, c);
    }
  }

  /** Next to a sealed cell, both flags of the wall between stand. */
  lemma BothFlagsStand(L: Layout, g: Grid, a: Pos, b: Pos)
    requires Shaped(L, g) && InGrid(L, a) && InGrid(L, b) && Direction(a, b) != NoWall
    requires SymmetricAt(L, g, a.0, a.1) && SymmetricAt(L, g, b.0, b.1) && Sealed(L, g, b.0, b.1)
    ensures Facing(g[a.0][a.1], Direction(a, b)) && Facing(g[b.0][b.1], Opposite(Direction(a, b)))
  {
  }

  /** Clearing the wall between two neighbours whose facing flags both stand
      adds one to their open-wall weights. */
  lemma WeightGain(L: Layout, a: Pos, b: Pos, ca: Cell, cb: Cell)
    requires InGrid(L, a) && InGrid(L, b) && Direction(a, b) != NoWall
    requires Facing(ca, Direction(a, b)) && Facing(cb, Opposite(Direction(a, b)))
    ensures Weight(L, OpenWalls, a.0, a.1, ClearWall(ca, Direction(a, b))) +
            Weight(L, OpenWalls, b.0, b.1, ClearWall(cb, Opposite(Direction(a, b)))) ==
            Weight(L, OpenWalls, a.0, a.1, ca) + Weight(L, OpenWalls, b.0, b.1, cb) + 1
  {
  }

  /** Carving from a visited cell into a sealed unvisited neighbour opens
      exactly one more internal wall and visits nothing. */
  lemma OpenBetweenCounts(L: Layout, g: Grid, a: Pos, b: Pos)
    requires Shaped(L, g) && L.numRows >= 1 && L.numCols >= 1 && InGrid(L, a) && InGrid(L, b) && Direction(a, b) != NoWall
    requires Symmetric(L, g) && SealedExcept(L, g, a)
    requires g[a.0][a.1].visited && !g[b.0][b.1].visited
    ensures OpenWallCount(L, OpenBetween(L, g, a, b)) == OpenWallCount(L, g) + 1
    ensures UnvisitedCount(L, OpenBetween(L, g, a, b)) == UnvisitedCount(L, g)
  {
    var d := Direction(a, b);
    assert SealedUnlessVisited(L, g, a, b.0, b.1);
    assert SymmetricAt(L, g, a.0, a.1) && SymmetricAt(L, g, b.0, b.1);
    var x := ClearWall(g[a.0][a.1], d);
    var g1 := g[a.0 := g[a.0][a.1 := x]];
    var y := ClearWall(g1[b.0][b.1], Opposite(d));
    assert OpenBetween(L, g, a, b) == g1[b.0 := g1[b.0][b.1 := y]];
    assert g1[b.0][b.1] == g[b.0][b.1];
    GridSumUpdate(L, OpenWalls, g, a.0, a.1, x);
    GridSumUpdate(L, OpenWalls, g1, b.0, b.1, y);
    GridSumUpdate(L, UnvisitedCells, g, a.0, a.1, x);
    GridSumUpdate(L, UnvisitedCells, g1, b.0, b.1, y);
    BothFlagsStand(L, g, a, b);
    WeightGain(L, a, b, g[a.0][a.1], g[b.0][b.1]);
  }

  /** Grid connectivity: if (0, 0) is visited and every visited cell has only
      visited neighbours, every cell is visited. */
  lemma {:induction false} VisitedEverywhere(L: Layout, g: Grid, r: int, c: int)
    requires Shaped(L, g) && InGrid(L, (r, c)) && g[0][0].visited
    requires forall r', c' :: 0 <= r' < L.numRows && 0 <= c' < L.numCols && g[r'][c'].visited ==>
      NeighboursVisited(L, g, r', c')
    ensures g[r][c].visited
    decreases r + c
  {
    if c > 0 {
      VisitedEverywhere(L, g, r, c - 1);
      assert NeighboursVisited(L, g, r, c - 1);
    } else if r > 0 {
      VisitedEverywhere(L, g, r - 1, c);
      assert NeighboursVisited(L, g, r - 1, c);
    }
  }

  /** Removing walls never closes an open one. */
  lemma OpenWallsMono(L: Layout, g: Grid, h: Grid)
    requires Shaped(L, g) && Shaped(L, h) && FewerWalls(L, g, h)
    ensures OpenWallCount(L, g) <= OpenWallCount(L, h)
  {
    forall r, c | 0 <= r < |g| && 0 <= c < |g[r]|
      ensures Weight(L, OpenWalls, r, c, g[r][c]) <= Weight(L, OpenWalls, r, c, h[r][c])
    {
      assert WallsWithinAt(L, g, h, r, c);
    }
    GridSumMono(L, OpenWalls, g, h);
  }

  /** Visiting cells never adds unvisited ones. */
  lemma UnvisitedMono(L: Layout, g: Grid, h: Grid)
    requires Shaped(L, g) && Shaped(L, h) && VisitedGrows(L, g, h)
    ensures UnvisitedCount(L, h) <= UnvisitedCount(L, g)
  {
    forall r, c | 0 <= r < |h| && 0 <= c < |h[r]|
      ensures Weight(L, UnvisitedCells, r, c, h[r][c]) <= Weight(L, UnvisitedCells, r, c, g[r][c])
    {
      assert VisitedKept(L, g, h, r, c);
    }
    GridSumMono(L, UnvisitedCells, h, g);
  }

  /** A grid whose cells all keep their internal walls and none of which is
      visited has no open wall and R * C unvisited cells. */
  lemma StartCounts(L: Layout, g: Grid)
    requires Shaped(L, g) && L.numRows >= 1 && L.numCols >= 1
    requires forall r, c :: 0 <= r < L.numRows && 0 <= c < L.numCols ==> Sealed(L, g, r, c) && !g[r][c].visited
    ensures OpenWallCount(L, g) == 0
    ensures UnvisitedCount(L, g) == L.numRows * L.numCols
  {
    forall r, c | 0 <= r < |g| && 0 <= c < |g[r]| ensures Weight(L, OpenWalls, r, c, g[r][c]) == 0 {
      assert Sealed(L, g, r, c);
    }
    GridSumConst(L, OpenWalls, g, L.numCols, 0);
    GridSumConst(L, UnvisitedCells, g, L.numCols, 1);
  }

  /** A grid whose cells are all visited has no unvisited cell. */
  lemma AllVisitedCount(L: Layout, g: Grid)
    requires Shaped(L, g) && L.numRows >= 1 && L.numCols >= 1
    requires forall r, c :: 0 <= r < L.numRows && 0 <= c < L.numCols ==> g[r][c].visited
    ensures UnvisitedCount(L, g) == 0
  {
    GridSumConst(L, UnvisitedCells, g, L.numCols, 0);
  }

  /** Setting the visited flag of one cell changes that flag and nothing else. */
  lemma MarkVisitedAt(L: Layout, g: Grid, p: Pos, h: Grid, r: int, c: int)
    requires Shaped(L, g) && InGrid(L, p) && InGrid(L, (r, c))
    requires h == g[p.0 := g[p.0][p.1 := g[p.0][p.1].(visited := true)]]
    ensures h[r][c] == if (r, c) == p then g[r][c].(visited := true) else g[r][c]
  {
  }

  /** Setting the visited flag of one cell keeps the grid well formed and its
      walls as they are. */
  lemma MarkVisited(L: Layout, g: Grid, p: Pos, h: Grid)
    requires WellFormed(L, g) && InGrid(L, p)
    requires h == g[p.0 := g[p.0][p.1 := g[p.0][p.1].(visited := true)]]
    ensures WellFormed(L, h) && SameExceptVisited(L, g, h)
    ensures FewerWalls(L, g, h) && VisitedGrows(L, g, h) && h[p.0][p.1].visited
    ensures forall r, c :: 0 <= r < L.numRows && 0 <= c < L.numCols && (r, c) != p ==> h[r][c] == g[r][c]
  {
    forall r: int, c: int | 0 <= r < L.numRows && 0 <= c < L.numCols
      ensures h[r][c] == if (r, c) == p then g[r][c].(visited := true) else g[r][c]
      ensures h[r][c].GetIJ() == (r, c) && Placed(L, h, r, c) && g[r][c].Equals(Some(h[r][c]))
      ensures WallsWithinAt(L, g, h, r, c) && VisitedKept(L, g, h, r, c)
    {
      MarkVisitedAt(L, g, p, h, r, c);
      assert Placed(L, g, r, c);
    }
  }

  /** ... and keeps the wall invariants. */
  lemma MarkVisitedSymmetric(L: Layout, g: Grid, p: Pos, h: Grid)
    requires Shaped(L, g) && InGrid(L, p) && Symmetric(L, g)
    requires h == g[p.0 := g[p.0][p.1 := g[p.0][p.1].(visited := true)]]
    ensures Symmetric(L, h)
  {
    forall r: int, c: int | 0 <= r < L.numRows && 0 <= c < L.numCols ensures SymmetricAt(L, h, r, c) {
      assert SymmetricAt(L, g, r, c);
      MarkVisitedAt(L, g, p, h, r, c);
      if r + 1 < L.numRows { MarkVisitedAt(L, g, p, h, r + 1, c); }
      if c + 1 < L.numCols { MarkVisitedAt(L, g, p, h, r, c + 1); }
    }
  }

  lemma MarkVisitedBoundary(L: Layout, g: Grid, p: Pos, h: Grid)
    requires Shaped(L, g) && L.numRows >= 1 && L.numCols >= 1 && InGrid(L, p) && Boundary(L, g)
    requires h == g[p.0 := g[p.0][p.1 := g[p.0][p.1].(visited := true)]]
    ensures Boundary(L, h)
  {
    forall r: int | 0 <= r < L.numRows ensures SideWalls(L, h, r) {
      assert SideWalls(L, g, r);
      MarkVisitedAt(L, g, p, h, r, 0);
      MarkVisitedAt(L, g, p, h, r, L.numCols - 1);
    }
    forall c: int | 0 <= c < L.numCols ensures EndWalls(L, h, c) {
      assert EndWalls(L, g, c);
      MarkVisitedAt(L, g, p, h, 0, c);
      MarkVisitedAt(L, g, p, h, L.numRows - 1, c);
    }
  }

  lemma MarkVisitedCounts(L: Layout, g: Grid, p: Pos, h: Grid)
    requires Shaped(L, g) && InGrid(L, p)
    requires h == g[p.0 := g[p.0][p.1 := g[p.0][p.1].(visited := true)]]
    ensures OpenWallCount(L, h) == OpenWallCount(L, g)
    ensures UnvisitedCount(L, h) + (if g[p.0][p.1].visited then 0 else 1) == UnvisitedCount(L, g)
  {
    GridSumUpdate(L, OpenWalls, g, p.0, p.1, g[p.0][p.1].(visited := true));
    GridSumUpdate(L, UnvisitedCells, g, p.0, p.1, g[p.0][p.1].(visited := true));
  }

  /** What carving from `a` promises about cell (r, c) if it was visited since
      `g0`: every grid neighbour is visited and the cell can be reached from `a`. */
  ghost predicate CarvedFrom(L: Layout, g0: Grid, g: Grid, a: Pos, r: int, c: int)
    requires Shaped(L, g0) && Shaped(L, g) && InGrid(L, (r, c))
  {
    !g0[r][c].visited && g[r][c].visited ==> NeighboursVisited(L, g, r, c) && Reachable(L, g, a, (r, c))
  }

  /** The counting side of one carving step from `a` into `b`: opening the
      wall adds one open wall, the recursive carving from the unvisited `b`
      trades each newly visited cell for one more open wall, so the sum of
      open walls and unvisited cells stays as it was and fewer cells remain
      unvisited. */
  lemma CarveStepCounts(L: Layout, g0: Grid, g1: Grid, g2: Grid, g3: Grid, a: Pos, b: Pos)
    requires Shaped(L, g0) && Shaped(L, g2) && Shaped(L, g3) && InGrid(L, a) && InGrid(L, b)
    requires OpenWallCount(L, g1) + UnvisitedCount(L, g1) + (if g0[a.0][a.1].visited then 0 else 1) ==
      OpenWallCount(L, g0) + UnvisitedCount(L, g0)
    requires OpenWallCount(L, g2) == OpenWallCount(L, g1) + 1 && UnvisitedCount(L, g2) == UnvisitedCount(L, g1)
    requires !g2[b.0][b.1].visited && FewerWalls(L, g2, g3)
    requires OpenWallCount(L, g3) + UnvisitedCount(L, g3) + (if g2[b.0][b.1].visited then 0 else 1) ==
      OpenWallCount(L, g2) + UnvisitedCount(L, g2)
    ensures OpenWallCount(L, g3) + UnvisitedCount(L, g3) + (if g0[a.0][a.1].visited then 0 else 1) ==
      OpenWallCount(L, g0) + UnvisitedCount(L, g0)
    ensures UnvisitedCount(L, g3) < UnvisitedCount(L, g1)
  {
    OpenWallsMono(L, g2, g3);
  }

  /** Once the cell a search moved to is visited, the cells it leaves sealed are
      sealed for the cell it came from too. */
  lemma SealedExceptMoves(L: Layout, g: Grid, a: Pos, b: Pos)
    requires Shaped(L, g) && InGrid(L, b) && g[b.0][b.1].visited && SealedExcept(L, g, b)
    ensures SealedExcept(L, g, a)
  {
    forall r, c | 0 <= r < L.numRows && 0 <= c < L.numCols ensures SealedUnlessVisited(L, g, a, r, c) {
      assert SealedUnlessVisited(L, g, b, r, c);
    }
  }

  /** The facts `_break_walls_r` keeps about the cells visited since it
      started at `a` survive one carving step into `b` followed by the
      recursive carving from `b`. */
  lemma CarveStepKept(L: Layout, g0: Grid, g1: Grid, g2: Grid, g3: Grid, a: Pos, b: Pos)
    requires Shaped(L, g0) && Shaped(L, g1) && Shaped(L, g2) && Shaped(L, g3)
    requires InGrid(L, a) && InGrid(L, b) && Passable(L, g2, a, b)
    requires forall r, c :: 0 <= r < L.numRows && 0 <= c < L.numCols ==> g2[r][c].visited == g1[r][c].visited
    requires FewerWalls(L, g0, g1) && VisitedGrows(L, g0, g1) && FewerWalls(L, g1, g2)
    requires forall r, c :: 0 <= r < L.numRows && 0 <= c < L.numCols && (r, c) != a ==> CarvedFrom(L, g0, g1, a, r, c)
    requires FewerWalls(L, g2, g3) && VisitedGrows(L, g2, g3)
    requires forall r, c :: 0 <= r < L.numRows && 0 <= c < L.numCols ==> CarvedFrom(L, g2, g3, b, r, c)
    ensures FewerWalls(L, g0, g3) && VisitedGrows(L, g0, g3)
    ensures forall r, c :: 0 <= r < L.numRows && 0 <= c < L.numCols && (r, c) != a ==> CarvedFrom(L, g0, g3, a, r, c)
  {
    PassableMono(L, g2, g3, a, b);
    forall r, c | 0 <= r < L.numRows && 0 <= c < L.numCols
      ensures WallsWithinAt(L, g0, g3, r, c) && VisitedKept(L, g0, g3, r, c)
      ensures WallsWithinAt(L, g1, g3, r, c) && VisitedKept(L, g1, g3, r, c)
    {
      assert WallsWithinAt(L, g0, g1, r, c) && WallsWithinAt(L, g1, g2, r, c) && WallsWithinAt(L, g2, g3, r, c);
      assert VisitedKept(L, g0, g1, r, c) && VisitedKept(L, g2, g3, r, c);
    }
    assert FewerWalls(L, g1, g3) && VisitedGrows(L, g1, g3);
    forall r, c | 0 <= r < L.numRows && 0 <= c < L.numCols && (r, c) != a && !g0[r][c].visited && g3[r][c].visited
      ensures CarvedFrom(L, g0, g3, a, r, c)
    {
      if g2[r][c].visited {
        assert CarvedFrom(L, g0, g1, a, r, c);
        KeepsNeighboursVisited(L, g1, g3, r, c);
        ReachableMono(L, g1, g3, a, (r, c));
      } else {
        assert CarvedFrom(L, g2, g3, b, r, c);
        ReachablePrepend(L, g3, a, b, (r, c));
      }
    }
  }

  lemma KeepsNeighboursVisited(L: Layout, g: Grid, h: Grid, r: int, c: int)
    requires Shaped(L, g) && Shaped(L, h) && InGrid(L, (r, c)) && VisitedGrows(L, g, h)
    requires NeighboursVisited(L, g, r, c)
    ensures NeighboursVisited(L, h, r, c)
  {
    if c > 0 { assert VisitedKept(L, g, h, r, c - 1); }
    if c < L.numCols - 1 { assert VisitedKept(L, g, h, r, c + 1); }
    if r > 0 { assert VisitedKept(L, g, h, r - 1, c); }
    if r < L.numRows - 1 { assert VisitedKept(L, g, h, r + 1, c); }
  }

  lemma MarkVisitedSealed(L: Layout, g: Grid, p: Pos, h: Grid)
    requires Shaped(L, g) && InGrid(L, p) && SealedExcept(L, g, p)
    requires h == g[p.0 := g[p.0][p.1 := g[p.0][p.1].(visited := true)]]
    ensures SealedExcept(L, h, p)
  {
    forall r, c | 0 <= r < L.numRows && 0 <= c < L.numCols ensures SealedUnlessVisited(L, h, p, r, c) {
      MarkVisitedAt(L, g, p, h, r, c);
      assert SealedUnlessVisited(L, g, p, r, c);
    }
  }

  /** What `_break_walls_r` at `p` needs of the grid: well-formed, matching
      wall flags, outer walls in place, and every cell still walled in except
      `p` and those already visited. */
  ghost predicate ReadyToCarve(L: Layout, g: Grid, p: Pos)
  {
    WellFormed(L, g) && InGrid(L, p) && Symmetric(L, g) && Boundary(L, g) && SealedExcept(L, g, p)
  }

  /** What the carving at `p`, started on grid `g0`, keeps true in every round
      of its loop: `p` is visited and the grid still ready for it; walls were
      only removed and visited flags only set; every other cell visited since
      `g0` has all its neighbours visited and can be reached from `p`; and
      each cell newly visited came with exactly one opened wall. */
  ghost predicate CarvingFrom(L: Layout, g0: Grid, g: Grid, p: Pos)
  {
    WellFormed(L, g0) && ReadyToCarve(L, g, p) && g[p.0][p.1].visited &&
    FewerWalls(L, g0, g) && VisitedGrows(L, g0, g) &&
    (forall r, c :: 0 <= r < L.numRows && 0 <= c < L.numCols && (r, c) != p ==> CarvedFrom(L, g0, g, p, r, c)) &&
    OpenWallCount(L, g) + UnvisitedCount(L, g) + (if g0[p.0][p.1].visited then 0 else 1) ==
      OpenWallCount(L, g0) + UnvisitedCount(L, g0)
  }

  /** What a finished carving at `p` leaves: the loop's facts, now for `p` too. */
  ghost predicate Carved(L: Layout, g0: Grid, g: Grid, p: Pos)
  {
    CarvingFrom(L, g0, g, p) &&
    forall r, c :: 0 <= r < L.numRows && 0 <= c < L.numCols ==> CarvedFrom(L, g0, g, p, r, c)
  }

  /** Marking `p` visited starts the carving at `p`. */
  lemma CarveStart(L: Layout, g0: Grid, p: Pos, g: Grid)
    requires ReadyToCarve(L, g0, p)
    requires g == g0[p.0 := g0[p.0][p.1 := g0[p.0][p.1].(visited := true)]]
    ensures CarvingFrom(L, g0, g, p)
  {
    MarkVisited(L, g0, p, g);
    MarkVisitedSymmetric(L, g0, p, g);
    MarkVisitedBoundary(L, g0, p, g);
    MarkVisitedCounts(L, g0, p, g);
    MarkVisitedSealed(L, g0, p, g);
  }

  /** While carving from `a`, fewer cells are unvisited than when it started,
      counting `a` itself as unvisited then. */
  lemma CarveMeasure(L: Layout, g0: Grid, g: Grid, a: Pos)
    requires CarvingFrom(L, g0, g, a)
    ensures UnvisitedCount(L, g) + 1 <= UnvisitedCount(L, g0) + (if g0[a.0][a.1].visited then 1 else 0)
  {
    OpenWallsMono(L, g0, g);
  }

  /** When no neighbour of `a` is left unvisited, the carving at `a` is finished. */
  lemma CarvingDone(L: Layout, g0: Grid, g: Grid, a: Pos)
    requires CarvingFrom(L, g0, g, a)
    requires UnvisitedAmong(AdjacentCells(L, g, a.0, a.1), |AdjacentCells(L, g, a.0, a.1)|, [])
    ensures Carved(L, g0, g, a)
  {
    AdjacentAllVisited(L, g, a.0, a.1);
    ReachableSelf(L, g, a);
    assert CarvedFrom(L, g0, g, a, a.0, a.1);
  }

  /** Opening the wall from `a` to an unvisited neighbour `b` leaves the grid
      ready to carve from `b`, with the same visited cells. */
  lemma CarveOpen(L: Layout, g0: Grid, g: Grid, a: Pos, b: Pos)
    requires CarvingFrom(L, g0, g, a)
    requires InGrid(L, b) && Direction(a, b) != NoWall && !g[b.0][b.1].visited
    ensures ReadyToCarve(L, OpenBetween(L, g, a, b), b) && !OpenBetween(L, g, a, b)[b.0][b.1].visited
    ensures UnvisitedCount(L, OpenBetween(L, g, a, b)) + 1 <= UnvisitedCount(L, g0) + (if g0[a.0][a.1].visited then 1 else 0)
  {
    OpenBetweenCells(L, g, a, b);
    OpenBetweenSymmetric(L, g, a, b);
    OpenBetweenBoundary(L, g, a, b);
    OpenBetweenSealed(L, g, a, b);
    OpenBetweenCounts(L, g, a, b);
    CarveMeasure(L, g0, g, a);
  }

  /** One round of the loop: after opening the wall to `b` and finishing the
      carving from `b`, the loop's facts hold again and fewer cells are
      unvisited. */
  lemma CarveStep(L: Layout, g0: Grid, g: Grid, h: Grid, a: Pos, b: Pos)
    requires CarvingFrom(L, g0, g, a)
    requires InGrid(L, b) && Direction(a, b) != NoWall && !g[b.0][b.1].visited
    requires Carved(L, OpenBetween(L, g, a, b), h, b)
    ensures CarvingFrom(L, g0, h, a) && UnvisitedCount(L, h) < UnvisitedCount(L, g)
  {
    var g2 := OpenBetween(L, g, a, b);
    OpenBetweenCells(L, g, a, b);
    OpenBetweenCounts(L, g, a, b);
    assert VisitedKept(L, g2, h, a.0, a.1);
    CarveStepCounts(L, g0, g, g2, h, a, b);
    CarveStepKept(L, g0, g, g2, h, a, b);
    SealedExceptMoves(L, h, a, b);
  }

  /** A perfect maze: well-formed and carrying its outer walls, with every cell
      reachable from the entrance (0, 0) and R * C - 1 internal walls open,
      one per cell but the first. */
  ghost predicate PerfectMaze(L: Layout, g: Grid)
  {
    WellFormed(L, g) && Symmetric(L, g) && Boundary(L, g) &&
    OpenWallCount(L, g) == L.numRows * L.numCols - 1 &&
    forall r, c :: 0 <= r < L.numRows && 0 <= c < L.numCols ==> Reachable(L, g, (0, 0), (r, c))
  }

  /** Carving from the entrance of a grid with no open wall and no visited cell
      visits every cell and leaves a perfect maze. */
  lemma CarvingCoversGrid(L: Layout, g0: Grid, g: Grid)
    requires Carved(L, g0, g, (0, 0))
    requires NoneVisited(L, g0) && OpenWallCount(L, g0) == 0 && UnvisitedCount(L, g0) == L.numRows * L.numCols
    ensures PerfectMaze(L, g)
    ensures forall r, c :: 0 <= r < L.numRows && 0 <= c < L.numCols ==> g[r][c].visited
  {
    forall r, c | 0 <= r < L.numRows && 0 <= c < L.numCols && g[r][c].visited
      ensures NeighboursVisited(L, g, r, c)
    {
      assert CarvedFrom(L, g0, g, (0, 0), r, c) && !g0[r][c].visited;
    }
    forall r, c | 0 <= r < L.numRows && 0 <= c < L.numCols
      ensures g[r][c].visited && Reachable(L, g, (0, 0), (r, c))
    {
      VisitedEverywhere(L, g, r, c);
      assert CarvedFrom(L, g0, g, (0, 0), r, c) && !g0[r][c].visited;
    }
    AllVisitedCount(L, g);
    assert !g0[0][0].visited;
  }
}
