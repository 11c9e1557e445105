/** The maze object: it builds its grid of cells, opens the entrance and the
    exit, carves a perfect maze with a randomised depth-first backtracker,
    clears the visited flags and solves the maze by depth-first search. */
module Mazes {
  import opened Wrappers
  import opened Cells
  import opened Grids
  import opened Counting
  import opened Paths
  import opened Carving
  import opened Solving

  /** The cell `_create_cells` makes for (r, c), before it is drawn. */
  function Undrawn(r: int, c: int): Cell
  {
    NewCell().(i := r, j := c)
  }

  /** That cell after `_draw_cell` has placed it. */
  function Drawn(L: Layout, r: int, c: int): Cell
  {
    Undrawn(r, c).Draw(Some(Corners(L, r, c).0), Some(Corners(L, r, c).1))
  }

  /** A freshly built grid is well formed: every cell carries its own indices,
      sits at its corners, keeps all four walls and is unvisited. */
  lemma DrawnGrid(L: Layout, g: Grid)
    requires L.numRows >= 1 && L.numCols >= 1 && L.cellSizeX > 0 && L.cellSizeY > 0 && Shaped(L, g)
    requires forall r, c :: 0 <= r < L.numRows && 0 <= c < L.numCols ==> g[r][c] == Drawn(L, r, c)
    ensures WellFormed(L, g)
    ensures forall r, c :: 0 <= r < L.numRows && 0 <= c < L.numCols ==> AllWalls(g[r][c]) && !g[r][c].visited
  {
    forall r, c | 0 <= r < L.numRows && 0 <= c < L.numCols
      ensures g[r][c].GetIJ() == (r, c) && g[r][c].GetPosition() == Corners(L, r, c)
      ensures AllWalls(g[r][c]) && !g[r][c].visited
    {
      DrawThenGetPosition(Undrawn(r, c), Corners(L, r, c).0, Corners(L, r, c).1);
    }
  }

  /** The two wall updates of `_break_entrance_and_exit`, cell by cell. */
  lemma EntranceExitAt(L: Layout, g: Grid, h: Grid, r: int, c: int)
    requires Shaped(L, g) && L.numRows >= 1 && L.numCols >= 1 && InGrid(L, (r, c))
    requires h == var g1 := g[0 := g[0][0 := g[0][0].(hasTopWall := false)]];
      g1[L.numRows - 1 := g1[L.numRows - 1][L.numCols - 1 := g1[L.numRows - 1][L.numCols - 1].(hasBottomWall := false)]]
    ensures h[r][c] == g[r][c].(hasTopWall := g[r][c].hasTopWall && (r, c) != (0, 0),
                                hasBottomWall := g[r][c].hasBottomWall && (r, c) != Exit(L))
  {
  }

  /** Every cell of `g` has all four walls and is unvisited. */
  ghost predicate Untouched(L: Layout, g: Grid)
    requires Shaped(L, g)
  {
    forall r, c :: 0 <= r < L.numRows && 0 <= c < L.numCols ==> AllWalls(g[r][c]) && !g[r][c].visited
  }

  /** `h` is `g` with the top wall of the entrance and the bottom wall of the
      exit removed. */
  ghost predicate EndsOpened(L: Layout, g: Grid, h: Grid)
    requires Shaped(L, g)
  {
    Shaped(L, h) &&
    forall r, c :: 0 <= r < L.numRows && 0 <= c < L.numCols ==>
      h[r][c] == g[r][c].(hasTopWall := g[r][c].hasTopWall && (r, c) != (0, 0),
                          hasBottomWall := g[r][c].hasBottomWall && (r, c) != Exit(L))
  }

  /** The cells of the grid carving starts from: each sealed, unvisited, with
      its own indices and corners and flags that agree with its neighbours. */
  lemma CarvingStartCells(L: Layout, g: Grid, h: Grid)
    requires WellFormed(L, g) && Untouched(L, g) && EndsOpened(L, g, h)
    ensures WellFormed(L, h) && Symmetric(L, h) && SealedExcept(L, h, (0, 0)) && NoneVisited(L, h)
    ensures forall r, c :: 0 <= r < L.numRows && 0 <= c < L.numCols ==> Sealed(L, h, r, c) && !h[r][c].visited
  {
    forall r, c | 0 <= r < L.numRows && 0 <= c < L.numCols
      ensures Sealed(L, h, r, c) && !h[r][c].visited && SymmetricAt(L, h, r, c)
      ensures SealedUnlessVisited(L, h, (0, 0), r, c) && h[r][c].GetIJ() == (r, c) && Placed(L, h, r, c)
    {
      assert AllWalls(g[r][c]) && Placed(L, g, r, c);
      if c + 1 < L.numCols { assert AllWalls(g[r][c + 1]); }
      if r + 1 < L.numRows { assert AllWalls(g[r + 1][c]); }
    }
  }

  /** Its outer walls: all stand but the entrance's top and the exit's bottom. */
  lemma CarvingStartBoundary(L: Layout, g: Grid, h: Grid)
    requires WellFormed(L, g) && Untouched(L, g) && EndsOpened(L, g, h)
    ensures Boundary(L, h)
  {
    forall r | 0 <= r < L.numRows ensures SideWalls(L, h, r) {
      assert AllWalls(g[r][0]) && AllWalls(g[r][L.numCols - 1]);
    }
    forall c | 0 <= c < L.numCols ensures EndWalls(L, h, c) {
      assert AllWalls(g[0][c]) && AllWalls(g[L.numRows - 1][c]);
    }
  }

  /** The grid carving starts from, once entrance and exit are open: ready to
      carve from the entrance, no cell visited, no internal wall open and
      R * C cells unvisited. */
  lemma CarvingStart(L: Layout, g: Grid, h: Grid)
    requires WellFormed(L, g) && Untouched(L, g) && EndsOpened(L, g, h)
    ensures ReadyToCarve(L, h, (0, 0)) && NoneVisited(L, h)
    ensures OpenWallCount(L, h) == 0 && UnvisitedCount(L, h) == L.numRows * L.numCols
  {
    CarvingStartCells(L, g, h);
    CarvingStartBoundary(L, g, h);
    StartCounts(L, h);
  }

  /** Resetting the visited flags has one possible outcome: a grid that differs
      from the old one only in visited flags and has none set. */
  lemma {:induction false} ResetOutcomeUnique(L: Layout, g: Grid, h: Grid, h': Grid)
    requires Shaped(L, g) && Shaped(L, h) && Shaped(L, h')
    requires SameExceptVisited(L, g, h) && NoneVisited(L, h)
    requires SameExceptVisited(L, g, h') && NoneVisited(L, h')
    ensures h == h'
  {
    forall r | 0 <= r < L.numRows ensures h[r] == h'[r] {
      forall c | 0 <= c < L.numCols ensures h[r][c] == h'[r][c] {
        EqualsIgnoresOnlyVisited(g[r][c], h[r][c]);
        EqualsIgnoresOnlyVisited(g[r][c], h'[r][c]);
      }
    }
  }

  /** Resetting twice is resetting once. */
  lemma ResetIdempotent(L: Layout, g: Grid, h: Grid, h': Grid)
    requires Shaped(L, g) && Shaped(L, h) && Shaped(L, h')
    requires SameExceptVisited(L, g, h) && NoneVisited(L, h)
    requires SameExceptVisited(L, h, h') && NoneVisited(L, h')
    ensures h' == h
  {
    forall r, c | 0 <= r < L.numRows && 0 <= c < L.numCols ensures h[r][c].Equals(Some(h[r][c])) {
      EqualsIsEquivalence(h[r][c], h[r][c], h[r][c], false);
    }
    ResetOutcomeUnique(L, h, h, h');
  }

  /** Writing a cell back unchanged leaves the grid as it was. */
  lemma WriteBackSame(g: Grid, i: int, j: int, c: Cell)
    requires 0 <= i < |g| && 0 <= j < |g[i]| && c == g[i][j]
    ensures g[i := g[i][j := c]] == g
  {
    assert g[i][j := c] == g[i];
  }

  /** Drawing a well-formed grid's cell again at its own corners changes nothing. */
  lemma RedrawInPlace(L: Layout, g: Grid, i: int, j: int)
    requires WellFormed(L, g) && InGrid(L, (i, j))
    ensures g[i := g[i][j := g[i][j].Draw(Some(Corners(L, i, j).0), Some(Corners(L, i, j).1))]] == g
  {
    assert Placed(L, g, i, j);
    DrawThenGetPosition(g[i][j], Corners(L, i, j).0, Corners(L, i, j).1);
    WriteBackSame(g, i, j, g[i][j]);
  }

  class Maze {
    const x1: int
    const y1: int
    const numRows: int
    const numCols: int
    const cellSizeX: int
    const cellSizeY: int
    var cells: Grid

    /** The drawing layout the grid helpers take: origin, size and cell sizes. */
    const shape: Layout := Layout(x1, y1, numRows, numCols, cellSizeX, cellSizeY)

    /** `Maze(...)` once the size check of `__init__` has passed: build the
        grid, open the entrance and the exit, carve the maze from (0, 0), clear
        the visited flags and solve it from (0, 0). The result is a perfect
        maze, every cell reachable from the entrance and R * C - 1 internal
        walls open, and the search reaches the exit. */
    constructor (x1: int, y1: int, numRows: int, numCols: int, cellSizeX: int, cellSizeY: int)
      requires numRows >= 1 && numCols >= 1 && cellSizeX > 0 && cellSizeY > 0
      ensures this.x1 == x1 && this.y1 == y1 && this.numRows == numRows && this.numCols == numCols
      ensures this.cellSizeX == cellSizeX && this.cellSizeY == cellSizeY
      ensures PerfectMaze(shape, cells) && ReachedExit(shape, cells, (0, 0))
    {
      this.x1, this.y1, this.numRows, this.numCols := x1, y1, numRows, numCols;
      this.cellSizeX, this.cellSizeY := cellSizeX, cellSizeY;
      cells := [];
      new;
      CreateCells();
      ghost var created := cells;
      BreakEntranceAndExit();
      CarvingStart(shape, created, cells);
      ghost var ends := cells;
      BreakWalls(0, 0);
      CarvingCoversGrid(shape, ends, cells);
      ghost var carved := cells;
      ResetVisited();
      SameMaze(shape, carved, cells);
      ghost var reset := cells;
      var solved := Solve(0, 0);
      SameMaze(shape, reset, cells);
      assert Reachable(shape, cells, (0, 0), Exit(shape));
      SearchFromEntranceFindsExit(shape, reset, cells);
      assert solved;
    }

    /** `Maze(...)` with its size check: `ValueError` unless there is at least
        one row and one column, and otherwise the maze the constructor builds. */
    static method Create(x1: int, y1: int, numRows: int, numCols: int, cellSizeX: int, cellSizeY: int)
      returns (r: Result<Maze, MazeError>)
      requires cellSizeX > 0 && cellSizeY > 0
      ensures r.Failure? <==> numRows < 1 || numCols < 1
      ensures r.Failure? ==> r.error == InvalidDimensions
      ensures r.Success? ==> fresh(r.value) && r.value.numRows == numRows && r.value.numCols == numCols
      ensures r.Success? ==> r.value.x1 == x1 && r.value.y1 == y1
      ensures r.Success? ==> r.value.cellSizeX == cellSizeX && r.value.cellSizeY == cellSizeY
      ensures r.Success? ==> PerfectMaze(r.value.shape, r.value.cells) && ReachedExit(r.value.shape, r.value.cells, (0, 0))
    {
      if numCols > 0 && numRows > 0 {
        var m := new Maze(x1, y1, numRows, numCols, cellSizeX, cellSizeY);
        r := Success(m);
      } else {
        r := Failure(InvalidDimensions);
      }
    }

    /** `_create_cells`: lay out numRows rows of numCols fresh cells, each told
        its indices, then draw every cell at its place. */
    method CreateCells()
      requires cells == [] && numRows >= 1 && numCols >= 1 && cellSizeX > 0 && cellSizeY > 0
      modifies this
      ensures WellFormed(shape, cells)
      ensures forall r, c :: 0 <= r < numRows && 0 <= c < numCols ==> AllWalls(cells[r][c]) && !cells[r][c].visited
    {
      for i := 0 to numRows
        invariant |cells| == i
        invariant forall r :: 0 <= r < i ==> |cells[r]| == numCols
        invariant forall r, c :: 0 <= r < i && 0 <= c < numCols ==> cells[r][c] == Undrawn(r, c)
      {
        var col: seq<Cell> := [];
        for j := 0 to numCols
          invariant |col| == j
          invariant forall c :: 0 <= c < j ==> col[c] == Undrawn(i, c)
        {
          var cell := NewCell();
          cell := cell.(i := i);
          cell := cell.(j := j);
          col := col + [cell];
        }
        cells := cells + [col];
      }
      for i := 0 to numRows
        invariant Shaped(shape, cells)
        invariant forall r, c :: 0 <= r < numRows && 0 <= c < numCols ==>
          cells[r][c] == if r < i then Drawn(shape, r, c) else Undrawn(r, c)
      {
        for j := 0 to numCols
          invariant Shaped(shape, cells)
          invariant forall r, c :: 0 <= r < numRows && 0 <= c < numCols ==>
            cells[r][c] == if r < i || (r == i && c < j) then Drawn(shape, r, c) else Undrawn(r, c)
        {
          DrawCell(i, j);
        }
      }
      DrawnGrid(shape, cells);
    }

    /** `_draw_cell`: draw cell (i, j) with its top-left corner at the origin
        plus the cell size times its column and row, one cell size wide and high. */
    method DrawCell(i: int, j: int)
      requires Shaped(shape, cells) && InGrid(shape, (i, j))
      modifies this
      ensures Shaped(shape, cells)
      ensures cells == old(cells)[i := old(cells)[i][j := old(cells)[i][j].Draw(
        Some(Corners(shape, i, j).0), Some(Corners(shape, i, j).1))]]
      ensures cells[i][j].GetPosition() == Corners(shape, i, j)
    {
      var x1 := this.x1 + cellSizeX * j;
      var x2 := x1 + cellSizeX;
      var y1 := this.y1 + cellSizeY * i;
      var y2 := y1 + cellSizeY;
      var p1, p2 := Point(x1, y1), Point(x2, y2);
      cells := cells[i := cells[i][j := cells[i][j].Draw(Some(p1), Some(p2))]];
    }

    /** `_break_entrance_and_exit`: clear the top wall of (0, 0), then the
        bottom wall of the last cell (the same cell in a 1 x 1 maze), and
        redraw both where they are. */
    method BreakEntranceAndExit()
      requires Shaped(shape, cells) && numRows >= 1 && numCols >= 1
      modifies this
      ensures Shaped(shape, cells)
      ensures forall r, c :: 0 <= r < numRows && 0 <= c < numCols ==>
        cells[r][c] == old(cells)[r][c].(
          hasTopWall := old(cells)[r][c].hasTopWall && (r, c) != (0, 0),
          hasBottomWall := old(cells)[r][c].hasBottomWall && (r, c) != Exit(shape))
    {
      var e := Exit(shape);
      ghost var g0: Grid := cells;
      cells := cells[0 := cells[0][0 := cells[0][0].(hasTopWall := false)]];
      cells := cells[e.0 := cells[e.0][e.1 := cells[e.0][e.1].(hasBottomWall := false)]];
      ghost var g2: Grid := cells;
      var entrance := cells[0][0];
      DrawThenGetPosition(entrance, entrance.GetPosition().0, entrance.GetPosition().1);
      assert g2[0][0 := entrance] == g2[0];
      cells := cells[0 := cells[0][0 := entrance.Draw(Some(entrance.GetPosition().0), Some(entrance.GetPosition().1))]];
      assert cells == g2;
      var mazeExit := cells[e.0][e.1];
      DrawThenGetPosition(mazeExit, mazeExit.GetPosition().0, mazeExit.GetPosition().1);
      assert g2[e.0][e.1 := mazeExit] == g2[e.0];
      cells := cells[e.0 := cells[e.0][e.1 := mazeExit.Draw(Some(mazeExit.GetPosition().0), Some(mazeExit.GetPosition().1))]];
      assert cells == g2;
      forall r, c | 0 <= r < numRows && 0 <= c < numCols
        ensures cells[r][c] == g0[r][c].(hasTopWall := g0[r][c].hasTopWall && (r, c) != (0, 0),
                                         hasBottomWall := g0[r][c].hasBottomWall && (r, c) != e)
      {
        EntranceExitAt(shape, g0, g2, r, c);
      }
    }

    /** `_break_walls_r`: mark (i, j) visited; while it has unvisited
        neighbours, pick one of them (any one when there are several), knock
        down the wall between the two cells and carve on from the neighbour. */
    method BreakWalls(i: int, j: int)
      requires ReadyToCarve(shape, cells, (i, j))
      modifies this
      ensures Carved(shape, old(cells), cells, (i, j))
      decreases UnvisitedCount(shape, cells) + (if cells[i][j].visited then 1 else 0), 2
    {
      var currentCell := cells[i][j];
      currentCell := currentCell.(visited := true);
      cells := cells[i := cells[i][j := currentCell]];
      CarveStart(shape, old(cells), (i, j), cells);
      CarveNeighbours(i, j, old(cells));
    }

    /** The loop of `_break_walls_r` at (i, j): collect the unvisited adjacent
        cells; stop when there are none, otherwise carve towards one of them
        and go round again. `g0` is the grid as the carving at (i, j) found it. */
    method CarveNeighbours(i: int, j: int, ghost g0: Grid)
      requires CarvingFrom(shape, g0, cells, (i, j))
      modifies this
      ensures Carved(shape, g0, cells, (i, j))
      decreases UnvisitedCount(shape, g0) + (if g0[i][j].visited then 1 else 0), 1
    {
      while true
        invariant CarvingFrom(shape, g0, cells, (i, j))
        decreases UnvisitedCount(shape, cells)
      {
        var adj := AdjacentCells(shape, cells, i, j);
        var toVisit: seq<Cell> := [];
        for k := 0 to |adj|
          invariant UnvisitedAmong(adj, k, toVisit)
          modifies {}
        {
          UnvisitedAmongStep(adj, k, toVisit);
          if !adj[k].visited {
            toVisit := toVisit + [adj[k]];
          }
        }
        if toVisit == [] {
          // `current_cell.draw()` with no corners leaves the cell as it is
          // (DrawThenGetPosition), so the grid does not change here.
          CarvingDone(shape, g0, cells, (i, j));
          break;
        }
        var rand := 0;
        if |toVisit| > 1 {
          rand :| 0 <= rand < |toVisit|;
        }
        UnvisitedNeighbour(shape, cells, i, j, toVisit, toVisit[rand]);
        CarveTowards(i, j, toVisit[rand].GetIJ(), g0);
      }
    }

    /** One round of that loop after the neighbour `b` is chosen: knock down the
        wall between (i, j) and `b` and carve on from `b`. */
    method CarveTowards(i: int, j: int, b: Pos, ghost g0: Grid)
      requires CarvingFrom(shape, g0, cells, (i, j))
      requires InGrid(shape, b) && Direction((i, j), b) != NoWall && !cells[b.0][b.1].visited
      modifies this
      ensures CarvingFrom(shape, g0, cells, (i, j)) && UnvisitedCount(shape, cells) < old(UnvisitedCount(shape, cells))
      decreases UnvisitedCount(shape, g0) + (if g0[i][j].visited then 1 else 0), 0
    {
      ghost var g: Grid := cells;
      CarveOpen(shape, g0, g, (i, j), b);
      KnockDownWall(i, j, b.0, b.1);
      BreakWalls(b.0, b.1);
      CarveStep(shape, g0, g, cells, (i, j), b);
    }

    /** The carving step of `_break_walls_r` towards the chosen neighbour
        (toI, toJ): ask `connected` which wall of (i, j) faces it, clear that
        flag on (i, j) and the opposite one on the neighbour, then redraw
        (i, j). The wall name `connected` returns is never the error case. */
    method KnockDownWall(i: int, j: int, toI: int, toJ: int)
      requires WellFormed(shape, cells) && InGrid(shape, (i, j)) && InGrid(shape, (toI, toJ))
      requires Direction((i, j), (toI, toJ)) != NoWall
      modifies this
      ensures cells == OpenBetween(shape, old(cells), (i, j), (toI, toJ))
    {
      var L := shape;
      ghost var g1: Grid := cells;
      var toCell := cells[toI][toJ];
      var connectorWall := Connected(L, cells, cells[i][j], toCell);
      ConnectedByIndex(L, cells, (i, j), (toI, toJ));
      if connectorWall == NoWall {
        assert false;
      }
      var current := ClearWall(cells[i][j], connectorWall);
      var target := ClearWall(toCell, Opposite(connectorWall));
      cells := cells[i := cells[i][j := current]];
      assert cells[toI][toJ] == g1[toI][toJ];
      cells := cells[toI := cells[toI][toJ := target]];
      assert cells == OpenBetween(L, g1, (i, j), (toI, toJ));
      OpenBetweenCells(L, g1, (i, j), (toI, toJ));
      RedrawInPlace(L, cells, i, j);
      DrawCell(i, j);
    }

    /** `_solve_r`: depth-first search for the exit from (i, j). Mark the cell
        visited; stop with success at the exit; otherwise try, in the order of
        `adjacent_cells`, every neighbour with no wall in between that is still
        unvisited, and succeed as soon as one of those searches does. The list
        of neighbours holds the grid's own cells, so each one's visited flag is
        read as it is when the loop reaches it. */
    method Solve(i: int, j: int) returns (found: bool)
      requires WellFormed(shape, cells) && InGrid(shape, (i, j))
      modifies this
      ensures Explored(shape, old(cells), cells, (i, j))
      ensures found ==> ReachedExit(shape, cells, (i, j))
      ensures !found ==> SearchFailed(shape, old(cells), cells, (i, j))
      ensures found <==> ExitEntered(shape, old(cells), cells, (i, j))
      ensures (i, j) == Exit(shape) ==>
        found && cells == old(cells)[i := old(cells)[i][j := old(cells)[i][j].(visited := true)]]
      decreases UnvisitedCount(shape, cells) + (if cells[i][j].visited then 1 else 0), 2
    {
      var currentCell := cells[i][j];
      var current := currentCell.GetIJ();
      var endCell := cells[numRows - 1][numCols - 1];
      cells := cells[i := cells[i][j := currentCell.(visited := true)]];
      SearchStart(shape, old(cells), (i, j), cells);
      if cells[i][j].Equals(Some(endCell)) {
        SearchAtExit(shape, old(cells), cells, (i, j));
        return true;
      }
      var adj := AdjacentCells(shape, cells, current.0, current.1);
      AdjacentIndices(shape, cells, i, j);
      found := SearchNeighbours(i, j, adj, old(cells));
    }

    /** The loop of `_solve_r` at (i, j), over the list `adj` of its adjacent
        cells: stop with success as soon as the search from one of them
        reaches the exit, and fail once all are tried. `g0` is the grid as
        the search at (i, j) found it. */
    method SearchNeighbours(i: int, j: int, adj: seq<Cell>, ghost g0: Grid) returns (found: bool)
      requires Searching(shape, g0, cells, (i, j), 0) && (i, j) != Exit(shape)
      requires |adj| == |Neighbours(shape, (i, j))|
      requires forall k :: 0 <= k < |adj| ==> adj[k].GetIJ() == Neighbours(shape, (i, j))[k]
      modifies this
      ensures Explored(shape, g0, cells, (i, j))
      ensures found ==> ReachedExit(shape, cells, (i, j))
      ensures !found ==> SearchFailed(shape, g0, cells, (i, j))
      ensures found <==> ExitEntered(shape, g0, cells, (i, j))
      decreases UnvisitedCount(shape, g0) + (if g0[i][j].visited then 1 else 0), 1
    {
      for k := 0 to |adj|
        invariant Searching(shape, g0, cells, (i, j), k)
      {
        found := TryNeighbour(i, j, k, adj[k].GetIJ(), g0);
        if found {
          return;
        }
      }
      SearchExhausted(shape, g0, cells, (i, j));
      return false;
    }

    /** One round of that loop: the k-th neighbour `n` is searched from when no
        wall stands in between and it is unvisited; the round reports whether
        that search reached the exit. */
    method TryNeighbour(i: int, j: int, k: int, n: Pos, ghost g0: Grid) returns (found: bool)
      requires Searching(shape, g0, cells, (i, j), k)
      requires k < |Neighbours(shape, (i, j))| && Neighbours(shape, (i, j))[k] == n
      modifies this
      ensures found ==> Explored(shape, g0, cells, (i, j))
      ensures found ==> ReachedExit(shape, cells, (i, j)) && ExitEntered(shape, g0, cells, (i, j))
      ensures !found ==> Searching(shape, g0, cells, (i, j), k + 1)
      decreases UnvisitedCount(shape, g0) + (if g0[i][j].visited then 1 else 0), 0
    {
      NeighboursExactly(shape, (i, j), n);
      var cell := cells[n.0][n.1];
      var wall := HasWall(shape, cells, cells[i][j], cell);
      HasWallByIndex(shape, cells, (i, j), n);
      if wall.Failure? {
        assert false;
      }
      if !wall.value && !cell.visited {
        ghost var g: Grid := cells;
        found := Solve(n.0, n.1);
        if found {
          NeighbourFound(shape, g0, g, cells, (i, j), k, n);
        } else {
          NeighbourSearched(shape, g0, g, cells, (i, j), k, n);
        }
      } else {
        found := false;
        NeighbourSkipped(shape, g0, cells, (i, j), k, n);
      }
    }

    /** `_reset_visited`: clear the visited flag of every cell, row by row. */
    method ResetVisited()
      requires Shaped(shape, cells)
      modifies this
      ensures Shaped(shape, cells) && SameExceptVisited(shape, old(cells), cells)
      ensures NoneVisited(shape, cells)
    {
      for i := 0 to numRows
        invariant Shaped(shape, cells) && SameExceptVisited(shape, old(cells), cells)
        invariant forall r, c :: 0 <= r < i && 0 <= c < numCols ==> !cells[r][c].visited
      {
        assert |cells[i]| == numCols;
        for j := 0 to numCols
          invariant Shaped(shape, cells) && SameExceptVisited(shape, old(cells), cells)
          invariant forall r, c :: 0 <= r < numRows && 0 <= c < numCols && (r < i || (r == i && c < j)) ==>
            !cells[r][c].visited
        {
          cells := cells[i := cells[i][j := cells[i][j].(visited := false)]];
        }
      }
    }
  }
}
