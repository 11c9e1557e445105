/** The grid of a maze as a value: its layout, neighbour enumeration, the
    geometric wall test and the wall query, and the predicates that describe a
    well-formed grid and its wall invariants. */
module Grids {
  import opened Wrappers
  import opened Cells

  /** The maze's fixed parameters: origin, dimensions and cell size in pixels. */
  datatype Layout = Layout(x1: int, y1: int, numRows: int, numCols: int, cellSizeX: int, cellSizeY: int)

  /** Rows of cells; `g[i][j]` is the cell in row i, column j. */
  type Grid = seq<seq<Cell>>

  /** A grid position (row, column). */
  type Pos = (int, int)

  /** Which wall of a cell faces another; `NoWall` is the "none" that `connected` returns. */
  datatype Wall = Top | Right | Bottom | Left | NoWall

  datatype MazeError = InvalidDimensions | NotConnected

  predicate InGrid(L: Layout, p: Pos)
  {
    0 <= p.0 < L.numRows && 0 <= p.1 < L.numCols
  }

  predicate Shaped(L: Layout, g: Grid)
  {
    |g| == L.numRows && forall r :: 0 <= r < |g| ==> |g[r]| == L.numCols
  }

  function Exit(L: Layout): Pos
  {
    (L.numRows - 1, L.numCols - 1)
  }

  /** Where cell (r, c) is drawn: origin plus size times index, one cell size wide and high. */
  function Corners(L: Layout, r: int, c: int): (Point, Point)
  {
    var x1 := L.x1 + L.cellSizeX * c;
    var y1 := L.y1 + L.cellSizeY * r;
    (Point(x1, y1), Point(x1 + L.cellSizeX, y1 + L.cellSizeY))
  }

  /** Cell (r, c) sits at its drawn corners. */
  predicate Placed(L: Layout, g: Grid, r: int, c: int)
    requires Shaped(L, g) && InGrid(L, (r, c))
  {
    g[r][c].GetPosition() == Corners(L, r, c)
  }

  /** A grid as built and drawn for a maze of at least one row and column with positive cell sizes. */
  predicate WellFormed(L: Layout, g: Grid)
  {
    L.numRows >= 1 && L.numCols >= 1 && L.cellSizeX > 0 && L.cellSizeY > 0 &&
    Shaped(L, g) &&
    (forall r, c :: 0 <= r < L.numRows && 0 <= c < L.numCols ==> g[r][c].GetIJ() == (r, c)) &&
    (forall r, c :: 0 <= r < L.numRows && 0 <= c < L.numCols ==> Placed(L, g, r, c))
  }

  /** The wall of the cell at `a` that faces `b`, by index difference alone. */
  function Direction(a: Pos, b: Pos): Wall
  {
    if b == (a.0 - 1, a.1) then Top
    else if b == (a.0 + 1, a.1) then Bottom
    else if b == (a.0, a.1 - 1) then Left
    else if b == (a.0, a.1 + 1) then Right
    else NoWall
  }

  function Opposite(w: Wall): Wall
  {
    match w
    case Top => Bottom
    case Bottom => Top
    case Left => Right
    case Right => Left
    case NoWall => NoWall
  }

  /** The flag of wall `w` of a cell. */
  function Facing(c: Cell, w: Wall): bool
  {
    match w
    case Top => c.hasTopWall
    case Right => c.hasRightWall
    case Bottom => c.hasBottomWall
    case Left => c.hasLeftWall
    case NoWall => false
  }

  /** A cell with the flag of wall `w` cleared: that wall no longer stands,
      the other walls, the indices, the corners and the visited flag are kept. */
  function ClearWall(c: Cell, w: Wall): (r: Cell)
    ensures w != NoWall ==> !Facing(r, w)
    ensures forall w' :: w' != w ==> Facing(r, w') == Facing(c, w')
    ensures r.GetIJ() == c.GetIJ() && r.GetPosition() == c.GetPosition() && r.visited == c.visited
    ensures WallsWithin(c, r)
  {
    match w
    case Top => c.(hasTopWall := false)
    case Right => c.(hasRightWall := false)
    case Bottom => c.(hasBottomWall := false)
    case Left => c.(hasLeftWall := false)
    case NoWall => c
  }

  /** The positions of `ps` that lie in the grid, in their order. */
  function InGridOnly(L: Layout, ps: seq<Pos>): seq<Pos>
  {
    if ps == [] then [] else (if InGrid(L, ps[0]) then [ps[0]] else []) + InGridOnly(L, ps[1..])
  }

  /** The reference enumeration: left, right, up, down, keeping those in the grid. */
  function Neighbours(L: Layout, p: Pos): seq<Pos>
  {
    InGridOnly(L, [(p.0, p.1 - 1), (p.0, p.1 + 1), (p.0 - 1, p.1), (p.0 + 1, p.1)])
  }

  /** adjacent_cells: the in-grid neighbours of (i, j), appended in the order
      left, right, up, down. */
  function AdjacentCells(L: Layout, g: Grid, i: int, j: int): (r: seq<Cell>)
    requires Shaped(L, g) && InGrid(L, (i, j))
    ensures |r| == |Neighbours(L, (i, j))|
    ensures forall k :: 0 <= k < |r| ==>
      InGrid(L, Neighbours(L, (i, j))[k]) &&
      r[k] == g[Neighbours(L, (i, j))[k].0][Neighbours(L, (i, j))[k].1]
  {
    var left := if j > 0 then [g[i][j - 1]] else [];
    var right := if j < L.numCols - 1 then [g[i][j + 1]] else [];
    var up := if i > 0 then [g[i - 1][j]] else [];
    var down := if i < L.numRows - 1 then [g[i + 1][j]] else [];
    NeighboursUnfolded(L, (i, j));
    left + right + up + down
  }

  /** Membership in a list of cells by the cells' structural equality. */
  predicate ContainsCell(s: seq<Cell>, c: Cell)
  {
    exists k :: 0 <= k < |s| && s[k].Equals(Some(c))
  }

  /** connected: for a cell among `cell1`'s neighbours, the wall of `cell1`
      whose corner coordinates meet `cell2`'s; the last matching test wins. */
  function Connected(L: Layout, g: Grid, cell1: Cell, cell2: Cell): Wall
    requires Shaped(L, g) && InGrid(L, cell1.GetIJ())
  {
    if ContainsCell(AdjacentCells(L, g, cell1.GetIJ().0, cell1.GetIJ().1), cell2) then
      Meeting(cell1.GetPosition(), cell2.GetPosition())
    else
      NoWall
  }

  /** The corner tests of `connected` on the corners `p1` of one cell and `p2`
      of another, in the order `connected` makes them, so that the last test that holds wins. */
  function Meeting(p1: (Point, Point), p2: (Point, Point)): Wall
  {
    var w0 := NoWall;
    var w1 := if p1.0 == Point(p2.0.x, p2.1.y) then Top else w0;
    var w2 := if p1.1 == Point(p2.0.x, p2.1.y) then Right else w1;
    var w3 := if p1.1 == Point(p2.1.x, p2.0.y) then Bottom else w2;
    if p1.0 == Point(p2.1.x, p2.0.y) then Left else w3
  }

  /** For neighbours drawn at their corners with nonzero cell sizes, the corner
      tests pick the wall given by the index difference. */
  lemma MeetingByIndex(L: Layout, a: Pos, b: Pos)
    requires L.cellSizeX != 0 && L.cellSizeY != 0 && Direction(a, b) != NoWall
    ensures Meeting(Corners(L, a.0, a.1), Corners(L, b.0, b.1)) == Direction(a, b)
  {
    var sx, sy := L.cellSizeX, L.cellSizeY;
    assert sx * (a.1 + 1) == sx * a.1 + sx && sx * (a.1 - 1) == sx * a.1 - sx;
    assert sy * (a.0 + 1) == sy * a.0 + sy && sy * (a.0 - 1) == sy * a.0 - sy;
  }

  /** With a zero cell size the corner tests name the wrong wall: at zero width
      the right neighbour is taken for the left one, at zero height the upper
      neighbour for the lower one. */
  lemma ZeroSizeMisnames(L: Layout)
    ensures L.cellSizeX == 0 && L.cellSizeY > 0 ==>
      Meeting(Corners(L, 0, 0), Corners(L, 0, 1)) == Left && Direction((0, 0), (0, 1)) == Right
    ensures L.cellSizeY == 0 && L.cellSizeX > 0 ==>
      Meeting(Corners(L, 1, 0), Corners(L, 0, 0)) == Bottom && Direction((1, 0), (0, 0)) == Top
  {
  }

  /** has_wall: the wall between two neighbours stands only if both facing
      flags are set; cells that are not neighbours are an error. */
  function HasWall(L: Layout, g: Grid, cell1: Cell, cell2: Cell): Result<bool, MazeError>
    requires Shaped(L, g) && InGrid(L, cell1.GetIJ())
  {
    match Connected(L, g, cell1, cell2)
    case Top => Success(cell1.hasTopWall && cell2.hasBottomWall)
    case Right => Success(cell1.hasRightWall && cell2.hasLeftWall)
    case Bottom => Success(cell1.hasBottomWall && cell2.hasTopWall)
    case Left => Success(cell1.hasLeftWall && cell2.hasRightWall)
    case NoWall => Failure(NotConnected)
  }

  /** One can step from `a` to the neighbour `b`: the wall between them does not stand. */
  predicate Passable(L: Layout, g: Grid, a: Pos, b: Pos)
  {
    InGrid(L, a) && InGrid(L, b) &&
    a.0 < |g| && a.1 < |g[a.0]| && b.0 < |g| && b.1 < |g[b.0]| &&
    Direction(a, b) != NoWall &&
    !(Facing(g[a.0][a.1], Direction(a, b)) && Facing(g[b.0][b.1], Opposite(Direction(a, b))))
  }

  /** The two flags of the wall between (r, c) and its right and lower neighbours agree. */
  predicate SymmetricAt(L: Layout, g: Grid, r: int, c: int)
    requires Shaped(L, g) && InGrid(L, (r, c))
  {
    (c + 1 < L.numCols ==> g[r][c].hasRightWall == g[r][c + 1].hasLeftWall) &&
    (r + 1 < L.numRows ==> g[r][c].hasBottomWall == g[r + 1][c].hasTopWall)
  }

  /** Every pair of neighbours agrees about the wall between them. */
  predicate Symmetric(L: Layout, g: Grid)
    requires Shaped(L, g)
  {
    forall r, c :: 0 <= r < L.numRows && 0 <= c < L.numCols ==> SymmetricAt(L, g, r, c)
  }

  /** The outer walls all stand, except the top of the entrance (0, 0) and the
      bottom of the exit. */
  predicate Boundary(L: Layout, g: Grid)
    requires Shaped(L, g) && L.numRows >= 1 && L.numCols >= 1
  {
    (forall r :: 0 <= r < L.numRows ==> SideWalls(L, g, r)) &&
    (forall c :: 0 <= c < L.numCols ==> EndWalls(L, g, c))
  }

  /** The left wall of row r's first cell and the right wall of its last stand. */
  predicate SideWalls(L: Layout, g: Grid, r: int)
    requires Shaped(L, g) && L.numCols >= 1 && 0 <= r < L.numRows
  {
    g[r][0].hasLeftWall && g[r][L.numCols - 1].hasRightWall
  }

  /** Column c's top wall stands unless it is the entrance, its bottom wall unless it is the exit. */
  predicate EndWalls(L: Layout, g: Grid, c: int)
    requires Shaped(L, g) && L.numRows >= 1 && 0 <= c < L.numCols
  {
    g[0][c].hasTopWall == (c != 0) && g[L.numRows - 1][c].hasBottomWall == (c != L.numCols - 1)
  }

  /** Every wall of cell (r, c) that faces a cell of the grid stands. */
  predicate Sealed(L: Layout, g: Grid, r: int, c: int)
    requires Shaped(L, g) && InGrid(L, (r, c))
  {
    (c > 0 ==> g[r][c].hasLeftWall) && (c < L.numCols - 1 ==> g[r][c].hasRightWall) &&
    (r > 0 ==> g[r][c].hasTopWall) && (r < L.numRows - 1 ==> g[r][c].hasBottomWall)
  }

  /** Every unvisited cell other than `p` is sealed. */
  predicate SealedExcept(L: Layout, g: Grid, p: Pos)
    requires Shaped(L, g)
  {
    forall r, c :: 0 <= r < L.numRows && 0 <= c < L.numCols ==> SealedUnlessVisited(L, g, p, r, c)
  }

  predicate SealedUnlessVisited(L: Layout, g: Grid, p: Pos, r: int, c: int)
    requires Shaped(L, g) && InGrid(L, (r, c))
  {
    !g[r][c].visited && (r, c) != p ==> Sealed(L, g, r, c)
  }

  /** Every grid neighbour of (r, c) is visited. */
  predicate NeighboursVisited(L: Layout, g: Grid, r: int, c: int)
    requires Shaped(L, g) && InGrid(L, (r, c))
  {
    (c > 0 ==> g[r][c - 1].visited) && (c < L.numCols - 1 ==> g[r][c + 1].visited) &&
    (r > 0 ==> g[r - 1][c].visited) && (r < L.numRows - 1 ==> g[r + 1][c].visited)
  }

  /** All four walls of the cell stand. */
  predicate AllWalls(c: Cell)
  {
    c.hasLeftWall && c.hasRightWall && c.hasTopWall && c.hasBottomWall
  }

  predicate NoneVisited(L: Layout, g: Grid)
    requires Shaped(L, g)
  {
    forall r, c :: 0 <= r < L.numRows && 0 <= c < L.numCols ==> !g[r][c].visited
  }

  /** Every wall that stands in `h` stands in `g`: `h` has only lost walls. */
  predicate WallsWithin(cg: Cell, ch: Cell)
  {
    (ch.hasLeftWall ==> cg.hasLeftWall) && (ch.hasRightWall ==> cg.hasRightWall) &&
    (ch.hasTopWall ==> cg.hasTopWall) && (ch.hasBottomWall ==> cg.hasBottomWall)
  }

  predicate FewerWalls(L: Layout, g: Grid, h: Grid)
    requires Shaped(L, g) && Shaped(L, h)
  {
    forall r, c :: 0 <= r < L.numRows && 0 <= c < L.numCols ==> WallsWithinAt(L, g, h, r, c)
  }

  predicate WallsWithinAt(L: Layout, g: Grid, h: Grid, r: int, c: int)
    requires Shaped(L, g) && Shaped(L, h) && InGrid(L, (r, c))
  {
    WallsWithin(g[r][c], h[r][c])
  }

  /** No cell visited in `g` is unvisited in `h`. */
  predicate VisitedGrows(L: Layout, g: Grid, h: Grid)
    requires Shaped(L, g) && Shaped(L, h)
  {
    forall r, c :: 0 <= r < L.numRows && 0 <= c < L.numCols ==> VisitedKept(L, g, h, r, c)
  }

  predicate VisitedKept(L: Layout, g: Grid, h: Grid, r: int, c: int)
    requires Shaped(L, g) && Shaped(L, h) && InGrid(L, (r, c))
  {
    g[r][c].visited ==> h[r][c].visited
  }

  /** `g` and `h` differ at most in visited flags. */
  predicate SameExceptVisited(L: Layout, g: Grid, h: Grid)
    requires Shaped(L, g) && Shaped(L, h)
  {
    forall r, c :: 0 <= r < L.numRows && 0 <= c < L.numCols ==> g[r][c].Equals(Some(h[r][c]))
  }

  /** `toVisit` holds exactly the unvisited cells among the first `k` of `s`. */
  predicate UnvisitedAmong(s: seq<Cell>, k: int, toVisit: seq<Cell>)
    requires 0 <= k <= |s|
  {
    (forall x :: x in toVisit ==> x in s[..k] && !x.visited) &&
    (forall k' :: 0 <= k' < k && !s[k'].visited ==> s[k'] in toVisit)
  }

  /** Carving one passage: clear the facing flags of `a` and `b`, chosen by index difference. */
  function OpenBetween(L: Layout, g: Grid, a: Pos, b: Pos): (h: Grid)
    requires Shaped(L, g) && InGrid(L, a) && InGrid(L, b) && a != b
    ensures Shaped(L, h)
  {
    var d := Direction(a, b);
    var g1 := g[a.0 := g[a.0][a.1 := ClearWall(g[a.0][a.1], d)]];
    g1[b.0 := g1[b.0][b.1 := ClearWall(g1[b.0][b.1], Opposite(d))]]
  }

  // ---------------------------------------------------------------------------
  // Lemmas

  lemma NeighboursUnfolded(L: Layout, p: Pos)
    requires InGrid(L, p)
    ensures Neighbours(L, p) ==
      (if p.1 > 0 then [(p.0, p.1 - 1)] else []) + (if p.1 < L.numCols - 1 then [(p.0, p.1 + 1)] else []) +
      (if p.0 > 0 then [(p.0 - 1, p.1)] else []) + (if p.0 < L.numRows - 1 then [(p.0 + 1, p.1)] else [])
  {
    var a, b, c, d := (p.0, p.1 - 1), (p.0, p.1 + 1), (p.0 - 1, p.1), (p.0 + 1, p.1);
    assert [a, b, c, d][1..] == [b, c, d] && [b, c, d][1..] == [c, d] && [c, d][1..] == [d] && [d][1..] == [];
    assert InGridOnly(L, [d]) == (if InGrid(L, d) then [d] else []);
    assert InGridOnly(L, [c, d]) == (if InGrid(L, c) then [c] else []) + InGridOnly(L, [d]);
    assert InGridOnly(L, [b, c, d]) == (if InGrid(L, b) then [b] else []) + InGridOnly(L, [c, d]);
    assert InGridOnly(L, [a, b, c, d]) == (if InGrid(L, a) then [a] else []) + InGridOnly(L, [b, c, d]);
  }

  lemma {:induction false} InGridOnlyMembers(L: Layout, ps: seq<Pos>, q: Pos)
    ensures q in InGridOnly(L, ps) <==> q in ps && InGrid(L, q)
    decreases |ps|
  {
    if ps != [] {
      InGridOnlyMembers(L, ps[1..], q);
      assert ps == [ps[0]] + ps[1..];
    }
  }

  /** The neighbours are exactly the cells of the grid one step away. */
  lemma NeighboursExactly(L: Layout, p: Pos, q: Pos)
    ensures q in Neighbours(L, p) <==> InGrid(L, q) && Direction(p, q) != NoWall
  {
    InGridOnlyMembers(L, [(p.0, p.1 - 1), (p.0, p.1 + 1), (p.0 - 1, p.1), (p.0 + 1, p.1)], q);
  }

  /** A 1 x 1 grid has no neighbours. */
  lemma NoNeighboursInOneCell(L: Layout)
    requires L.numRows == 1 && L.numCols == 1
    ensures Neighbours(L, (0, 0)) == []
  {
    if Neighbours(L, (0, 0)) != [] {
      var q := Neighbours(L, (0, 0))[0];
      NeighboursExactly(L, (0, 0), q);
    }
  }

  /** In a well-formed grid two cells are equal exactly when they are at the same position. */
  lemma GridCellsEqualIffSamePos(L: Layout, g: Grid, a: Pos, b: Pos)
    requires WellFormed(L, g) && InGrid(L, a) && InGrid(L, b)
    ensures g[a.0][a.1].Equals(Some(g[b.0][b.1])) <==> a == b
  {
    assert Placed(L, g, a.0, a.1) && Placed(L, g, b.0, b.1);
  }

  lemma ContainsNeighbour(L: Layout, g: Grid, a: Pos, b: Pos)
    requires WellFormed(L, g) && InGrid(L, a) && InGrid(L, b)
    ensures ContainsCell(AdjacentCells(L, g, a.0, a.1), g[b.0][b.1]) <==> Direction(a, b) != NoWall
  {
    var adj := AdjacentCells(L, g, a.0, a.1);
    var ns := Neighbours(L, a);
    NeighboursExactly(L, a, b);
    if ContainsCell(adj, g[b.0][b.1]) {
      var k :| 0 <= k < |adj| && adj[k].Equals(Some(g[b.0][b.1]));
      GridCellsEqualIffSamePos(L, g, ns[k], b);
    }
    if Direction(a, b) != NoWall {
      var k :| 0 <= k < |ns| && ns[k] == b;
      GridCellsEqualIffSamePos(L, g, b, b);
      assert adj[k].Equals(Some(g[b.0][b.1]));
    }
  }

  /** With positive cell sizes, the geometric test of `connected` picks the wall
      given by the index difference, and "none" for cells that are not neighbours. */
  lemma ConnectedByIndex(L: Layout, g: Grid, a: Pos, b: Pos)
    requires WellFormed(L, g) && InGrid(L, a) && InGrid(L, b)
    ensures Connected(L, g, g[a.0][a.1], g[b.0][b.1]) == Direction(a, b)
  {
    assert Placed(L, g, a.0, a.1) && Placed(L, g, b.0, b.1);
    ContainsNeighbour(L, g, a, b);
    if Direction(a, b) != NoWall {
      MeetingByIndex(L, a, b);
    }
  }

  /** has_wall between the cells at `a` and `b`: an error unless they are
      neighbours, otherwise whether both facing flags stand. */
  lemma HasWallByIndex(L: Layout, g: Grid, a: Pos, b: Pos)
    requires WellFormed(L, g) && InGrid(L, a) && InGrid(L, b)
    ensures HasWall(L, g, g[a.0][a.1], g[b.0][b.1]).Failure? <==> Direction(a, b) == NoWall
    ensures HasWall(L, g, g[a.0][a.1], g[b.0][b.1]).Failure? ==>
      HasWall(L, g, g[a.0][a.1], g[b.0][b.1]).error == NotConnected
    ensures HasWall(L, g, g[a.0][a.1], g[b.0][b.1]).Success? ==>
      HasWall(L, g, g[a.0][a.1], g[b.0][b.1]).value ==
        (Facing(g[a.0][a.1], Direction(a, b)) && Facing(g[b.0][b.1], Opposite(Direction(a, b))))
    ensures HasWall(L, g, g[a.0][a.1], g[b.0][b.1]).Success? ==>
      HasWall(L, g, g[a.0][a.1], g[b.0][b.1]).value == !Passable(L, g, a, b)
  {
    assert Placed(L, g, a.0, a.1);
    ConnectedByIndex(L, g, a, b);
  }

  /** When every cell next to (i, j) is visited, so is every grid neighbour. */
  lemma AdjacentAllVisited(L: Layout, g: Grid, i: int, j: int)
    requires Shaped(L, g) && InGrid(L, (i, j))
    requires forall x :: x in AdjacentCells(L, g, i, j) ==> x.visited
    ensures NeighboursVisited(L, g, i, j)
  {
    var adj, ns := AdjacentCells(L, g, i, j), Neighbours(L, (i, j));
    forall q | InGrid(L, q) && Direction((i, j), q) != NoWall ensures g[q.0][q.1].visited {
      NeighboursExactly(L, (i, j), q);
      var k :| 0 <= k < |ns| && ns[k] == q;
      assert adj[k] in adj;
    }
    assert Direction((i, j), (i, j - 1)) == Left && Direction((i, j), (i, j + 1)) == Right;
    assert Direction((i, j), (i - 1, j)) == Top && Direction((i, j), (i + 1, j)) == Bottom;
  }

  /** One more step of collecting the unvisited cells of `s`. */
  lemma UnvisitedAmongStep(s: seq<Cell>, k: int, toVisit: seq<Cell>)
    requires 0 <= k < |s| && UnvisitedAmong(s, k, toVisit)
    ensures UnvisitedAmong(s, k + 1, if s[k].visited then toVisit else toVisit + [s[k]])
  {
  }

  /** A cell collected as an unvisited neighbour of (i, j) is the grid cell at
      its own indices, a neighbour of (i, j) in the grid, and unvisited. */
  lemma UnvisitedNeighbour(L: Layout, g: Grid, i: int, j: int, toVisit: seq<Cell>, x: Cell)
    requires WellFormed(L, g) && InGrid(L, (i, j))
    requires UnvisitedAmong(AdjacentCells(L, g, i, j), |AdjacentCells(L, g, i, j)|, toVisit) && x in toVisit
    ensures InGrid(L, x.GetIJ()) && Direction((i, j), x.GetIJ()) != NoWall
    ensures x == g[x.i][x.j] && !x.visited
  {
    var adj := AdjacentCells(L, g, i, j);
    var k :| 0 <= k < |adj| && adj[k] == x;
    NeighboursExactly(L, (i, j), Neighbours(L, (i, j))[k]);
  }
}
