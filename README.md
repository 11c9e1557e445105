# MazeSolver: maze topology, carving and solving

This project models the maze core of a Python maze generator and solver, and
proves properties of the model in Dafny.

- `Cell` (cell.py) is a grid cell. It has four wall flags, the two corners where it was
  last drawn, its indices `i, j`, and a `visited` flag.
- `Maze` (maze.py) builds a grid of `num_rows` by `num_cols` cells and opens the top wall
  of the entrance (0, 0) and the bottom wall of the exit (R-1, C-1).
- `_break_walls_r` then carves a maze by randomised depth-first backtracking.
- `_reset_visited` clears the visited flags, and `_solve_r` searches depth-first from
  (0, 0) for the exit.

maze_solver.py holds a copy of both classes. The model follows cell.py and maze.py.

The model:

- **Cells** (cell.dfy). `Cell` is a datatype value. `Equals` is Python's `Cell.__eq__`, and
  `None` stands for an argument that is not a cell. `Draw` is the part of `draw` that
  changes the cell.
- **Grids** (grid.dfy). A grid is `seq<seq<Cell>>` for a `Layout`: origin, dimensions and
  cell sizes. This module holds `adjacent_cells`, `connected` with its corner tests, and
  `has_wall`, whose "not connected" error becomes a `Result`. It also holds the predicates
  that describe the wall invariants.
- **Counting**, **Paths** (counting.dfy, paths.dfy):
  - Counting sums the open internal walls and the unvisited cells over a grid.
  - Paths defines a path as a sequence of steps through walls that do not stand, and
    reachability as the existence of such a path.
- **Carving**, **Solving** (carving.dfy, solving.dfy). These hold the invariants that
  carving and solving keep, and the lemmas that prove them.
- **Mazes** (maze.dfy). `Maze` is a class whose `cells` field its methods reassign. The
  recursive `_break_walls_r` and `_solve_r` are recursive methods that are mutually
  recursive with their loops. The loop of each is a method of its own, and so is one
  round of that loop.

What is proved about the whole constructor: the carved grid is a perfect maze.
- Every cell is reachable from the entrance.
- Exactly R * C - 1 internal walls are open, so the passages form a spanning tree.
- The two flags of every internal wall agree.
- All outer walls stand except the entrance's top and the exit's bottom.

The search from (0, 0) after the reset always reaches the exit.

## Model

| member | source | states |
|---|---|---|
| Cells.Cell.Equals | cell.py:22-36 | no contract of its own; EqualsIgnoresOnlyVisited states that it is equality with `visited` erased and false for a non-cell, and EqualsIsEquivalence that it is an equivalence |
| Cells.Cell.GetPosition | cell.py:80-81 | no contract of its own; DrawThenGetPosition states that it returns the corners last drawn |
| Cells.Cell.GetIJ | cell.py:83-84 | no contract of its own; NewCell and DrawThenGetPosition state that it is (0, 0) for a new cell and unchanged by drawing; WellFormed requires it to be the cell's grid position |
| Grids.Corners | maze.py:55-58 | no contract of its own; DrawCell states that `_draw_cell` places cell (i, j) at these corners, and MeetingByIndex that the corner tests on two neighbours' corners name the wall between them |
| Grids.Meeting | maze.py:129-140 | no contract of its own; MeetingByIndex states that on drawn neighbours it names the wall given by the index difference, and ZeroSizeMisnames where it fails |
| Grids.Connected | maze.py:126-141 | no contract of its own; ConnectedByIndex ties it to the index rule `Direction` for every pair of grid cells |
| Grids.HasWall | maze.py:143-153 | no contract of its own; HasWallByIndex states its error case and its value in terms of `Direction` and `Passable` |
| Cells.NewCell | cell.py:5-17 | a new cell has the walls it is given (all four by default), is unvisited, has indices (0, 0) and both corners at the origin |
| Cells.Cell.Draw | cell.py:38-44 | each corner that is given replaces the stored corner and a missing one keeps it; no field other than the corners changes |
| Cells.EqualsIgnoresOnlyVisited | cell.py:22-36 | two cells are equal exactly when they agree on everything except `visited`; something that is not a cell is never equal |
| Cells.EqualsIsEquivalence | cell.py:22-36 | cell equality is reflexive, symmetric and transitive, and changing `visited` on either side does not affect it |
| Cells.DrawThenGetPosition | cell.py:38-44 | after drawing at two corners, `get_position` returns them and `get_ij` is unchanged; drawing with no corners, or at the cell's own corners, leaves the cell unchanged |
| Grids.AdjacentCells | maze.py:114-124 | the result has one entry per in-grid neighbour, in the order left, right, up, down, and each entry is the grid's own cell at that neighbour |
| Grids.NeighboursExactly | maze.py:114-124 | a position is among the neighbours exactly when it lies in the grid and is one step from the cell, horizontally or vertically |
| Grids.NoNeighboursInOneCell | maze.py:114-124 | the single cell of a 1 x 1 grid has no adjacent cell |
| Grids.ClearWall | maze.py:95-107 | clearing one wall of a cell lowers exactly that flag; other walls, indices, corners and `visited` are kept |
| Grids.MeetingByIndex | maze.py:129-140 | for cells drawn at their corners with nonzero (positive or negative) cell sizes, the four corner tests (the last one that holds wins) name the wall given by the index difference |
| Grids.ZeroSizeMisnames | maze.py:130-140 | with a zero cell width the corner tests name the right neighbour's wall "left"; with a zero cell height they name the upper neighbour's wall "bottom" |
| Grids.ContainsNeighbour | maze.py:128 | in a well-formed grid, a cell is `in` another cell's adjacent list (by `__eq__`) exactly when it is one step away |
| Grids.ConnectedByIndex | maze.py:126-141 | `connected` names the facing wall for neighbouring cells and returns "none" for any other pair, a cell and itself included |
| Grids.HasWallByIndex | maze.py:143-153 | `has_wall` fails with the not-connected error exactly when the cells are not neighbours; otherwise it says whether both facing flags stand, which is exactly when one cannot step between them |
| Grids.GridCellsEqualIffSamePos | cell.py:22-36 | in a well-formed grid two cells are `==` exactly when they are at the same position |
| Grids.AdjacentAllVisited | maze.py:82-88 | when no adjacent cell is unvisited, every grid neighbour of the cell is visited |
| Grids.UnvisitedAmongStep | maze.py:83-85 | each round of the collecting loop keeps `to_visit` equal to the unvisited cells among those seen so far |
| Grids.UnvisitedNeighbour | maze.py:93 | a cell taken from `to_visit` is the grid's cell at its own indices, an unvisited neighbour of the current cell |
| Paths.ClosedContainsReachable | maze.py:155-171 | if every passable step from a visited cell lands on a visited cell, then every cell reachable from a visited cell is visited |
| Paths.NotAllExhausted | maze.py:155-171 | if the exit is reachable from the visited entrance, the search cannot leave every cell it visited a dead end |
| Paths.SearchFromEntranceFindsExit | maze.py:33-34 | if the search from (0, 0) starts on a grid with no cell visited and the exit is reachable, the search does not fail |
| Carving.OpenBetweenSymmetric | maze.py:95-107 | knocking down the wall between two neighbours keeps the two flags of every wall in agreement |
| Carving.OpenBetweenBoundary | maze.py:95-107 | knocking down a wall between neighbours leaves all outer walls as they were |
| Carving.OpenBetweenCounts | maze.py:95-107 | knocking down the wall from a visited cell to an unvisited neighbour, whose walls all still stand, opens exactly one more internal wall and leaves the number of unvisited cells unchanged |
| Carving.VisitedEverywhere | maze.py:76-112 | if (0, 0) is visited and every visited cell has only visited neighbours, every cell is visited |
| Carving.CarveStart | maze.py:77-78 | marking the current cell visited starts the loop invariant of the carving from it |
| Carving.CarveMeasure | maze.py:81-112 | while the carving runs, fewer cells are unvisited than when it started, which bounds the recursion |
| Carving.CarvingDone | maze.py:86-88 | when `to_visit` is empty the carving at the cell is finished, and the invariant now covers the cell itself |
| Carving.CarveOpen | maze.py:93-109 | opening the wall to the chosen unvisited neighbour leaves the grid ready to carve from that neighbour, and the count of unvisited cells strictly lower than at the start |
| Carving.CarveStep | maze.py:93-112 | after the wall is opened and the recursive carving from the neighbour finishes, the loop invariant holds again and strictly fewer cells are unvisited |
| Carving.CarvingCoversGrid | maze.py:32 | carving from (0, 0), on a grid with no open wall and no visited cell, visits every cell and leaves a perfect maze: every cell reachable from (0, 0) and R * C - 1 internal walls open |
| Solving.SameMaze | maze.py:175-178 | two grids that differ only in visited flags are the same perfect maze: same walls, open-wall count and reachability |
| Solving.SearchStart | maze.py:156-162 | after the cell is marked visited the loop invariant holds, with that cell the only one entered so far, and `current_cell == end_cell` holds exactly at the exit |
| Solving.SearchAtExit | maze.py:162-163 | at the exit the search succeeds, with the exit visited and reachable from the cell; a search started at the exit counts as having entered it |
| Solving.NeighbourSkipped | maze.py:165 | a neighbour behind a standing wall, or already visited, is handled without being searched |
| Solving.NeighbourSearched | maze.py:165-170 | a passable neighbour whose search failed is handled; every cell that search visited is a dead end and can be reached from the current cell |
| Solving.NeighbourFound | maze.py:165-168 | when the search from a passable, unvisited neighbour reached the exit and entered it, the exit and every cell that search visited can be reached from the current cell, and the search at the current cell has entered the exit |
| Solving.ExitEnteredThrough | maze.py:165-168 | a recursive search from a neighbour that was unvisited, and that entered the exit, means the exit was unvisited when the search at the current cell began and is visited now |
| Solving.StartEntered | maze.py:161 | when the search at a cell starts, the only cell it has newly visited is that cell, which it can reach |
| Solving.EnteredThrough | maze.py:165-167 | the cells visited by the search from a passable neighbour can be reached from the current cell through that neighbour, and cells visited earlier can still be reached |
| Solving.SearchExhausted | maze.py:164-171 | once every neighbour is handled and the cell is not the exit, the search fails with the cell and every cell visited on the way dead ends, and the exit was not entered |
| Solving.AdjacentIndices | maze.py:164 | the k-th adjacent cell carries the indices of the k-th neighbour, which is one step away |
| Mazes.DrawnGrid | maze.py:40-52 | the grid built and drawn by `_create_cells` is well formed; every cell has its own indices, sits at its corners, keeps all four walls and is unvisited |
| Mazes.CarvingStart | maze.py:27-32 | the grid after `_break_entrance_and_exit` is ready to carve from (0, 0), with no cell visited, no internal wall open and R * C cells unvisited |
| Mazes.ResetOutcomeUnique | maze.py:175-178 | clearing the visited flags has one possible outcome |
| Mazes.ResetIdempotent | maze.py:175-178 | clearing the visited flags twice gives the same grid as clearing them once |
| Mazes.RedrawInPlace | maze.py:110 | redrawing a cell of a well-formed grid at its own corners changes nothing |
| Mazes.Maze.constructor | maze.py:9-34 | with at least one row and one column and positive cell sizes, the object is built from its arguments; after carving, reset and solving it holds a perfect maze whose exit the search reached |
| Mazes.Maze.Create | maze.py:27-31 | fails with InvalidDimensions exactly when there are fewer than one row or fewer than one column; otherwise returns a fresh maze with the given parameters that is a perfect maze, solved to the exit |
| Mazes.Maze.CreateCells | maze.py:40-52 | builds an R x C grid where every cell has its own indices, sits at its corners, keeps all four walls and is unvisited |
| Mazes.Maze.DrawCell | maze.py:54-62 | sets cell (i, j)'s corners to origin plus cell size times index, one cell size wide and high, and changes nothing else |
| Mazes.Maze.BreakEntranceAndExit | maze.py:68-74 | clears the top wall of (0, 0) and the bottom wall of the exit; no other cell or flag changes |
| Mazes.Maze.BreakWalls | maze.py:76-112 | starting from a grid ready to carve at (i, j): only walls are removed and only visited flags set; every newly visited cell, (i, j) included, has all its neighbours visited and is reachable from (i, j); each new visit opened exactly one wall |
| Mazes.Maze.CarveNeighbours | maze.py:81-111 | the loop keeps the carving invariant and stops only when no neighbour of (i, j) is unvisited; the count of unvisited cells bounds it |
| Mazes.Maze.CarveTowards | maze.py:93-112 | one round keeps the carving invariant and strictly lowers the number of unvisited cells |
| Mazes.Maze.KnockDownWall | maze.py:93-110 | the grid afterwards is the old one with the facing flags of the two neighbours cleared; the error branch cannot be reached |
| Mazes.Maze.Solve | maze.py:155-171 | only visited flags change, and only from false to true; (i, j) ends visited, and so does no cell that cannot be reached from (i, j) through open walls; on success the exit is visited and reachable from (i, j); on failure (i, j) and every cell the search visited are dead ends; it succeeds exactly when (i, j) is the exit or the exit was unvisited before the call and is visited after it; at the exit it succeeds at once, with (i, j) the only cell marked |
| Mazes.Maze.SearchNeighbours | maze.py:164-171 | the loop over the adjacent cells changes only visited flags and visits only cells reachable from (i, j); on success the exit is visited and reachable from (i, j); on failure (i, j) and every cell it visited are dead ends; it succeeds exactly when the exit was unvisited when the loop began and is visited at its end |
| Mazes.Maze.TryNeighbour | maze.py:165-170 | one round of the loop either succeeds with the exit newly entered and reachable, and only cells reachable from (i, j) visited, or leaves its neighbour handled with the loop invariant kept; the not-connected error cannot be reached |
| Mazes.Maze.ResetVisited | maze.py:175-178 | afterwards no cell is visited and every cell is equal to what it was, apart from `visited` |

## Left out

- Drawing is left out: the window, lines and colours, `center` (cell.py:71-72), `draw_move`
  (cell.py:74-78), `_animate` and its sleep (maze.py:64-66), and the window creation in
  `__init__`. What `draw` does to the cell's corners is modelled.
- `__repr__` (cell.py:19-20) and `get_cells` (maze.py:37-38) are left out. They only expose state, and
  `cells` is a public field of the class.
- Randomness is left out: `random.randrange` and the seed (maze.py:79-80, 90-92). When
  there is more than one candidate, the neighbour is an arbitrary choice (`:|`), so what
  is proved holds for every possible sequence of draws. `__init__` always passes
  `seed = None`.
- Positive cell sizes are a modelling choice, made for the whole maze (`WellFormed`). The
  corner tests of `connected` need only nonzero sizes (Grids.MeetingByIndex). A zero size
  makes `connected` name the wrong wall (Grids.ZeroSizeMisnames), and then `_break_walls_r`
  clears the wrong flags. The rest of the model requires positive sizes, so it says
  nothing about mazes with negative sizes.
- Mazes.Maze.CreateCells: requires an empty `cells` field, as `__init__` leaves it. The
  source would append to a non-empty list.
- Mazes.Maze.Create: requires positive cell sizes, as the constructor does. The source
  checks only the dimensions.
- Python recursion depth is not modelled. Both recursions are bounded by the number of
  unvisited cells.
- The two exceptions for cells that are not neighbours are modelled as unreachable
  branches:
  - "You dun goof'd" (maze.py:108-109) appears as `assert false` in KnockDownWall.
  - "cell ain't connected son" (maze.py:153) appears as `assert false` in TryNeighbour.

  `has_wall` itself returns the error as a `Result` failure (Grids.HasWall).
- The `current_cell.draw()` call before `break` (maze.py:87) is left out. With no corners
  it leaves the cell unchanged (Cells.DrawThenGetPosition).
- The `match` on the wall name (maze.py:95-107) is written as a call to `ClearWall` on
  both cells.
- Cells are values, not shared objects. Each cell object sits once in the grid. The
  temporary lists `adjacents` and `to_visit` (maze.py:83-85, 115-124) and the locals
  `current_cell` and `to_cell` hold references to grid cells. The model rereads those cells
  from the grid by index (`cells[n.0][n.1]` in TryNeighbour, `toVisit[rand].GetIJ()` in
  CarveNeighbours), so every read sees the current flags, as `not cell.visited` at
  maze.py:165 does after earlier recursive searches. Cells are compared only structurally,
  so no aliasing effect is lost. The `Window` reference in each cell is left out.
- The loop bodies of `_break_walls_r` and `_solve_r` are separate methods
  (CarveNeighbours/CarveTowards and SearchNeighbours/TryNeighbour). Their order of effects
  is the source's.
- The model proves that the passages are connected and have R * C - 1 openings. That
  R * C - 1 openings in a connected grid leave exactly one simple path between any two
  cells is not restated as a lemma.
