/** One grid cell of the maze: four wall flags, the two corners it was last
    drawn at, its grid indices and the visited flag shared by carving and solving. */
module Cells {
  import opened Wrappers

  /** A pair of pixel coordinates, compared field by field. */
  datatype Point = Point(x: int, y: int)

  datatype Cell = Cell(
    hasLeftWall: bool, hasRightWall: bool, hasTopWall: bool, hasBottomWall: bool,
    x1: int, y1: int, x2: int, y2: int,
    i: int, j: int,
    visited: bool)
  {
    /** The top-left and bottom-right corners, as last drawn. */
    function GetPosition(): (Point, Point)
    {
      (Point(x1, y1), Point(x2, y2))
    }

    /** The grid indices (row, column). */
    function GetIJ(): (int, int)
    {
      (i, j)
    }

    /** Python `Cell.__eq__`, a structural equality: corners, indices and wall flags agree;
        `visited` plays no part. `None` stands for an argument that is not a cell. */
    predicate Equals(other: Option<Cell>)
    {
      match other
      case None => false
      case Some(o) =>
        x1 == o.x1 && x2 == o.x2 && y1 == o.y1 && y2 == o.y2 &&
        i == o.i && j == o.j &&
        hasTopWall == o.hasTopWall && hasBottomWall == o.hasBottomWall &&
        hasRightWall == o.hasRightWall && hasLeftWall == o.hasLeftWall
    }

    /** The part of drawing a cell that changes it: each corner that is given
        replaces the stored one, a missing corner leaves it as it is. */
    function Draw(p1: Option<Point>, p2: Option<Point>): (c: Cell)
      ensures c.GetPosition().0 == (if p1.Some? then p1.value else GetPosition().0)
      ensures c.GetPosition().1 == (if p2.Some? then p2.value else GetPosition().1)
      ensures c.(x1 := x1, y1 := y1, x2 := x2, y2 := y2) == this
    {
      var c := if p1.Some? then this.(x1 := p1.value.x, y1 := p1.value.y) else this;
      if p2.Some? then c.(x2 := p2.value.x, y2 := p2.value.y) else c
    }
  }

  /** A freshly constructed cell: the given walls (all present by default),
      unvisited, at indices (0, 0) with both corners at the origin. */
  function NewCell(left: bool := true, right: bool := true, top: bool := true, bottom: bool := true): (c: Cell)
    ensures c.hasLeftWall == left && c.hasRightWall == right
    ensures c.hasTopWall == top && c.hasBottomWall == bottom
    ensures !c.visited && c.GetIJ() == (0, 0)
    ensures c.GetPosition() == (Point(0, 0), Point(0, 0))
  {
    Cell(left, right, top, bottom, 0, 0, 0, 0, 0, 0, false)
  }

  /** Equality of cells is equality of everything but the visited flag. */
  lemma EqualsIgnoresOnlyVisited(a: Cell, b: Cell)
    ensures a.Equals(Some(b)) <==> a.(visited := false) == b.(visited := false)
    ensures !a.Equals(None)
  {
  }

  /** Consequences of that: reflexive, symmetric, transitive, blind to `visited`. */
  lemma EqualsIsEquivalence(a: Cell, b: Cell, c: Cell, v: bool)
    ensures a.Equals(Some(a))
    ensures a.Equals(Some(b)) == b.Equals(Some(a))
    ensures a.Equals(Some(b)) && b.Equals(Some(c)) ==> a.Equals(Some(c))
    ensures a.(visited := v).Equals(Some(b)) == a.Equals(Some(b))
    ensures a.Equals(Some(b.(visited := v))) == a.Equals(Some(b))
  {
  }

  /** Drawing at two corners and then reading the position gives them back;
      drawing with no corners, or at the cell's own corners, changes nothing. */
  lemma DrawThenGetPosition(c: Cell, p1: Point, p2: Point)
    ensures c.Draw(Some(p1), Some(p2)).GetPosition() == (p1, p2)
    ensures c.Draw(Some(p1), Some(p2)).GetIJ() == c.GetIJ()
    ensures c.Draw(None, None) == c
    ensures c.Draw(Some(c.GetPosition().0), Some(c.GetPosition().1)) == c
  {
  }
}
