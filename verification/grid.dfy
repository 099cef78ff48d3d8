/** The fixed 4×4 grid the path finder works on: cells, bounds and the four moves. */
module Grid {

  /** A grid cell. `x` is the row (it grows downwards), `y` the column (it grows rightwards). */
  datatype Point = Point(x: int, y: int)

  /** Side length of the square grid; the finder allocates a visited matrix of this size. */
  const GridSize: int := 4

  /** The moves in the order the search tries them: right, down, left, up. */
  const Directions: seq<Point> := [Point(0, 1), Point(1, 0), Point(0, -1), Point(-1, 0)]

  /** The point reached from `p` by moving along `dir`. */
  function Move(p: Point, dir: Point): Point {
    Point(p.x + dir.x, p.y + dir.y)
  }

  /** Half-open bounds check of a point against a `maxX` × `maxY` rectangle. */
  predicate IsValid(p: Point, maxX: int, maxY: int) {
    0 <= p.x < maxX && 0 <= p.y < maxY
  }

  /** A point the visited matrix has a slot for. */
  predicate InGrid(p: Point) {
    IsValid(p, GridSize, GridSize)
  }

  /** Every cell of the grid, as a set. */
  const Cells: set<Point> := set x, y | 0 <= x < GridSize && 0 <= y < GridSize :: Point(x, y)

  /** One unit on exactly one axis: a single grid step, stated without the direction vectors. */
  predicate UnitStep(a: Point, b: Point) {
    || (a.x == b.x && (b.y == a.y + 1 || b.y == a.y - 1))
    || (a.y == b.y && (b.x == a.x + 1 || b.x == a.x - 1))
  }

  /** The bounds check agrees with membership in the set of cells. */
  lemma InGridIffCell(p: Point)
    ensures InGrid(p) <==> p in Cells
  {
  }

  /** A move along one of the four directions is exactly a unit step. */
  lemma UnitStepIffDirection(a: Point, b: Point)
    ensures UnitStep(a, b) <==> exists k :: 0 <= k < |Directions| && b == Move(a, Directions[k])
  {
    if UnitStep(a, b) {
      var k := if b == Move(a, Directions[0]) then 0
                else if b == Move(a, Directions[1]) then 1
                else if b == Move(a, Directions[2]) then 2
                else 3;
      assert b == Move(a, Directions[k]);
    }
    if exists k :: 0 <= k < |Directions| && b == Move(a, Directions[k]) {
      var k :| 0 <= k < |Directions| && b == Move(a, Directions[k]);
      assert Directions[k] in {Point(0, 1), Point(1, 0), Point(0, -1), Point(-1, 0)};
    }
  }

  /** The index of the direction that takes `a` to its neighbour `b`. */
  function DirectionOf(a: Point, b: Point): (k: nat)
    requires UnitStep(a, b)
    ensures k < |Directions| && Move(a, Directions[k]) == b
  {
    if b == Move(a, Directions[0]) then 0
    else if b == Move(a, Directions[1]) then 1
    else if b == Move(a, Directions[2]) then 2
    else 3
  }

  lemma SubsetCount(a: set<Point>, b: set<Point>)
    requires a <= b
    ensures |a| <= |b|
  {
    assert b == a + (b - a);
    assert a * (b - a) == {};
  }

  /** One row of the grid, written out. */
  function Row(x: int): (r: set<Point>)
    ensures forall p :: p in r <==> p.x == x && 0 <= p.y < GridSize
  {
    {Point(x, 0), Point(x, 1), Point(x, 2), Point(x, 3)}
  }

  lemma RowCount(x: int)
    ensures |Row(x)| == GridSize
  {
  }

  /** Sizes add up over disjoint sets. */
  lemma DisjointCount(a: set<Point>, b: set<Point>)
    requires a * b == {}
    ensures |a + b| == |a| + |b|
  {
  }

  /** The grid is the union of its four rows. */
  lemma CellsAreRows()
    ensures Cells == Row(0) + Row(1) + Row(2) + Row(3)
  {
    forall p | p in Cells
      ensures p in Row(0) + Row(1) + Row(2) + Row(3)
    {
      assert p in Row(p.x);
    }
  }

  /** The four rows are pairwise disjoint, so their union has GridSize × GridSize points. */
  lemma RowsCount()
    ensures |Row(0) + Row(1) + Row(2) + Row(3)| == GridSize * GridSize
  {
    RowCount(0); RowCount(1); RowCount(2); RowCount(3);
    DisjointCount(Row(0), Row(1));
    DisjointCount(Row(0) + Row(1), Row(2));
    DisjointCount(Row(0) + Row(1) + Row(2), Row(3));
  }

  /** The grid has exactly GridSize × GridSize cells, one per slot of the visited matrix. */
  lemma CellsCount()
    ensures |Cells| == GridSize * GridSize
  {
    CellsAreRows();
    RowsCount();
  }
}
