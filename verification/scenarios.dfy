/** Concrete searches on the 4×4 grid, showing the fixed direction order at work. */
module Scenarios {
  import opened Grid
  import opened PathFinder

  /** The first direction tried is right, so a right-hand neighbour is reached in one step. */
  lemma RightNeighbour()
    ensures FindPath(Point(0, 0), Point(0, 1)) == Returns([Point(0, 0), Point(0, 1)])
  {
    var e := Point(0, 1);
    var v := {} + {Point(0, 0)};
    assert Move(Point(0, 0), Directions[0]) == e;
    assert IsValid(e, GridSize, GridSize) && e !in v;
    var s := Dfs(e, e, v);
    assert s.path == Some([e]);
    assert Explore(Point(0, 0), e, v, 0).path == Some([Point(0, 0)] + s.path.value);
  }

  /** The search is not shortest-path. From the bottom-right corner to the cell directly above
      it, right and down are out of bounds, and left is tried before up. From the cell to the
      left the end is still reachable, so the search goes left and the returned path's second
      cell is (3, 2), not the end: it is longer than the single step that would do. */
  lemma NotShortest()
    ensures var r := FindPath(Point(3, 3), Point(2, 3));
            r.Returns? && |r.path| > 2 && r.path[1] == Point(3, 2)
  {
    NotShortestFrom(Point(3, 3), Point(2, 3), Point(3, 2), {Point(3, 3)});
  }

  /** `NotShortest` on the search itself: the corner's search goes left and then on from there. */
  lemma NotShortestFrom(c: Point, e: Point, left: Point, v: set<Point>)
    requires c == Point(3, 3) && e == Point(2, 3) && left == Point(3, 2) && v == {c}
    ensures Dfs(c, e, {}).path.Some? && |Dfs(c, e, {}).path.value| > 2 && Dfs(c, e, {}).path.value[1] == left
  {
    LeftOfCorner(left, e, v);
    var q := Dfs(left, e, v).path.value;
    assert Point(c.x, c.y - 1) == left;
    assert {} + {c} == v;
    ViaLeft(c, e, {}, q);
    assert ([c] + q)[1] == left;
  }

  /** From the cell left of the corner, with the corner marked, the search reaches the cell above
      the corner by a path of at least two cells. */
  lemma LeftOfCorner(left: Point, e: Point, v: set<Point>)
    requires left == Point(3, 2) && e == Point(2, 3) && v == {Point(3, 3)}
    ensures var r := Dfs(left, e, v).path; r.Some? && |r.value| >= 2 && r.value[0] == left
  {
    var w := [left, Point(2, 2), e];
    assert UnitStep(w[0], w[1]) && UnitStep(w[1], w[2]);
    DfsComplete(left, e, v, w);
    DfsSound(left, e, v);
    var q := Dfs(left, e, v).path.value;
    assert q[0] == left && q[|q| - 1] == e;
  }

  /** Directions that lead out of the grid are passed over: the loop from 0 behaves as the loop
      from the first direction that stays inside. */
  lemma {:induction false} SkipOutside(c: Point, e: Point, v: set<Point>, d: nat)
    requires c in v && d < |Directions|
    requires forall j :: 0 <= j < d ==> !InGrid(Move(c, Directions[j]))
    ensures Explore(c, e, v, 0) == Explore(c, e, v, d)
    decreases d
  {
    if d > 0 {
      SkipOutside(c, e, v, d - 1);
      assert !InGrid(Move(c, Directions[d - 1]));
      assert Explore(c, e, v, d - 1) == Explore(c, e, v, d);
    }
  }

  /** One step of a concrete search: when every direction before `d` leaves the grid and the
      search from the neighbour in direction `d` finds `q`, the search from `c` finds `c` then `q`. */
  lemma Via(c: Point, e: Point, v: set<Point>, d: nat, q: seq<Point>)
    requires InGrid(c) && c != e && d < |Directions|
    requires forall j :: 0 <= j < d ==> !InGrid(Move(c, Directions[j]))
    requires InGrid(Move(c, Directions[d])) && Move(c, Directions[d]) !in v + {c}
    ensures Dfs(Move(c, Directions[d]), e, v + {c}).path == Some(q) ==> Dfs(c, e, v).path == Some([c] + q)
  {
    SkipOutside(c, e, v + {c}, d);
  }

  /** `Via` for the second direction, down, when right leaves the grid, stated in coordinates. */
  lemma ViaDown(c: Point, e: Point, v: set<Point>, q: seq<Point>)
    requires InGrid(c) && c != e && !InGrid(Point(c.x, c.y + 1))
    requires InGrid(Point(c.x + 1, c.y)) && Point(c.x + 1, c.y) !in v + {c}
    ensures Dfs(Point(c.x + 1, c.y), e, v + {c}).path == Some(q) ==> Dfs(c, e, v).path == Some([c] + q)
  {
    Via(c, e, v, 1, q);
  }

  /** `Via` for the third direction, left, when right and down leave the grid, stated in
      coordinates. */
  lemma ViaLeft(c: Point, e: Point, v: set<Point>, q: seq<Point>)
    requires InGrid(c) && c != e && !InGrid(Point(c.x, c.y + 1)) && !InGrid(Point(c.x + 1, c.y))
    requires InGrid(Point(c.x, c.y - 1)) && Point(c.x, c.y - 1) !in v + {c}
    ensures Dfs(Point(c.x, c.y - 1), e, v + {c}).path == Some(q) ==> Dfs(c, e, v).path == Some([c] + q)
  {
    Via(c, e, v, 2, q);
  }

  /* The run down the right-hand column, one cell at a time: each lemma states the search from
     one cell of the run, with the cells above it marked.

     A note on the shape of these concrete lemmas. The cells are passed as parameters and pinned
     by `requires`, visited sets are written in the `v + {c}` form the search itself builds, and
     each `[c] + q` join is its own small lemma. Stated directly on literals, the verifier keeps
     unfolding `Dfs` and `Explore` on the constants and does not finish. */

  lemma FromRow2Col3(c: Point, e: Point)
    requires c == Point(2, 3) && e == Point(3, 3)
    ensures Dfs(c, e, {Point(0, 3), Point(1, 3)}).path == Some([Point(2, 3), Point(3, 3)])
  {
    var v: set<Point> := {Point(0, 3), Point(1, 3)};
    var n := Point(c.x + 1, c.y);
    assert v + {c} == {Point(0, 3), Point(1, 3), Point(2, 3)};
    assert n == e;
    assert Dfs(e, e, v + {c}).path == Some([e]);
    ViaDown(c, e, v, [Point(3, 3)]);
    JoinRow2Col3();
  }

  lemma JoinRow2Col3()
    ensures [Point(2, 3)] + [Point(3, 3)] == [Point(2, 3), Point(3, 3)]
  {
  }

  lemma FromRow1Col3(c: Point, e: Point)
    requires c == Point(1, 3) && e == Point(3, 3)
    ensures Dfs(c, e, {Point(0, 3)}).path == Some([Point(1, 3), Point(2, 3), Point(3, 3)])
  {
    var v: set<Point> := {Point(0, 3)};
    var n := Point(c.x + 1, c.y);
    assert v + {c} == {Point(0, 3), Point(1, 3)};
    assert n == Point(2, 3);
    FromRow2Col3(n, e);
    ViaDown(c, e, v, [Point(2, 3), Point(3, 3)]);
    JoinRow1Col3();
  }

  lemma JoinRow1Col3()
    ensures [Point(1, 3)] + [Point(2, 3), Point(3, 3)] == [Point(1, 3), Point(2, 3), Point(3, 3)]
  {
  }

  lemma FromRow0Col3(c: Point, e: Point)
    requires c == Point(0, 3) && e == Point(3, 3)
    ensures Dfs(c, e, {}).path == Some([Point(0, 3), Point(1, 3), Point(2, 3), Point(3, 3)])
  {
    var v: set<Point> := {};
    var n := Point(c.x + 1, c.y);
    assert v + {c} == {Point(0, 3)};
    assert n == Point(1, 3);
    FromRow1Col3(n, e);
    ViaDown(c, e, v, [Point(1, 3), Point(2, 3), Point(3, 3)]);
    JoinRow0Col3();
  }

  lemma JoinRow0Col3()
    ensures [Point(0, 3)] + [Point(1, 3), Point(2, 3), Point(3, 3)] == [Point(0, 3), Point(1, 3), Point(2, 3), Point(3, 3)]
  {
  }

  /** Down the right-hand column: at every cell right is tried first but leaves the grid, so
      the search takes the second direction, down, all the way to the bottom-right corner. */
  lemma DownRightColumn()
    ensures FindPath(Point(0, 3), Point(3, 3)) == Returns([Point(0, 3), Point(1, 3), Point(2, 3), Point(3, 3)])
  {
    FromRow0Col3(Point(0, 3), Point(3, 3));
  }

  /** An end outside the grid is never reached: the search fails and the result is empty. */
  lemma EndOutsideGrid()
    ensures FindPath(Point(0, 0), Point(4, 0)) == Returns([])
  {
    FindPathEmptyIff(Point(0, 0), Point(4, 0));
  }

  /** A start outside the grid that differs from the end is an out-of-range index. */
  lemma StartOutsideGrid()
    ensures FindPath(Point(-1, 0), Point(1, 1)) == PanicsAt(Point(-1, 0))
  {
  }
}
