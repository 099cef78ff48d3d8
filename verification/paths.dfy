/** Paths on the grid: walks made of unit steps, repetition-free sequences, and their size. */
module Paths {
  import opened Grid

  /** Every consecutive pair of points is one grid step apart. */
  predicate IsWalk(p: seq<Point>) {
    forall i :: 0 <= i < |p| - 1 ==> UnitStep(p[i], p[i + 1])
  }

  /** No point occurs twice. */
  predicate Distinct(p: seq<Point>) {
    forall i, j :: 0 <= i < j < |p| ==> p[i] != p[j]
  }

  /** The points occurring in `p`. */
  function Elems(p: seq<Point>): set<Point> {
    set q | q in p
  }

  /** `p` without its last point. */
  function Front(p: seq<Point>): seq<Point>
    requires |p| > 0
  {
    p[..|p| - 1]
  }

  /** Putting a neighbour of the first point in front keeps a walk a walk. */
  lemma PrependWalk(c: Point, q: seq<Point>)
    requires |q| > 0 && UnitStep(c, q[0]) && IsWalk(q)
    ensures IsWalk([c] + q)
  {
    var p := [c] + q;
    forall i | 0 <= i < |p| - 1
      ensures UnitStep(p[i], p[i + 1])
    {
      if i > 0 {
        assert p[i] == q[i - 1] && p[i + 1] == q[i];
      }
    }
  }

  /** Putting a fresh point in front keeps a sequence repetition-free. */
  lemma PrependDistinct(c: Point, q: seq<Point>)
    requires c !in q && Distinct(q)
    ensures Distinct([c] + q)
  {
    var p := [c] + q;
    forall i, j | 0 <= i < j < |p|
      ensures p[i] != p[j]
    {
      if i == 0 {
        assert p[j] == q[j - 1];
      } else {
        assert p[i] == q[i - 1] && p[j] == q[j - 1];
      }
    }
  }

  /** A repetition-free sequence has as many distinct points as it is long. */
  lemma {:induction false} DistinctCount(p: seq<Point>)
    requires Distinct(p)
    ensures |Elems(p)| == |p|
  {
    if |p| > 0 {
      var q := p[1..];
      assert Distinct(q) by {
        forall i, j | 0 <= i < j < |q|
          ensures q[i] != q[j]
        {
          assert q[i] == p[i + 1] && q[j] == p[j + 1];
        }
      }
      DistinctCount(q);
      assert p == [p[0]] + q;
      assert p[0] !in q;
      assert Elems(p) == {p[0]} + Elems(q);
    }
  }

  /** A repetition-free sequence of grid cells has at most GridSize × GridSize points. */
  lemma PathLengthBound(p: seq<Point>)
    requires Distinct(p)
    requires forall i :: 0 <= i < |p| ==> InGrid(p[i])
    ensures |p| <= GridSize * GridSize
  {
    DistinctCount(p);
    forall q | q in Elems(p)
      ensures q in Cells
    {
      InGridIffCell(q);
    }
    SubsetCount(Elems(p), Cells);
    CellsCount();
  }

  /** Manhattan distance. */
  function Dist(a: Point, b: Point): nat {
    (if a.x <= b.x then b.x - a.x else a.x - b.x) + (if a.y <= b.y then b.y - a.y else a.y - b.y)
  }

  /** One step from `a` towards `b`: along the row first, then along the column. */
  function StepToward(a: Point, b: Point): (n: Point)
    requires a != b
    ensures UnitStep(a, n) && Dist(n, b) + 1 == Dist(a, b)
    ensures InGrid(a) && InGrid(b) ==> InGrid(n)
  {
    if a.y < b.y then Point(a.x, a.y + 1)
    else if a.y > b.y then Point(a.x, a.y - 1)
    else if a.x < b.x then Point(a.x + 1, a.y)
    else Point(a.x - 1, a.y)
  }

  /** An L-shaped walk from `a` to `b`; each point is one step closer to `b` than the one before,
      so no point repeats. It witnesses that every pair of cells of the open grid is connected. */
  function LWalk(a: Point, b: Point): (w: seq<Point>)
    ensures |w| == Dist(a, b) + 1 && w[0] == a && w[|w| - 1] == b
    ensures IsWalk(w)
    ensures forall i :: 0 <= i < |w| ==> Dist(w[i], b) + i == Dist(a, b)
    ensures InGrid(a) && InGrid(b) ==> forall i :: 0 <= i < |w| ==> InGrid(w[i])
    decreases Dist(a, b)
  {
    if a == b then [a]
    else
      var rest := LWalk(StepToward(a, b), b);
      PrependWalk(a, rest);
      [a] + rest
  }

  /** The L-shaped walk never repeats a point. */
  lemma LWalkDistinct(a: Point, b: Point)
    ensures Distinct(LWalk(a, b))
  {
    var w := LWalk(a, b);
    forall i, j | 0 <= i < j < |w|
      ensures w[i] != w[j]
    {
      assert Dist(w[i], b) + i == Dist(a, b) == Dist(w[j], b) + j;
    }
  }
}
