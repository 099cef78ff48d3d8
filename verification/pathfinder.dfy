/** The backtracking depth-first path search over the 4×4 grid. */
module PathFinder {
  import opened Grid
  import opened Paths

  datatype Option<T> = None | Some(value: T)

  /** What one call of the search leaves behind: the path it reports, if it reached the end,
      and the visited matrix (as the set of cells marked true) as it returns it to its caller. */
  datatype Search = Search(path: Option<seq<Point>>, visited: set<Point>)

  /** A path a successful search from `current` may report: it starts at `current`, ends at
      `end`, moves one grid step at a time, never repeats a cell, and every cell after the
      first is a grid cell that was unvisited when the search began. */
  predicate SearchPath(p: seq<Point>, current: Point, end: Point, visited: set<Point>) {
    && |p| > 0 && p[0] == current && p[|p| - 1] == end
    && IsWalk(p) && Distinct(p)
    && (forall i :: 1 <= i < |p| ==> InGrid(p[i]) && p[i] !in visited)
  }

  /** Marking one more unvisited grid cell leaves fewer unvisited cells. */
  lemma MarkShrinks(visited: set<Point>, p: Point)
    requires InGrid(p) && p !in visited
    ensures |Cells - (visited + {p})| < |Cells - visited|
  {
    InGridIffCell(p);
    assert Cells - visited == (Cells - (visited + {p})) + {p};
  }

  lemma ElemsFrontPrepend(c: Point, q: seq<Point>)
    requires |q| > 0
    ensures Elems(Front([c] + q)) == {c} + Elems(Front(q))
  {
    assert Front([c] + q) == [c] + Front(q);
  }

  /** Prepending a visited cell to a path found from its grid neighbour gives a path from that
      cell, and the marks left behind are those of the neighbour's path plus the cell itself. */
  lemma ExtendSearchPath(current: Point, end: Point, visited: set<Point>, q: seq<Point>, marks: set<Point>)
    requires current in visited && |q| > 0 && UnitStep(current, q[0])
    requires InGrid(q[0]) && q[0] !in visited
    requires SearchPath(q, q[0], end, visited) && marks == visited + Elems(Front(q))
    ensures SearchPath([current] + q, current, end, visited)
    ensures marks == visited + Elems(Front([current] + q))
  {
    PrependWalk(current, q);
    PrependDistinct(current, q);
    ElemsFrontPrepend(current, q);
    var p := [current] + q;
    assert forall i :: 1 <= i < |p| ==> p[i] == q[i - 1];
  }

  /** One call of the search from `current` (`dfs`). The end is recognised before the cell is
      marked; otherwise the cell is marked, the four directions are explored, and on failure the
      mark is removed again. So a failed call hands the visited matrix back exactly as it found
      it whenever `current` was unmarked on entry, which every caller guarantees. */
  function Dfs(current: Point, end: Point, visited: set<Point>): (r: Search)
    requires current == end || InGrid(current)
    ensures r.path.None? ==> r.visited == visited - {current}
    decreases |Cells - (visited + {current})|, |Directions| + 2
  {
    if current == end then Search(Some([current]), visited)
    else
      var s := Explore(current, end, visited + {current}, 0);
      if s.path.Some? then s else Search(None, s.visited - {current})
  }

  /** The loop over the directions of one `dfs` call, from direction index `d` on; `visited`
      already has `current` marked. The first neighbour that is in bounds, unvisited, and from
      which the search succeeds decides the result; failed neighbours hand the matrix back
      unchanged, so the remaining directions see the same marks, and a loop that finds nothing
      leaves the matrix as it was. */
  function Explore(current: Point, end: Point, visited: set<Point>, d: nat): (r: Search)
    requires current in visited && d <= |Directions|
    ensures r.path.None? ==> r.visited == visited
    decreases |Cells - visited|, |Directions| + 1 - d
  {
    if d == |Directions| then Search(None, visited)
    else
      var next := Move(current, Directions[d]);
      if IsValid(next, GridSize, GridSize) && next !in visited then
        MarkShrinks(visited, next);
        var s := Dfs(next, end, visited);
        if s.path.Some? then
          Search(Some([current] + s.path.value), s.visited)
        else
          Explore(current, end, s.visited, d + 1)
      else
        Explore(current, end, visited, d + 1)
  }

  /** What a search from `current` that succeeded promises: a `SearchPath` to `end`, with every
      cell of that path except the end left marked on top of the marks it started with. */
  predicate Sound(r: Search, current: Point, end: Point, visited: set<Point>) {
    r.path.Some? ==>
      && SearchPath(r.path.value, current, end, visited)
      && r.visited == visited + Elems(Front(r.path.value))
  }

  /** A successful search reports a path from `current` to `end` by single steps through cells
      that were unvisited and in the grid, with no cell twice; it leaves every cell of that path
      except the end marked. */
  lemma {:induction false} DfsSound(current: Point, end: Point, visited: set<Point>)
    requires current == end || InGrid(current)
    ensures Sound(Dfs(current, end, visited), current, end, visited)
    decreases |Cells - (visited + {current})|, |Directions| + 2
  {
    if current != end {
      ExploreSound(current, end, visited + {current}, 0);
    }
  }

  /** The direction loop's counterpart of `DfsSound`; its paths have at least two cells. */
  lemma {:induction false} ExploreSound(current: Point, end: Point, visited: set<Point>, d: nat)
    requires current in visited && d <= |Directions|
    ensures Sound(Explore(current, end, visited, d), current, end, visited)
    ensures Explore(current, end, visited, d).path.Some? ==> |Explore(current, end, visited, d).path.value| >= 2
    decreases |Cells - visited|, |Directions| + 1 - d
  {
    if d < |Directions| {
      var next := Move(current, Directions[d]);
      if IsValid(next, GridSize, GridSize) && next !in visited {
        MarkShrinks(visited, next);
        var s := Dfs(next, end, visited);
        DfsSound(next, end, visited);
        if s.path.Some? {
          assert Explore(current, end, visited, d) == Search(Some([current] + s.path.value), s.visited);
          StepSound(current, end, visited, d, s);
        } else {
          assert Explore(current, end, visited, d) == Explore(current, end, visited, d + 1);
          ExploreSound(current, end, visited, d + 1);
        }
      } else {
        assert Explore(current, end, visited, d) == Explore(current, end, visited, d + 1);
        ExploreSound(current, end, visited, d + 1);
      }
    }
  }

  /** The success branch of the direction loop: the neighbour's sound result, with `current`
      prepended, is a sound result of the loop. */
  lemma StepSound(current: Point, end: Point, visited: set<Point>, d: nat, s: Search)
    requires current in visited && d < |Directions|
    requires InGrid(Move(current, Directions[d])) && Move(current, Directions[d]) !in visited
    requires s.path.Some? && Sound(s, Move(current, Directions[d]), end, visited)
    ensures Sound(Search(Some([current] + s.path.value), s.visited), current, end, visited)
    ensures |[current] + s.path.value| >= 2
  {
    UnitStepIffDirection(current, Move(current, Directions[d]));
    ExtendSearchPath(current, end, visited, s.path.value, s.visited);
  }

  /** A neighbour from which the search would succeed: direction `k` from `current` leads to an
      in-bounds, unvisited cell, and the search started there reaches `end`. */
  predicate Succeeds(current: Point, end: Point, visited: set<Point>, k: nat)
    requires k < |Directions|
  {
    var next := Move(current, Directions[k]);
    InGrid(next) && next !in visited && Dfs(next, end, visited).path.Some?
  }

  /** The fixed exploration order decides the result: a successful direction loop reports the
      current cell followed by the path found from the FIRST direction (in the order right,
      down, left, up) whose neighbour succeeds. */
  lemma {:induction false} ExploreFirstSuccess(current: Point, end: Point, visited: set<Point>, d: nat)
    requires current in visited && d <= |Directions|
    ensures Explore(current, end, visited, d).path.Some? ==> exists k ::
              && d <= k < |Directions| && Succeeds(current, end, visited, k)
              && (forall j :: d <= j < k ==> !Succeeds(current, end, visited, j))
              && Explore(current, end, visited, d).path.value
                 == [current] + Dfs(Move(current, Directions[k]), end, visited).path.value
    decreases |Directions| - d
  {
    if Explore(current, end, visited, d).path.Some? {
      if !Succeeds(current, end, visited, d) {
        ExploreFirstSuccess(current, end, visited, d + 1);
        var k :| d + 1 <= k < |Directions| && Succeeds(current, end, visited, k)
          && (forall j :: d + 1 <= j < k ==> !Succeeds(current, end, visited, j))
          && Explore(current, end, visited, d + 1).path.value
             == [current] + Dfs(Move(current, Directions[k]), end, visited).path.value;
        assert forall j :: d <= j < k ==> !Succeeds(current, end, visited, j);
      } else {
        assert Succeeds(current, end, visited, d);
      }
    }
  }

  /** Conversely, once some direction at or after `d` succeeds, the direction loop succeeds. */
  lemma {:induction false} ExploreReaches(current: Point, end: Point, visited: set<Point>, d: nat, k: nat)
    requires current in visited && d <= k < |Directions|
    ensures Succeeds(current, end, visited, k) ==> Explore(current, end, visited, d).path.Some?
    decreases k - d
  {
    if d < k && !Succeeds(current, end, visited, d) {
      ExploreReaches(current, end, visited, d + 1, k);
    }
  }

  /** The backtracking search is complete: whenever a repetition-free walk of grid cells leads
      from `current` to `end` through cells not yet visited, the search reaches `end` (though
      not necessarily along that walk). Failed branches unmark their cells, so every such walk
      is still open to the later directions. */
  lemma {:induction false} DfsComplete(current: Point, end: Point, visited: set<Point>, w: seq<Point>)
    requires |w| > 0 && w[0] == current && w[|w| - 1] == end
    requires IsWalk(w) && Distinct(w)
    requires forall i :: 0 <= i < |w| ==> InGrid(w[i])
    requires current !in visited
    requires forall i :: 1 <= i < |w| ==> w[i] !in visited
    ensures Dfs(current, end, visited).path.Some?
    decreases |Cells - visited|
  {
    if current != end {
      assert |w| >= 2 && UnitStep(w[0], w[1]);
      var next := w[1];
      var k := DirectionOf(current, next);
      var rest := w[1..];
      assert IsWalk(rest) by {
        forall i | 0 <= i < |rest| - 1
          ensures UnitStep(rest[i], rest[i + 1])
        {
          assert rest[i] == w[i + 1] && rest[i + 1] == w[i + 2];
        }
      }
      assert Distinct(rest) by {
        forall i, j | 0 <= i < j < |rest|
          ensures rest[i] != rest[j]
        {
          assert rest[i] == w[i + 1] && rest[j] == w[j + 1];
        }
      }
      forall i | 1 <= i < |rest|
        ensures rest[i] !in visited + {current}
      {
        assert rest[i] == w[i + 1] && w[i + 1] != w[0];
      }
      assert next != current;
      MarkShrinks(visited, current);
      DfsComplete(next, end, visited + {current}, rest);
      ExploreReaches(current, end, visited + {current}, 0, k);
    }
  }

  /** What a call of `findPath` amounts to: it returns a path, or the program panics indexing the
      visited matrix with a cell outside it. */
  datatype Outcome = Returns(path: seq<Point>) | PanicsAt(cell: Point)

  /** A non-empty path `findPath` may return: from `start` to `end` by single grid steps, every
      cell a grid cell, none twice, and so no longer than the number of cells. */
  predicate ValidPath(p: seq<Point>, start: Point, end: Point) {
    && |p| > 0 && p[0] == start && p[|p| - 1] == end
    && IsWalk(p) && Distinct(p)
    && (forall i :: 0 <= i < |p| ==> InGrid(p[i]))
    && |p| <= GridSize * GridSize
  }

  /** `findPath`: equal endpoints give the one-cell path without searching; otherwise a search
      from `start` with a fresh visited matrix, whose path is returned, or the empty path when it
      fails. A `start` outside the grid (and different from `end`) is used as an index into the
      visited matrix and panics. */
  function FindPath(start: Point, end: Point): (r: Outcome)
    ensures start == end ==> r == Returns([start])
    ensures start != end && !InGrid(start) ==> r == PanicsAt(start)
    ensures start != end && InGrid(start) ==> r.Returns? && (r.path == [] || ValidPath(r.path, start, end))
  {
    if start == end then Returns([start])
    else if !InGrid(start) then PanicsAt(start)
    else
      var s := Dfs(start, end, {});
      if s.path.Some? then
        DfsSound(start, end, {});
        PathLengthBound(s.path.value);
        Returns(s.path.value)
      else
        Returns([])
  }

  /** On the open grid every pair of cells is connected, so `findPath` never comes back empty
      for two grid cells. */
  lemma FindPathTotal(start: Point, end: Point)
    requires InGrid(start) && InGrid(end)
    ensures FindPath(start, end).Returns? && FindPath(start, end).path != []
  {
    if start != end {
      var w := LWalk(start, end);
      LWalkDistinct(start, end);
      DfsComplete(start, end, {}, w);
      DfsSound(start, end, {});
    }
  }

  /** From a grid cell to a different point, `findPath` returns the empty path exactly when the
      end lies outside the grid. */
  lemma FindPathEmptyIff(start: Point, end: Point)
    requires InGrid(start) && start != end
    ensures FindPath(start, end) == Returns([]) <==> !InGrid(end)
  {
    if InGrid(end) {
      FindPathTotal(start, end);
    }
  }
}
