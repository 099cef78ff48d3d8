# Grid path finder — a Dafny model

This project models the path finder of the grid service in `be/main.go`. The service takes a
start and an end point and searches a fixed 4×4 grid for a path between them. The search is a
recursive depth-first search with backtracking. From each cell it tries the four neighbours in
a fixed order: right (0,+1), down (+1,0), left (0,-1), up (-1,0). It skips neighbours that are
out of bounds or already visited. The first branch that reaches the end decides the result.

The model is functional:

- `Grid` holds `Point`, the four direction vectors, the half-open bounds check `isValid`, and
  the set of grid cells.
- `Paths` holds the shape of a path: single steps, no repeated cell, the length bound, and the
  L-shaped walk used to show that every pair of cells is connected.
- `PathFinder` holds the search:
  - `Dfs` is one call of `dfs`.
  - `Explore` is its loop over the directions.
  - `FindPath` is `findPath`.
- `Scenarios` holds concrete searches.

The visited matrix is a `set<Point>` of the cells marked `true`. Each call returns the set
as it leaves it, so the backtracking guarantee is a statement about the returned set. The
path accumulator `*path` is empty whenever `dfs` is entered, and a failed call never touches
it. So the model returns the path as an `Option<seq<Point>>` rather than mutating a slice.

A call of `findPath` either returns a path or panics. The panic happens when a start outside
the grid differs from the end: the start is then used as an index into the visited matrix.
`FindPath` returns an `Outcome` that makes this panic an explicit value.

Neither endpoint is checked against the grid before the search, so two behaviours are worth
noting:

- An end outside the grid never crashes. Every neighbour the search enters passes `isValid`,
  so the end is never reached and the result is the empty path.
- When the start equals the end, the one-cell path comes back even for a point outside the
  grid.

## Model

| member | source | states |
|---|---|---|
| Grid.InGridIffCell | be/main.go:115-117 | the bounds check `isValid(p, 4, 4)` holds exactly for the cells of the 4×4 visited matrix |
| Grid.UnitStepIffDirection | be/main.go:85-94 | a neighbour built from one of the four direction vectors is exactly a point one unit away on exactly one axis, in both directions of the equivalence |
| Grid.DirectionOf | be/main.go:85-94 | for any unit step there is a direction index whose vector, added to the first point, gives the second |
| Grid.CellsCount | be/main.go:45-50 | the set of grid cells has exactly gridSize × gridSize = 16 elements, one per slot of the visited matrix |
| Paths.PathLengthBound | be/main.go:81-96 | a repetition-free sequence of grid cells has at most 16 elements |
| PathFinder.ExtendSearchPath | be/main.go:99-103 | prepending the current cell to the path found from an unvisited in-grid neighbour gives a path from the current cell; the marks left behind already include the current cell |
| PathFinder.Dfs | be/main.go:71-113 | a failed call returns the visited matrix with the current cell unmarked and nothing else changed; since every caller enters with the cell unmarked, that is the matrix it was given |
| PathFinder.Explore | be/main.go:92-110 | a direction loop that finds nothing hands back exactly the matrix it was given, because failed neighbours unmark themselves |
| PathFinder.DfsSound | be/main.go:71-113 | on success the path starts at the current cell and ends at `end`; it moves by unit steps and repeats no cell; its later cells are in the grid and were unvisited on entry; the matrix comes back with every path cell except the end marked |
| PathFinder.ExploreSound | be/main.go:92-108 | the direction loop's success has the same guarantees as `DfsSound`, and its path has at least two cells |
| PathFinder.ExploreFirstSuccess | be/main.go:85-104 | a successful loop reports the current cell followed by the path of the first direction, in the order right, down, left, up, whose neighbour is in bounds, unvisited and succeeds; no earlier direction succeeds |
| PathFinder.ExploreReaches | be/main.go:93-104 | if some direction at or after the loop's position succeeds, the loop succeeds |
| PathFinder.DfsComplete | be/main.go:93-112 | backtracking makes the search complete: whenever a repetition-free walk of grid cells leads from the current cell to `end` through unvisited cells, the search succeeds |
| PathFinder.FindPath | be/main.go:43-69 | equal endpoints give `[start]`; a different out-of-grid start panics at the visited-matrix index; otherwise the result is empty or a valid path from start to end of at most 16 in-grid cells |
| PathFinder.FindPathTotal | be/main.go:62-65 | on the open grid the search never fails between two grid cells, so the result is non-empty |
| PathFinder.FindPathEmptyIff | be/main.go:62-68 | from a grid cell to a different point, the result is the empty path exactly when the end lies outside the grid |
| Scenarios.RightNeighbour | be/main.go:85-103 | right is tried first, so (0,0) to (0,1) gives `[(0,0), (0,1)]` |
| Scenarios.NotShortest | be/main.go:85-104 | the search is not shortest-path: from (3,3) to the adjacent (2,3), it takes left before up, so the second cell is (3,2) and the path has more than two cells |
| Scenarios.SkipOutside | be/main.go:93-107 | directions whose neighbour leaves the grid are passed over: the direction loop from the start behaves as the loop from the first direction that stays inside |
| Scenarios.Via | be/main.go:93-103 | when every earlier direction leaves the grid and the search from the neighbour in direction `d` finds a path, the search from the cell finds that cell followed by the neighbour's path |
| Scenarios.DownRightColumn | be/main.go:85-104 | the whole path from (0,3) to (3,3) is `[(0,3), (1,3), (2,3), (3,3)]`: at every cell right leaves the grid and down is taken |
| Scenarios.EndOutsideGrid | be/main.go:94-96 | an end outside the grid is never entered: (0,0) to (4,0) gives the empty path |
| Scenarios.StartOutsideGrid | be/main.go:81 | (-1,0) to (1,1) panics indexing the visited matrix with (-1,0) |

## Left out

- `FindPathHandler`, `enableCORS` and `main` are left out. They decode and encode JSON, write HTTP responses, set headers and start the server, which is transport and I/O.
- The console logging in `findPath` and `dfs` is left out, because it does not affect any result.
- The slice and pointer mechanics of `path *[]Point` are not modelled. The path is returned as a value, which is exact because the accumulator is empty on every entry to `dfs`.
- Go's `int` (32 or 64 bits) is modelled as an unbounded integer. The only addition, building a neighbour, runs after the current cell has indexed the matrix. That cell is therefore in [0, 4)², so no overflow is reachable.
- Endpoints are not validated before the search, as in `findPath`; an out-of-grid end gives the empty path and an out-of-grid start panics.
