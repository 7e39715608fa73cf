# Maze solver: a Dafny model

This project models the `Maze` class of a small Python maze solver (`maze.py`). A
maze is a `rows x cols` grid whose cells are open (`None`), wall (`*`), path
(`x`) or tried (`o`), plus an optional start and exit position. Three setters
place walls and the start and exit, each checking its bounds. `find_path` runs a
backtracking depth-first search with an explicit stack. It peeks at the top
position on every iteration and tries moves in the fixed order up, right, down,
left. A cell is marked path when the search moves on from it to a neighbour,
and tried when it is popped. `reset` turns every path or tried cell back to
open.

Layout:

- `grid.dfy`, module `Grids`: the cell markers, positions, and the fixed-size
  two-dimensional store. The store stands in for the external `Array2D`.
- `maze.dfy`, modules `Results` and `Mazes`: the maze record, the setters,
  `ValidMove`, `ExitFound`, the two marking operations, and the frame
  predicate `KeepsWalls`.
- `search.dfy`, module `Search`: directions and their priority, `NextMove`,
  one loop iteration `Step`, the loop invariants, walks, and the termination
  measure.
- `solver.dfy`, module `Solver`: the lemmas that each iteration keeps the
  invariant and lowers the measure, what the two exits of the loop establish,
  and `FindPath` itself.
- `reset.dfy`, module `Reset`: `reset` as a specification function and as
  the row-by-row scan.

The model is purely functional. The grid is a value. The mutation in the
source becomes returning a new maze. The `Stack` becomes a `seq<Pos>` whose
last element is the top. The source uses an `AssertionError` from `peek` or
`pop` on an empty stack as its loop-exit signal. The model replaces it with an
explicit emptiness check: a pop that leaves the stack empty ends the search
with failure.

The termination measure is the maze's weight plus the weight of the top cell.
The maze's weight counts 2 for every open cell, 1 for every path cell and 0
otherwise. The top cell counts 0 if open, 1 if path and 2 otherwise. Every
iteration that does not return lowers this measure by at least one, on any
grid. So the loop runs at most `2 * rows * cols + 3` times.

"Pristine" means that every cell is open or a wall. A maze built by `NewMaze`
and the setters is pristine (`NewMaze` and `SetWall` promise this). On a
pristine maze the model also proves completeness. When `FindPath` fails, every
cell reachable from the start has been marked tried, and no walk from start to
exit exists. So on such a maze the search succeeds exactly when the exit is
reachable.

Two behaviours of the code shape the contracts:

- An unset start or exit is a precondition of `FindPath`. With either unset,
  the code fails with an attribute error on `None.row`, at maze.py:54 for the
  start and at maze.py:109 for the exit. The `except AssertionError` at
  maze.py:56 does not catch that error.
- `set_wall` may put a wall on the start cell, and the search then overwrites
  it with a path or tried marker. `KeepsWalls` therefore promises that walls
  survive everywhere except on the start cell.

## Model

| member | source | states |
|---|---|---|
| Mazes.NewMaze | maze.py:11-15 | A new maze has the requested dimensions, every cell open, no start and no exit; it is pristine. |
| Mazes.SetWall | maze.py:25-29 | Succeeds exactly when 0 <= row < rows and 0 <= col < cols, otherwise reports an out-of-range index; on success only cell (row, col) changes, to wall, start and exit stay, and a pristine maze stays pristine. |
| Mazes.SetStart | maze.py:31-35 | Succeeds exactly for in-range coordinates; on success the start becomes (row, col) and the grid and exit are untouched. |
| Mazes.SetExit | maze.py:37-41 | Succeeds exactly for in-range coordinates; on success the exit becomes (row, col) and the grid and start are untouched. |
| Mazes.MarkPath | maze.py:115-117 | The cell at p becomes path and no other cell, dimension, start or exit changes. |
| Mazes.MarkTried | maze.py:111-113 | The cell at p becomes tried and no other cell, dimension, start or exit changes. |
| Search.NextMove | maze.py:62-73 | Returns the first direction in the order up, right, down, left whose neighbour is a valid move: that neighbour is valid and every earlier direction's is not; returns none exactly when no neighbour is valid. |
| Search.StepPushesOpen | maze.py:101-105 | The search never leaves the grid and never steps onto a wall, path or tried cell: a position pushed by an iteration is a side neighbour of the old top, lies inside the grid, and was open; the rest of the stack is unchanged. |
| Search.Step | maze.py:53-79 | One loop iteration writes only the top cell. It stops with success exactly when the top is the exit (the test of maze.py:59 and maze.py:107-109), and the exit is then marked path. Otherwise, if some neighbour is valid, it pushes the first valid one in priority order and marks the top path. Otherwise it marks the top tried and pops it, and stops with failure exactly when the stack becomes empty. |
| Solver.MarkTopKeepsWalls | maze.py:60-75 | Writing path or tried onto the top never overwrites a wall, except a wall standing on the start, and never creates one. |
| Solver.StepDecreases | maze.py:52-79 | Every iteration that does not return strictly lowers the termination measure, on any grid. |
| Solver.PushShape | maze.py:62-73 | After a push, the stack still starts at the start and holds distinct, in-bounds, side-by-side positions. Every entry below the new top is marked path, and the new top is still open. |
| Solver.PushExplored | maze.py:62-73 | After a push, every path cell is still on the stack, no tried cell has an open neighbour, and the exit is not tried. |
| Solver.PopShape | maze.py:74-79 | After marking the top tried and popping it, the stack is still a distinct side-by-side chain from the start whose entries are all path cells. |
| Solver.PopExplored | maze.py:74-79 | After popping a dead end, every path cell is still on the stack, no tried cell (the newly tried one included) has an open in-bounds neighbour, and the exit is not tried. |
| Solver.StepKeepsInv | maze.py:52-79 | Every iteration that does not return keeps the loop invariant: walls kept, the stack shape, and, on a pristine maze, what the search has explored. |
| Solver.FoundIsWalk | maze.py:59-61 | On success the stack is a walk from start to exit through cells after the start that were not walls, all now marked path. On a pristine maze there are no other path cells. |
| Solver.ExhaustedExplored | maze.py:74-79 | On failure the stack is empty and the start, the last cell popped, is marked tried. On a pristine maze no path cell remains. |
| Solver.WalkReachesTried | maze.py:44-79 | After a failed search on a pristine maze, every cell at the end of a walk from the start is marked tried. |
| Solver.ExhaustedMeansUnreachable | maze.py:44-79 | After a failed search on a pristine maze, no walk leads from the start to the exit. |
| Solver.FindPath | maze.py:44-79 | Requires start and exit to be set. Walls other than on the start are never overwritten. A true result comes with a walk from start to exit whose cells are all marked path, and on a pristine maze these are the only path cells. A false result leaves the start tried. On a pristine maze, false also means every cell reachable from the start is tried and the exit is unreachable. The loop runs at most 2 * rows * cols + 3 times. |
| Reset.Cleared | maze.py:81-87 | After reset no cell is path or tried, a cell is a wall exactly when it was one before, every other cell is open, and the start and exit are unchanged. |
| Reset.Reset | maze.py:81-87 | The row-by-row scan that rewrites path and tried cells to open computes exactly that cleared maze. |
| Reset.ResetIdempotent | maze.py:81-87 | Resetting twice gives the same maze as resetting once. |
| Reset.ResetRestoresLayout | maze.py:81-87 | After a search on a pristine maze with no wall on its start, reset gives back exactly the original maze, so a repeated search follows the same course. |

## Left out

- `build_maze` (maze.py:126-138) is left out. It reads a file, and it takes
  single-digit dimensions and coordinates from fixed character offsets.
- The module-level script (maze.py:140-145) is left out. It loads, solves,
  prints and resets one maze with global side effects.
- `__str__` (maze.py:89-99) is left out. It only renders the grid as text for
  display.
- `num_rows` and `num_cols` (maze.py:17-23) are the accessors `Mazes.NumRows`
  and `Mazes.NumCols`. They carry no contract of their own.
- `_valid_move` (maze.py:101-105) and `_exit_found` (maze.py:107-109) are the
  plain definitions `Mazes.ValidMove` and `Mazes.ExitFound`, with no contract
  of their own. What they mean for the search is stated on
  `Search.StepPushesOpen`, `Search.NextMove` and `Search.Step`.
- `Array2D` and `Stack` are not part of this model. They are external
  modules; the grid datatype and a sequence replace them. Their bounds checks
  appear as preconditions on `Get` and `Set`. Their empty-stack
  `AssertionError` appears as an explicit emptiness check.
- A search with an unset start or exit is excluded by a precondition, because
  the source crashes there rather than returning a result.
- Solver.FindPath: completeness is proved only on pristine mazes. On a maze
  that already carries path or tried markers, for example from an earlier
  search without a reset, a false result proves nothing about reachability.
- Solver.FindPath: the iteration bound is stated on a ghost counter. The
  source has no such counter.
- Solver.FindPath: the contract does not fix which walk is returned. The
  up, right, down, left priority is stated per iteration, on `Search.Step`
  and `Search.NextMove`, not as a closed description of the final path.
