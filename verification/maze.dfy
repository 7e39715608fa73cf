/** Optional values and error results, used for the maze's unset start/exit
    and for setters that reject out-of-range coordinates. */
module Results {

  datatype Option<T> = None | Some(value: T)

  datatype Result<T, E> = Ok(value: T) | Err(error: E)
}

/** The maze proper: a grid of markers plus an optional start and exit
    position, with the bounds-checked setters and the small queries the search
    is built from. */
module Mazes {
  import opened Results
  import opened Grids

  /** The only failure a setter reports: the assertion "Cell index out of
      range." */
  datatype MazeError = IndexOutOfRange

  datatype Maze = Maze(cells: Grid, start: Option<Pos>, exit: Option<Pos>)

  /** The grid is well formed and a start or exit that is set lies inside it. */
  predicate Valid(m: Maze)
  {
    && m.cells.Valid()
    && (m.start.Some? ==> m.cells.Contains(m.start.value))
    && (m.exit.Some? ==> m.cells.Contains(m.exit.value))
  }

  /** Start and exit are both set: what the search needs before it may run. */
  predicate Ready(m: Maze)
  {
    Valid(m) && m.start.Some? && m.exit.Some?
  }

  function NumRows(m: Maze): nat { m.cells.rows }

  function NumCols(m: Maze): nat { m.cells.cols }

  predicate InBounds(m: Maze, p: Pos) { m.cells.Contains(p) }

  function At(m: Maze, p: Pos): Cell
    requires Valid(m) && InBounds(m, p)
  {
    m.cells.Get(p)
  }

  /** Every cell is open or a wall: nothing is marked path or tried yet. */
  ghost predicate Pristine(m: Maze)
    requires Valid(m)
  {
    forall p :: InBounds(m, p) ==> At(m, p) == Empty || At(m, p) == Wall
  }

  /** A new rows x cols maze: all cells open, neither start nor exit set. */
  function NewMaze(rows: nat, cols: nat): (m: Maze)
    ensures Valid(m) && NumRows(m) == rows && NumCols(m) == cols
    ensures m.start.None? && m.exit.None?
    ensures forall p :: InBounds(m, p) ==> At(m, p) == Empty
    ensures Pristine(m)
  {
    Maze(Blank(rows, cols), None, None)
  }

  /** Places a wall at (row, col), or reports the coordinates out of range. */
  function SetWall(m: Maze, row: int, col: int): (r: Result<Maze, MazeError>)
    requires Valid(m)
    ensures r.Ok? <==> 0 <= row < NumRows(m) && 0 <= col < NumCols(m)
    ensures r.Ok? ==> Valid(r.value) && r.value.start == m.start && r.value.exit == m.exit
    ensures r.Ok? ==> NumRows(r.value) == NumRows(m) && NumCols(r.value) == NumCols(m)
    ensures r.Ok? ==> At(r.value, Pos(row, col)) == Wall
    ensures r.Ok? ==> forall q :: InBounds(m, q) && q != Pos(row, col) ==> At(r.value, q) == At(m, q)
    ensures r.Ok? && Pristine(m) ==> Pristine(r.value)
  {
    if 0 <= row < NumRows(m) && 0 <= col < NumCols(m) then
      Ok(m.(cells := m.cells.Set(Pos(row, col), Wall)))
    else
      Err(IndexOutOfRange)
  }

  /** Records (row, col) as the start, or reports it out of range. */
  function SetStart(m: Maze, row: int, col: int): (r: Result<Maze, MazeError>)
    requires Valid(m)
    ensures r.Ok? <==> 0 <= row < NumRows(m) && 0 <= col < NumCols(m)
    ensures r.Ok? ==> Valid(r.value) && r.value.start == Some(Pos(row, col))
    ensures r.Ok? ==> r.value.cells == m.cells && r.value.exit == m.exit
  {
    if 0 <= row < NumRows(m) && 0 <= col < NumCols(m) then
      Ok(m.(start := Some(Pos(row, col))))
    else
      Err(IndexOutOfRange)
  }

  /** Records (row, col) as the exit, or reports it out of range. */
  function SetExit(m: Maze, row: int, col: int): (r: Result<Maze, MazeError>)
    requires Valid(m)
    ensures r.Ok? <==> 0 <= row < NumRows(m) && 0 <= col < NumCols(m)
    ensures r.Ok? ==> Valid(r.value) && r.value.exit == Some(Pos(row, col))
    ensures r.Ok? ==> r.value.cells == m.cells && r.value.start == m.start
  {
    if 0 <= row < NumRows(m) && 0 <= col < NumCols(m) then
      Ok(m.(exit := Some(Pos(row, col))))
    else
      Err(IndexOutOfRange)
  }

  /** The search may step onto p: it is inside the grid and holds no wall,
      path or tried marker. */
  predicate ValidMove(m: Maze, p: Pos)
    requires Valid(m)
  {
    0 <= p.row < NumRows(m) && 0 <= p.col < NumCols(m) && At(m, p) == Empty
  }

  /** p is the exit cell. */
  predicate ExitFound(m: Maze, p: Pos)
    requires m.exit.Some?
  {
    p == m.exit.value
  }

  /** Drops a "path" token at p. */
  function MarkPath(m: Maze, p: Pos): (r: Maze)
    requires Valid(m) && InBounds(m, p)
    ensures Valid(r) && r.start == m.start && r.exit == m.exit
    ensures NumRows(r) == NumRows(m) && NumCols(r) == NumCols(m)
    ensures At(r, p) == Path
    ensures forall q :: InBounds(m, q) && q != p ==> At(r, q) == At(m, q)
  {
    m.(cells := m.cells.Set(p, Path))
  }

  /** Drops a "tried" token at p. */
  function MarkTried(m: Maze, p: Pos): (r: Maze)
    requires Valid(m) && InBounds(m, p)
    ensures Valid(r) && r.start == m.start && r.exit == m.exit
    ensures NumRows(r) == NumRows(m) && NumCols(r) == NumCols(m)
    ensures At(r, p) == Tried
    ensures forall q :: InBounds(m, q) && q != p ==> At(r, q) == At(m, q)
  {
    m.(cells := m.cells.Set(p, Tried))
  }

  /** m was obtained from m0 by marking cells path or tried: same dimensions,
      start and exit; no new wall anywhere; and every wall of m0 other than the
      start cell is still there. */
  ghost predicate KeepsWalls(m0: Maze, m: Maze)
    requires Valid(m0) && m0.start.Some?
  {
    && Valid(m)
    && NumRows(m) == NumRows(m0) && NumCols(m) == NumCols(m0)
    && m.start == m0.start && m.exit == m0.exit
    && (forall p :: InBounds(m, p) && At(m, p) == Wall ==> At(m0, p) == Wall)
    && (forall p :: InBounds(m, p) && p != m0.start.value && At(m0, p) == Wall ==> At(m, p) == Wall)
  }
}
