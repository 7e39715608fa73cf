/** `reset`: every path or tried marker goes back to open; walls, open cells,
    start and exit stay. */
module Reset {
  import opened Grids
  import opened Mazes

  /** What reset does to one cell. */
  function Clear(c: Cell): Cell
  {
    if c == Path || c == Tried then Empty else c
  }

  /** The maze with its search markers removed: a cell is a wall afterwards
      exactly when it was one before, and every other cell is open. */
  function Cleared(m: Maze): (r: Maze)
    requires Valid(m)
    ensures Valid(r) && NumRows(r) == NumRows(m) && NumCols(r) == NumCols(m)
    ensures r.start == m.start && r.exit == m.exit
    ensures forall p :: InBounds(r, p) ==> At(r, p) != Path && At(r, p) != Tried
    ensures forall p :: InBounds(r, p) ==> (At(r, p) == Wall <==> At(m, p) == Wall)
    ensures forall p :: InBounds(r, p) && At(m, p) != Wall ==> At(r, p) == Empty
    ensures Pristine(r)
  {
    var rows, cols := NumRows(m), NumCols(m);
    var cells :=
      seq(rows, i requires 0 <= i < rows =>
        seq(cols, j requires 0 <= j < cols => Clear(m.cells.cells[i][j])));
    m.(cells := Grid(rows, cols, cells))
  }

  /** The scan over every row and column that clears the markers in place. */
  method Reset(m: Maze) returns (r: Maze)
    requires Valid(m)
    ensures r == Cleared(m)
  {
    var rows, cols := NumRows(m), NumCols(m);
    var orig := m.cells.cells;
    var cells := orig;
    var row := 0;
    while row < rows
      invariant 0 <= row <= rows
      invariant |cells| == rows && forall i :: 0 <= i < rows ==> |cells[i]| == cols
      invariant forall i, j :: 0 <= i < rows && 0 <= j < cols ==>
                  cells[i][j] == if i < row then Clear(orig[i][j]) else orig[i][j]
    {
      var col := 0;
      while col < cols
        invariant 0 <= col <= cols
        invariant |cells| == rows && forall i :: 0 <= i < rows ==> |cells[i]| == cols
        invariant forall i, j :: 0 <= i < rows && 0 <= j < cols ==>
                    cells[i][j] == if i < row || (i == row && j < col) then Clear(orig[i][j]) else orig[i][j]
      {
        if cells[row][col] == Path || cells[row][col] == Tried {
          cells := cells[row := cells[row][col := Empty]];
        }
        col := col + 1;
      }
      row := row + 1;
    }
    r := m.(cells := Grid(rows, cols, cells));
    Extensionality(r.cells, Cleared(m).cells);
  }

  /** Resetting twice is resetting once. */
  lemma ResetIdempotent(m: Maze)
    requires Valid(m)
    ensures Cleared(Cleared(m)) == Cleared(m)
  {
    Extensionality(Cleared(Cleared(m)).cells, Cleared(m).cells);
  }

  /** After a search on a maze that held only open cells and walls, with no
      wall on its start, reset gives back exactly that maze, so the same
      search can be run again. */
  lemma ResetRestoresLayout(m0: Maze, m: Maze)
    requires Ready(m0) && Pristine(m0) && At(m0, m0.start.value) != Wall
    requires KeepsWalls(m0, m)
    ensures Cleared(m) == m0
  {
    var r := Cleared(m);
    forall p | r.cells.Contains(p) ensures r.cells.Get(p) == m0.cells.Get(p) {
      assert At(r, p) == r.cells.Get(p) && At(m0, p) == m0.cells.Get(p);
      if p != m0.start.value {
        assert At(m0, p) == Wall <==> At(m, p) == Wall;
      }
    }
    Extensionality(r.cells, m0.cells);
  }
}
