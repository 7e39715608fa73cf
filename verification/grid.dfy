/** Cell markers, positions and the fixed-size two-dimensional store the maze
    keeps them in. The store plays the part of the external `Array2D`: a
    rows x cols array whose every access is bounds-checked by its caller. */
module Grids {

  /** The four markers a maze cell can hold: `None` (open), `*` (wall),
      `x` (on the current path) and `o` (tried, a dead end). */
  datatype Cell = Empty | Wall | Path | Tried

  /** A cell position. Coordinates are unbounded integers so that the
      neighbours of a border cell (row - 1 = -1, say) can be formed and then
      rejected by a bounds check, as the search does. */
  datatype Pos = Pos(row: int, col: int)

  /** A rows x cols array of markers, stored row by row. */
  datatype Grid = Grid(rows: nat, cols: nat, cells: seq<seq<Cell>>)
  {
    /** The stored rows agree with the declared dimensions. */
    predicate Valid()
    {
      |cells| == rows && forall r :: 0 <= r < |cells| ==> |cells[r]| == cols
    }

    predicate Contains(p: Pos)
    {
      0 <= p.row < rows && 0 <= p.col < cols
    }

    function Get(p: Pos): Cell
      requires Valid() && Contains(p)
    {
      cells[p.row][p.col]
    }

    /** Overwrites one cell; every other cell and the dimensions stay. */
    function Set(p: Pos, v: Cell): (g: Grid)
      requires Valid() && Contains(p)
      ensures g.Valid() && g.rows == rows && g.cols == cols
      ensures g.Get(p) == v
      ensures forall q :: g.Contains(q) && q != p ==> g.Get(q) == Get(q)
    {
      Grid(rows, cols, cells[p.row := cells[p.row][p.col := v]])
    }
  }

  /** A freshly allocated array: every cell open. */
  function Blank(rows: nat, cols: nat): (g: Grid)
    ensures g.Valid() && g.rows == rows && g.cols == cols
    ensures forall p :: g.Contains(p) ==> g.Get(p) == Empty
  {
    Grid(rows, cols, seq(rows, _ => seq(cols, _ => Empty)))
  }

  /** Two valid grids of equal dimensions that agree on every cell are equal. */
  lemma Extensionality(a: Grid, b: Grid)
    requires a.Valid() && b.Valid() && a.rows == b.rows && a.cols == b.cols
    requires forall p :: a.Contains(p) ==> a.Get(p) == b.Get(p)
    ensures a == b
  {
    forall r | 0 <= r < a.rows
      ensures a.cells[r] == b.cells[r]
    {
      forall c | 0 <= c < a.cols
        ensures a.cells[r][c] == b.cells[r][c]
      {
        assert a.Get(Pos(r, c)) == b.Get(Pos(r, c));
      }
    }
  }
}
