/** The backtracking depth-first search of `find_path`: an explicit stack of
    positions whose top is examined on every iteration, moves tried in the
    fixed order up, right, down, left; a cell is marked path when the search
    moves on from it to a neighbour, and tried when it is popped. */
module Search {
  import opened Results
  import opened Grids
  import opened Mazes

  // ---------------------------------------------------------------------------
  // Moves
  // ---------------------------------------------------------------------------

  datatype Direction = Up | Right | Down | Left

  /** Position of a direction in the search's priority order. */
  function Rank(d: Direction): nat
  {
    match d
    case Up => 0
    case Right => 1
    case Down => 2
    case Left => 3
  }

  function Neighbour(p: Pos, d: Direction): Pos
  {
    match d
    case Up => Pos(p.row - 1, p.col)
    case Right => Pos(p.row, p.col + 1)
    case Down => Pos(p.row + 1, p.col)
    case Left => Pos(p.row, p.col - 1)
  }

  /** p and q share a side. */
  predicate Adjacent(p: Pos, q: Pos)
  {
    || (p.row == q.row && (q.col == p.col + 1 || q.col == p.col - 1))
    || (p.col == q.col && (q.row == p.row + 1 || q.row == p.row - 1))
  }

  /** The direction that leads from p to an adjacent q. */
  function Toward(p: Pos, q: Pos): (d: Direction)
    requires Adjacent(p, q)
    ensures Neighbour(p, d) == q
  {
    if q.row == p.row - 1 then Up
    else if q.col == p.col + 1 then Right
    else if q.row == p.row + 1 then Down
    else Left
  }

  /** The move the search takes from cur: the first direction, in the order
      up, right, down, left, whose neighbour is a valid move; None when no
      neighbour is. */
  function NextMove(m: Maze, cur: Pos): (r: Option<Direction>)
    requires Valid(m)
    ensures r.Some? ==> ValidMove(m, Neighbour(cur, r.value))
    ensures r.Some? ==> forall d :: Rank(d) < Rank(r.value) ==> !ValidMove(m, Neighbour(cur, d))
    ensures r.None? <==> forall d :: !ValidMove(m, Neighbour(cur, d))
  {
    if ValidMove(m, Neighbour(cur, Up)) then Some(Up)
    else if ValidMove(m, Neighbour(cur, Right)) then Some(Right)
    else if ValidMove(m, Neighbour(cur, Down)) then Some(Down)
    else if ValidMove(m, Neighbour(cur, Left)) then Some(Left)
    else None
  }

  // ---------------------------------------------------------------------------
  // One iteration of the search loop
  // ---------------------------------------------------------------------------

  datatype Status = Searching | Found | Exhausted

  /** The maze and stack after one iteration, and whether the loop goes on. */
  datatype Progress = Progress(status: Status, maze: Maze, stack: seq<Pos>)

  function Top(s: seq<Pos>): Pos
    requires |s| > 0
  {
    s[|s| - 1]
  }

  /** One pass of the loop body: peek at the top; if it is the exit, mark it
      path and stop with success; otherwise push the first valid neighbour and
      mark the top path; otherwise mark the top tried and pop it, stopping
      with failure when the stack runs empty. */
  function Step(m: Maze, stack: seq<Pos>): (r: Progress)
    requires Valid(m) && m.exit.Some? && |stack| > 0 && InBounds(m, Top(stack))
    ensures Valid(r.maze) && r.maze.start == m.start && r.maze.exit == m.exit
    ensures NumRows(r.maze) == NumRows(m) && NumCols(r.maze) == NumCols(m)
    // only the top cell is written
    ensures forall q :: InBounds(m, q) && q != Top(stack) ==> At(r.maze, q) == At(m, q)
    ensures r.status == Found <==> Top(stack) == m.exit.value
    ensures r.status == Found ==> r.stack == stack && At(r.maze, Top(stack)) == Path
    // push: the first valid neighbour in priority order, the top marked path
    ensures r.status != Found && NextMove(m, Top(stack)).Some? ==>
              && r.status == Searching
              && r.stack == stack + [Neighbour(Top(stack), NextMove(m, Top(stack)).value)]
              && At(r.maze, Top(stack)) == Path
    // pop: no neighbour is a valid move, the top marked tried
    ensures r.status != Found && NextMove(m, Top(stack)).None? ==>
              && r.stack == stack[..|stack| - 1]
              && At(r.maze, Top(stack)) == Tried
              && (r.status == Exhausted <==> |stack| == 1)
  {
    var cur := Top(stack);
    if ExitFound(m, cur) then
      Progress(Found, MarkPath(m, cur), stack)
    else
      match NextMove(m, cur)
      case Some(d) =>
        Progress(Searching, MarkPath(m, cur), stack + [Neighbour(cur, d)])
      case None =>
        var rest := stack[..|stack| - 1];
        Progress(if |rest| == 0 then Exhausted else Searching, MarkTried(m, cur), rest)
  }

  /** The search never leaves the grid and never steps onto a wall, path or
      tried cell: a pushed position is a side neighbour of the old top, lies
      inside the grid, and was open. */
  lemma StepPushesOpen(m: Maze, stack: seq<Pos>)
    requires Valid(m) && m.exit.Some? && |stack| > 0 && InBounds(m, Top(stack))
    ensures |Step(m, stack).stack| > |stack| ==>
              var n := Top(Step(m, stack).stack);
              && Step(m, stack).stack[..|stack|] == stack
              && Adjacent(Top(stack), n)
              && InBounds(m, n)
              && At(m, n) != Wall && At(m, n) != Path && At(m, n) != Tried
  {
  }

  // ---------------------------------------------------------------------------
  // Invariants of the search
  // ---------------------------------------------------------------------------

  /** Consecutive positions share a side. */
  ghost predicate Chain(s: seq<Pos>)
  {
    forall i :: 0 < i < |s| ==> Adjacent(s[i - 1], s[i])
  }

  ghost predicate Distinct(s: seq<Pos>)
  {
    forall i, j :: 0 <= i < j < |s| ==> s[i] != s[j]
  }

  /** The stack is the current candidate path: it starts at the start cell,
      holds in-bounds, pairwise distinct, side-by-side positions, every entry
      below the top is marked path, and a top above the start is open or path. */
  ghost predicate StackShape(m: Maze, stack: seq<Pos>)
    requires Valid(m) && m.start.Some?
  {
    && (|stack| > 0 ==> stack[0] == m.start.value)
    && (forall i :: 0 <= i < |stack| ==> InBounds(m, stack[i]))
    && Chain(stack)
    && Distinct(stack)
    && (forall i :: 0 <= i < |stack| - 1 ==> InBounds(m, stack[i]) && At(m, stack[i]) == Path)
    && (|stack| > 1 ==> InBounds(m, Top(stack)) && At(m, Top(stack)) in {Empty, Path})
  }

  /** What a search from a pristine maze has learnt so far: every path cell
      is on the stack, no tried cell has an open neighbour, and the exit has
      not been marked tried. */
  ghost predicate Explored(m: Maze, stack: seq<Pos>)
    requires Valid(m) && m.exit.Some?
  {
    && (forall p :: InBounds(m, p) && At(m, p) == Path ==> p in stack)
    && (forall p, d :: InBounds(m, p) && At(m, p) == Tried && InBounds(m, Neighbour(p, d)) ==>
          At(m, Neighbour(p, d)) != Empty)
    && At(m, m.exit.value) != Tried
  }

  /** The loop invariant of the search started on m0. */
  ghost predicate Inv(m0: Maze, m: Maze, stack: seq<Pos>)
  {
    && Ready(m0)
    && KeepsWalls(m0, m)
    && StackShape(m, stack)
    && (Pristine(m0) ==> Explored(m, stack))
  }

  /** w walks from the start of m one side at a time, staying inside the grid
      and off walls after its first cell. */
  ghost predicate WalkFromStart(m: Maze, w: seq<Pos>)
    requires Valid(m) && m.start.Some?
  {
    && |w| > 0
    && w[0] == m.start.value
    && (forall i :: 0 <= i < |w| ==> InBounds(m, w[i]))
    && Chain(w)
    && (forall i :: 0 < i < |w| ==> InBounds(m, w[i]) && At(m, w[i]) != Wall)
  }

  /** w is such a walk and it ends at the exit. */
  ghost predicate IsWalk(m: Maze, w: seq<Pos>)
    requires Ready(m)
  {
    WalkFromStart(m, w) && w[|w| - 1] == m.exit.value
  }

  // ---------------------------------------------------------------------------
  // Termination measure
  // ---------------------------------------------------------------------------

  /** Open cells weigh 2, path cells 1, walls and tried cells nothing. */
  function CellWeight(c: Cell): nat
  {
    match c
    case Empty => 2
    case Path => 1
    case _ => 0
  }

  function RowWeight(s: seq<Cell>): nat
  {
    if |s| == 0 then 0 else RowWeight(s[..|s| - 1]) + CellWeight(s[|s| - 1])
  }

  function RowsWeight(s: seq<seq<Cell>>): nat
  {
    if |s| == 0 then 0 else RowsWeight(s[..|s| - 1]) + RowWeight(s[|s| - 1])
  }

  /** Overwriting one cell of a row changes its weight by that cell's change. */
  lemma {:induction false} RowWeightUpdate(s: seq<Cell>, i: nat, v: Cell)
    requires i < |s|
    ensures RowWeight(s[i := v]) + CellWeight(s[i]) == RowWeight(s) + CellWeight(v)
  {
    var t := s[i := v];
    if i < |s| - 1 {
      assert t[..|t| - 1] == s[..|s| - 1][i := v];
      RowWeightUpdate(s[..|s| - 1], i, v);
    } else {
      assert t[..|t| - 1] == s[..|s| - 1];
    }
  }

  lemma {:induction false} RowsWeightUpdate(s: seq<seq<Cell>>, i: nat, row: seq<Cell>)
    requires i < |s|
    ensures RowsWeight(s[i := row]) + RowWeight(s[i]) == RowsWeight(s) + RowWeight(row)
  {
    var t := s[i := row];
    if i < |s| - 1 {
      assert t[..|t| - 1] == s[..|s| - 1][i := row];
      RowsWeightUpdate(s[..|s| - 1], i, row);
    } else {
      assert t[..|t| - 1] == s[..|s| - 1];
    }
  }

  lemma {:induction false} RowWeightBound(s: seq<Cell>)
    ensures RowWeight(s) <= 2 * |s|
  {
    if |s| > 0 {
      RowWeightBound(s[..|s| - 1]);
    }
  }

  lemma {:induction false} RowsWeightBound(s: seq<seq<Cell>>, cols: nat)
    requires forall r :: 0 <= r < |s| ==> |s[r]| == cols
    ensures RowsWeight(s) <= 2 * cols * |s|
  {
    if |s| > 0 {
      RowsWeightBound(s[..|s| - 1], cols);
      RowWeightBound(s[|s| - 1]);
      assert 2 * cols * (|s| - 1) + 2 * cols == 2 * cols * |s|;
    }
  }

  function Weight(m: Maze): nat
  {
    RowsWeight(m.cells.cells)
  }

  /** The weight of the top cell: open 0, path 1, anything else 2. */
  function TopWeight(m: Maze, stack: seq<Pos>): nat
    requires Valid(m)
  {
    if |stack| == 0 || !InBounds(m, Top(stack)) then 0
    else match At(m, Top(stack))
      case Empty => 0
      case Path => 1
      case _ => 2
  }

  /** The quantity every continuing iteration lowers. */
  function Potential(m: Maze, stack: seq<Pos>): nat
    requires Valid(m)
  {
    Weight(m) + TopWeight(m, stack)
  }

  /** Marking one cell changes the maze's weight by that cell's change. */
  lemma WeightMark(m: Maze, p: Pos, v: Cell)
    requires Valid(m) && InBounds(m, p)
    ensures Weight(m.(cells := m.cells.Set(p, v))) + CellWeight(At(m, p)) == Weight(m) + CellWeight(v)
  {
    var s := m.cells.cells;
    RowWeightUpdate(s[p.row], p.col, v);
    RowsWeightUpdate(s, p.row, s[p.row][p.col := v]);
  }

  /** No maze weighs more than two per cell. */
  lemma WeightBound(m: Maze)
    requires Valid(m)
    ensures Weight(m) <= 2 * NumRows(m) * NumCols(m)
  {
    RowsWeightBound(m.cells.cells, NumCols(m));
  }
}
