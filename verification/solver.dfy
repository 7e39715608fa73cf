/** `find_path` as a loop over `Search.Step`, with the proofs that each
    iteration keeps the loop invariant and lowers the termination measure, and
    what the two ways out of the loop establish. */
module Solver {
  import opened Grids
  import opened Mazes
  import opened Search

  // ---------------------------------------------------------------------------
  // Marking the top cell
  // ---------------------------------------------------------------------------

  /** The top is the start or an open or path cell, so marking it path or
      tried keeps every wall but a wall standing on the start. */
  lemma MarkTopKeepsWalls(m0: Maze, m: Maze, stack: seq<Pos>, v: Cell)
    requires Inv(m0, m, stack) && |stack| > 0
    requires v == Path || v == Tried
    ensures InBounds(m, Top(stack))
    ensures KeepsWalls(m0, m.(cells := m.cells.Set(Top(stack), v)))
  {
  }

  /** One continuing iteration lowers the potential. */
  lemma StepDecreases(m0: Maze, m: Maze, stack: seq<Pos>)
    requires Inv(m0, m, stack) && |stack| > 0
    ensures InBounds(m, Top(stack))
    ensures Step(m, stack).status == Searching ==>
              Potential(Step(m, stack).maze, Step(m, stack).stack) < Potential(m, stack)
  {
    var cur := Top(stack);
    assert InBounds(m, stack[|stack| - 1]);
    var r := Step(m, stack);
    if r.status == Searching {
      if NextMove(m, cur).Some? {
        var n := Neighbour(cur, NextMove(m, cur).value);
        WeightMark(m, cur, Path);
        assert r.maze == m.(cells := m.cells.Set(cur, Path));
        assert Top(r.stack) == n && At(r.maze, n) == Empty;
      } else {
        var q := stack[|stack| - 2];
        WeightMark(m, cur, Tried);
        assert r.maze == m.(cells := m.cells.Set(cur, Tried));
        assert Top(r.stack) == q && At(m, q) == Path && q != cur;
      }
    }
  }

  // ---------------------------------------------------------------------------
  // The stack invariant across push and pop
  // ---------------------------------------------------------------------------

  /** m' is m with only cell p rewritten, to v. */
  ghost predicate MarkedAt(m: Maze, m': Maze, p: Pos, v: Cell)
    requires Valid(m)
  {
    && Valid(m') && InBounds(m, p)
    && NumRows(m') == NumRows(m) && NumCols(m') == NumCols(m)
    && m'.start == m.start && m'.exit == m.exit
    && At(m', p) == v
    && forall q :: InBounds(m, q) && q != p ==> At(m', q) == At(m, q)
  }

  /** Pushing an open neighbour of the top, which is marked path, keeps the
      stack a distinct side-by-side chain of path cells from the start. */
  lemma PushShape(m: Maze, stack: seq<Pos>, n: Pos, m': Maze)
    requires Valid(m) && m.start.Some? && StackShape(m, stack) && |stack| > 0
    requires Adjacent(Top(stack), n) && InBounds(m, n) && At(m, n) == Empty
    requires MarkedAt(m, m', Top(stack), Path)
    ensures StackShape(m', stack + [n])
    ensures At(m', n) == Empty
  {
  }

  /** Pushing keeps what a pristine search has learnt: the top becomes a path
      cell on the stack and no cell turns open. */
  lemma PushExplored(m: Maze, stack: seq<Pos>, n: Pos, m': Maze)
    requires Valid(m) && m.exit.Some? && Explored(m, stack) && |stack| > 0
    requires Top(stack) != m.exit.value
    requires MarkedAt(m, m', Top(stack), Path)
    ensures Explored(m', stack + [n])
  {
  }

  /** Popping a top that was marked tried leaves a distinct side-by-side chain
      from the start whose entries are all path cells. */
  lemma PopShape(m: Maze, stack: seq<Pos>, m': Maze)
    requires Valid(m) && m.start.Some? && StackShape(m, stack) && |stack| > 0
    requires MarkedAt(m, m', Top(stack), Tried)
    ensures StackShape(m', stack[..|stack| - 1])
    ensures forall i :: 0 <= i < |stack| - 1 ==> At(m', stack[i]) == Path
  {
  }

  /** Popping a dead end keeps what a pristine search has learnt: the newly
      tried cell has no open neighbour, and every path cell is still on the
      stack. */
  lemma PopExplored(m: Maze, stack: seq<Pos>, m': Maze)
    requires Valid(m) && m.exit.Some? && Explored(m, stack) && |stack| > 0
    requires Top(stack) != m.exit.value
    requires forall e :: !ValidMove(m, Neighbour(Top(stack), e))
    requires MarkedAt(m, m', Top(stack), Tried)
    ensures Explored(m', stack[..|stack| - 1])
  {
  }

  /** Every continuing iteration keeps the invariant. */
  lemma StepKeepsInv(m0: Maze, m: Maze, stack: seq<Pos>)
    requires Inv(m0, m, stack) && |stack| > 0
    ensures InBounds(m, Top(stack))
    ensures Step(m, stack).status == Searching ==>
              Inv(m0, Step(m, stack).maze, Step(m, stack).stack) && |Step(m, stack).stack| > 0
  {
    var cur := Top(stack);
    assert InBounds(m, stack[|stack| - 1]);
    var r := Step(m, stack);
    if cur != m.exit.value {
      if NextMove(m, cur).Some? {
        var n := Neighbour(cur, NextMove(m, cur).value);
        assert r.stack == stack + [n];
        MarkTopKeepsWalls(m0, m, stack, Path);
        PushShape(m, stack, n, r.maze);
        if Pristine(m0) {
          PushExplored(m, stack, n, r.maze);
        }
      } else if |stack| > 1 {
        MarkTopKeepsWalls(m0, m, stack, Tried);
        PopShape(m, stack, r.maze);
        if Pristine(m0) {
          PopExplored(m, stack, r.maze);
        }
      }
    }
  }

  // ---------------------------------------------------------------------------
  // Leaving the loop
  // ---------------------------------------------------------------------------

  /** On success the stack is a walk from start to exit whose cells after the
      start were not walls, now every one of them marked path. */
  lemma FoundIsWalk(m0: Maze, m: Maze, stack: seq<Pos>)
    requires Inv(m0, m, stack) && |stack| > 0
    requires InBounds(m, Top(stack))
    requires Step(m, stack).status == Found
    ensures KeepsWalls(m0, Step(m, stack).maze)
    ensures IsWalk(m0, Step(m, stack).stack)
    ensures forall i :: 0 <= i < |Step(m, stack).stack| ==>
              At(Step(m, stack).maze, Step(m, stack).stack[i]) == Path
    ensures Pristine(m0) ==>
              forall p :: InBounds(Step(m, stack).maze, p) && At(Step(m, stack).maze, p) == Path
                ==> p in Step(m, stack).stack
  {
  }

  /** On failure the start has been marked tried and, on a pristine maze,
      everything the search learnt holds of an empty stack. */
  lemma ExhaustedExplored(m0: Maze, m: Maze, stack: seq<Pos>)
    requires Inv(m0, m, stack) && |stack| > 0
    requires InBounds(m, Top(stack))
    requires Step(m, stack).status == Exhausted
    ensures KeepsWalls(m0, Step(m, stack).maze)
    ensures Step(m, stack).stack == []
    ensures At(Step(m, stack).maze, m0.start.value) == Tried
    ensures Pristine(m0) ==> Explored(Step(m, stack).maze, [])
  {
  }

  /** Once the search has given up on a pristine maze, every cell a walk from
      the start can reach is marked tried. */
  lemma {:induction false} WalkReachesTried(m0: Maze, m: Maze, w: seq<Pos>)
    requires Ready(m0) && KeepsWalls(m0, m) && Explored(m, [])
    requires At(m, m0.start.value) == Tried
    requires WalkFromStart(m0, w)
    ensures At(m, w[|w| - 1]) == Tried
  {
    if |w| > 1 {
      var w' := w[..|w| - 1];
      assert WalkFromStart(m0, w') by {
        forall i | 0 < i < |w'| ensures Adjacent(w'[i - 1], w'[i]) {
          assert w'[i - 1] == w[i - 1] && w'[i] == w[i];
        }
      }
      WalkReachesTried(m0, m, w');
      var p, q := w[|w| - 2], w[|w| - 1];
      // q is the neighbour of the tried cell p in this direction
      var d := Toward(p, q);
    }
  }

  /** A failed search on a pristine maze proves the exit unreachable. */
  lemma ExhaustedMeansUnreachable(m0: Maze, m: Maze)
    requires Ready(m0) && KeepsWalls(m0, m) && Explored(m, [])
    requires At(m, m0.start.value) == Tried
    ensures forall w :: !IsWalk(m0, w)
  {
    forall w | WalkFromStart(m0, w) ensures w[|w| - 1] != m0.exit.value {
      WalkReachesTried(m0, m, w);
    }
  }

  // ---------------------------------------------------------------------------
  // find_path
  // ---------------------------------------------------------------------------

  /** Searches from the start for the exit. On success the returned path is a
      walk from start to exit whose every cell is now marked path; on failure
      the start is marked tried and, if the maze held only open cells and walls,
      no walk from start to exit exists. Walls other than the start cell are
      never overwritten, and the loop runs at most 2 * rows * cols + 3 times. */
  method FindPath(m: Maze) returns (found: bool, result: Maze, path: seq<Pos>, ghost steps: nat)
    requires Ready(m)
    ensures KeepsWalls(m, result)
    ensures found ==> IsWalk(m, path)
    ensures found ==> forall i :: 0 <= i < |path| ==> At(result, path[i]) == Path
    ensures !found ==> path == [] && At(result, m.start.value) == Tried
    ensures found && Pristine(m) ==> forall p :: InBounds(result, p) && At(result, p) == Path ==> p in path
    ensures !found && Pristine(m) ==> forall w :: WalkFromStart(m, w) ==> At(result, w[|w| - 1]) == Tried
    ensures !found && Pristine(m) ==> forall w :: !IsWalk(m, w)
    ensures steps <= 2 * NumRows(m) * NumCols(m) + 3
  {
    var cur := m;
    var stack := [m.start.value];
    ghost var bound := Potential(m, stack);
    WeightBound(m);
    steps := 0;
    while true
      invariant Inv(m, cur, stack) && |stack| > 0
      invariant steps + Potential(cur, stack) <= bound <= 2 * NumRows(m) * NumCols(m) + 2
      decreases Potential(cur, stack)
    {
      steps := steps + 1;
      StepKeepsInv(m, cur, stack);
      StepDecreases(m, cur, stack);
      var r := Step(cur, stack);
      if r.status == Found {
        FoundIsWalk(m, cur, stack);
        return true, r.maze, r.stack, steps;
      } else if r.status == Exhausted {
        ExhaustedExplored(m, cur, stack);
        if Pristine(m) {
          forall w | WalkFromStart(m, w) ensures At(r.maze, w[|w| - 1]) == Tried {
            WalkReachesTried(m, r.maze, w);
          }
          ExhaustedMeansUnreachable(m, r.maze);
        }
        return false, r.maze, [], steps;
      }
      cur, stack := r.maze, r.stack;
    }
  }
}
