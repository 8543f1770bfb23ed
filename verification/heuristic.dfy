/**
 The A* heuristic (`manhattan`): the grid distance between two cells,
 measured on their column and row coordinates.
 */
module Heuristic {
  import opened Wrappers
  import opened Grid
  import opened Graph

  function Abs(x: int): nat {
    if x < 0 then -x else x
  }

  /** The number of column and row steps between cells `a` and `b`; zero exactly on equal cells. */
  function Manhattan(m: Maze, a: nat, b: nat): (h: nat)
    requires WellFormed(m) && a < |m.grid| && b < |m.grid|
    ensures h == 0 <==> a == b
  {
    Abs(m.grid[a].c - m.grid[b].c) + Abs(m.grid[a].r - m.grid[b].r)
  }

  /** The distance is the same in both directions. */
  lemma ManhattanSymmetric(m: Maze, a: nat, b: nat)
    requires WellFormed(m) && a < |m.grid| && b < |m.grid|
    ensures Manhattan(m, a, b) == Manhattan(m, b, a)
  {
  }

  /** Going through a third cell is never shorter. */
  lemma ManhattanTriangle(m: Maze, a: nat, b: nat, c: nat)
    requires WellFormed(m) && a < |m.grid| && b < |m.grid| && c < |m.grid|
    ensures Manhattan(m, a, c) <= Manhattan(m, a, b) + Manhattan(m, b, c)
  {
  }

  /** Cells a walkable step apart are at distance exactly one. */
  lemma ManhattanOpenStep(m: Maze, a: nat, b: nat)
    requires WellFormed(m) && Open(m, a, b)
    ensures Manhattan(m, a, b) == 1
  {
    var d := DirectionTo(m, a, b);
    assert Neighbor(m, a, d) == Some(b);
  }

  /** Across a walkable step the distance to any fixed cell changes by at most one. */
  lemma ManhattanAdjacent(m: Maze, a: nat, b: nat, goal: nat)
    requires WellFormed(m) && Open(m, a, b) && goal < |m.grid|
    ensures Manhattan(m, a, goal) <= Manhattan(m, b, goal) + 1
    ensures Manhattan(m, b, goal) <= Manhattan(m, a, goal) + 1
  {
    ManhattanOpenStep(m, a, b);
    ManhattanTriangle(m, a, b, goal);
    ManhattanTriangle(m, b, a, goal);
  }

  /** No walk between two cells has fewer steps than their distance: the heuristic is admissible. */
  lemma {:induction false} ManhattanAtMostWalk(m: Maze, p: seq<nat>)
    requires WellFormed(m) && IsWalk(m, p)
    ensures Manhattan(m, p[0], p[|p| - 1]) <= |p| - 1
    decreases |p|
  {
    if |p| > 1 {
      var q := p[..|p| - 1];
      assert IsWalk(m, q);
      ManhattanAtMostWalk(m, q);
      assert Open(m, q[|q| - 1], p[|p| - 1]);
      ManhattanOpenStep(m, q[|q| - 1], p[|p| - 1]);
      ManhattanTriangle(m, p[0], q[|q| - 1], p[|p| - 1]);
    }
  }
}
