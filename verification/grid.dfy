/**
 The grid of a maze: cells in a flat row-major sequence, bounds-checked
 addressing, the unvisited-neighbour enumeration used while carving, and
 symmetric wall removal (class `Maze` of MAZEEE.py).
 */
module Grid {
  import opened Wrappers

  /** Directions are numbered 0 = up, 1 = right, 2 = down, 3 = left. */
  const Directions: nat := 4
  const ColStep: seq<int> := [0, 1, 0, -1]
  const RowStep: seq<int> := [-1, 0, 1, 0]

  /** The direction pointing back along direction `d`. */
  function Opposite(d: nat): (o: nat)
    requires d < Directions
    ensures o < Directions && o != d
    ensures ColStep[o] == -ColStep[d] && RowStep[o] == -RowStep[d]
  {
    (d + 2) % 4
  }

  /** `walls[d]` is true when the side of the cell facing direction `d` is closed. */
  datatype Cell = Cell(c: int, r: int, walls: seq<bool>, visited: bool)

  /** `stack` holds the indices of the cells the carving algorithm is backtracking through. */
  datatype Maze = Maze(cols: nat, rows: nat, grid: seq<Cell>, stack: seq<nat>)

  /** Every cell sits at the index its coordinates address and has four wall flags. */
  ghost predicate WellFormed(m: Maze) {
    && |m.grid| == m.cols * m.rows
    && forall i | 0 <= i < |m.grid| ::
         && 0 <= m.grid[i].c < m.cols
         && 0 <= m.grid[i].r < m.rows
         && m.grid[i].r * m.cols + m.grid[i].c == i
         && |m.grid[i].walls| == 4
  }

  /** A non-zero multiple of `cols` is at least `cols` away from zero. */
  lemma MultipleBound(k: int, cols: nat)
    ensures k >= 1 ==> k * cols >= cols
    ensures k <= -1 ==> k * cols <= -(cols as int)
  {
  }

  /** Two positions of a row-major layout coincide only when both coordinates do. */
  lemma RowMajorUnique(cols: nat, r1: int, c1: int, r2: int, c2: int)
    requires 0 <= c1 < cols && 0 <= c2 < cols
    requires r1 * cols + c1 == r2 * cols + c2
    ensures r1 == r2 && c1 == c2
  {
    assert (r1 - r2) * cols == c2 - c1;
    MultipleBound(r1 - r2, cols);
  }

  /** A row-major position inside the grid lies below `cols * rows`. */
  lemma RowMajorBound(cols: nat, rows: nat, c: int, r: int)
    requires 0 <= c < cols && 0 <= r < rows
    ensures 0 <= r * cols + c < cols * rows
  {
    assert r * cols + c < r * cols + cols == (r + 1) * cols;
    assert (r + 1) * cols <= rows * cols;
  }

  /** Bounds-checked addressing: `None` for a coordinate outside the grid. */
  function Index(cols: nat, rows: nat, c: int, r: int): (idx: Option<nat>)
    ensures idx.None? <==> (c < 0 || r < 0 || c >= cols || r >= rows)
    ensures idx.Some? ==> idx.value < cols * rows && idx.value == r * cols + c
  {
    if c < 0 || r < 0 || c >= cols || r >= rows then None
    else
      RowMajorBound(cols, rows, c, r);
      Some(r * cols + c)
  }

  /** The cell stored at the index of `(c, r)` has coordinates `(c, r)`. */
  lemma IndexAddressesCell(m: Maze, c: int, r: int)
    requires WellFormed(m)
    requires Index(m.cols, m.rows, c, r).Some?
    ensures Index(m.cols, m.rows, c, r).value < |m.grid|
    ensures m.grid[Index(m.cols, m.rows, c, r).value].c == c
    ensures m.grid[Index(m.cols, m.rows, c, r).value].r == r
  {
    var i := Index(m.cols, m.rows, c, r).value;
    RowMajorUnique(m.cols, m.grid[i].r, m.grid[i].c, r, c);
  }

  /** Every cell's own coordinates address it. */
  lemma IndexOfCell(m: Maze, i: nat)
    requires WellFormed(m) && i < |m.grid|
    ensures Index(m.cols, m.rows, m.grid[i].c, m.grid[i].r) == Some(i)
  {
  }

  /** The cell at `(c, r)`, if there is one. */
  function Get(m: Maze, c: int, r: int): (cell: Option<Cell>)
    requires WellFormed(m)
    ensures cell.Some? <==> Index(m.cols, m.rows, c, r).Some?
    ensures cell.Some? ==> cell.value == m.grid[Index(m.cols, m.rows, c, r).value]
    ensures cell.Some? ==> cell.value.c == c && cell.value.r == r
  {
    var idx := Index(m.cols, m.rows, c, r);
    if idx.Some? then
      IndexAddressesCell(m, c, r);
      Some(m.grid[idx.value])
    else None
  }

  /** The index of the cell one step from cell `i` in direction `d`, if it is inside the grid. */
  function Neighbor(m: Maze, i: nat, d: nat): (j: Option<nat>)
    requires WellFormed(m) && i < |m.grid| && d < Directions
    ensures j.Some? ==> j.value < |m.grid|
    ensures j.Some? ==> (m.grid[j.value].c == m.grid[i].c + ColStep[d]
                         && m.grid[j.value].r == m.grid[i].r + RowStep[d])
  {
    var idx := Index(m.cols, m.rows, m.grid[i].c + ColStep[d], m.grid[i].r + RowStep[d]);
    if idx.Some? then
      IndexAddressesCell(m, m.grid[i].c + ColStep[d], m.grid[i].r + RowStep[d]);
      idx
    else idx
  }

  /** Stepping back from a neighbour returns to the cell. */
  lemma NeighborOpposite(m: Maze, i: nat, d: nat)
    requires WellFormed(m) && i < |m.grid| && d < Directions
    requires Neighbor(m, i, d).Some?
    ensures Neighbor(m, Neighbor(m, i, d).value, Opposite(d)) == Some(i)
  {
    var j := Neighbor(m, i, d).value;
    var o := Opposite(d);
    assert m.grid[j].c + ColStep[o] == m.grid[i].c;
    assert m.grid[j].r + RowStep[o] == m.grid[i].r;
    IndexOfCell(m, i);
  }

  /** Different directions lead to different cells, and no direction leads back to the cell itself. */
  lemma NeighborDistinct(m: Maze, i: nat, d: nat, e: nat)
    requires WellFormed(m) && i < |m.grid| && d < Directions && e < Directions
    requires Neighbor(m, i, d).Some?
    ensures Neighbor(m, i, d) != Some(i)
    ensures Neighbor(m, i, e) == Neighbor(m, i, d) ==> d == e
  {
  }

  /**
   The direction leading from cell `i` to cell `j`, read off their coordinates;
   `Directions` (no direction) when they are not one unit apart along one axis.
   */
  function DirectionTo(m: Maze, i: nat, j: nat): (d: nat)
    requires WellFormed(m) && i < |m.grid| && j < |m.grid|
    ensures d <= Directions
    ensures d < Directions ==> Neighbor(m, i, d) == Some(j)
    ensures forall e | 0 <= e < Directions :: Neighbor(m, i, e) == Some(j) ==> e == d
  {
    IndexOfCell(m, j);
    var dx := m.grid[j].c - m.grid[i].c;
    var dy := m.grid[j].r - m.grid[i].r;
    if dx == 0 && dy == -1 then 0
    else if dx == 1 && dy == 0 then 1
    else if dx == 0 && dy == 1 then 2
    else if dx == -1 && dy == 0 then 3
    else Directions
  }

  /** `m2` has the dimensions and cell coordinates of `m1`; only wall and visited flags may differ. */
  ghost predicate SameLayout(m1: Maze, m2: Maze) {
    && m1.cols == m2.cols && m1.rows == m2.rows && |m1.grid| == |m2.grid|
    && forall i | 0 <= i < |m1.grid| :: m1.grid[i].c == m2.grid[i].c && m1.grid[i].r == m2.grid[i].r
  }

  /** Neighbourhood depends on the layout only. */
  lemma SameLayoutNeighbors(m1: Maze, m2: Maze)
    requires WellFormed(m1) && WellFormed(m2) && SameLayout(m1, m2)
    ensures forall i, d | 0 <= i < |m1.grid| && 0 <= d < Directions :: Neighbor(m1, i, d) == Neighbor(m2, i, d)
    ensures forall i, j | 0 <= i < |m1.grid| && 0 <= j < |m1.grid| :: DirectionTo(m1, i, j) == DirectionTo(m2, i, j)
  {
  }

  // ---------------------------------------------------------------------------
  // Enumerating unvisited neighbours (neighbors_with_walls)
  // ---------------------------------------------------------------------------

  /** The unvisited in-bounds neighbours of cell `i` in directions `d` .. 3, each with its direction. */
  function UnvisitedFrom(m: Maze, i: nat, d: nat): (res: seq<(nat, nat)>)
    requires WellFormed(m) && i < |m.grid| && d <= Directions
    ensures forall k | 0 <= k < |res| ::
              && d <= res[k].1 < Directions
              && Neighbor(m, i, res[k].1) == Some(res[k].0)
              && !m.grid[res[k].0].visited
    ensures forall e | d <= e < Directions ::
              Neighbor(m, i, e).Some? && !m.grid[Neighbor(m, i, e).value].visited
              ==> (Neighbor(m, i, e).value, e) in res
    decreases Directions - d
  {
    if d == Directions then []
    else
      var n := Neighbor(m, i, d);
      var rest := UnvisitedFrom(m, i, d + 1);
      if n.Some? && !m.grid[n.value].visited then [(n.value, d)] + rest else rest
  }

  /** The direction components strictly increase along `res`. */
  ghost predicate DirectionsIncrease(res: seq<(nat, nat)>) {
    forall k, l | 0 <= k < l < |res| :: res[k].1 < res[l].1
  }

  /** The unvisited neighbours come in strictly increasing direction order. */
  lemma {:induction false} UnvisitedFromOrdered(m: Maze, i: nat, d: nat)
    requires WellFormed(m) && i < |m.grid| && d <= Directions
    ensures DirectionsIncrease(UnvisitedFrom(m, i, d))
    decreases Directions - d
  {
    if d < Directions {
      UnvisitedFromOrdered(m, i, d + 1);
      var rest := UnvisitedFrom(m, i, d + 1);
      var n := Neighbor(m, i, d);
      if n.Some? && !m.grid[n.value].visited {
        assert UnvisitedFrom(m, i, d) == [(n.value, d)] + rest;
        ConsDirections((n.value, d), rest);
      }
    }
  }

  /** An entry whose direction precedes every direction of an increasing sequence can be put in front. */
  lemma ConsDirections(a: (nat, nat), rest: seq<(nat, nat)>)
    requires DirectionsIncrease(rest)
    requires forall k | 0 <= k < |rest| :: a.1 < rest[k].1
    ensures DirectionsIncrease([a] + rest)
  {
    var res := [a] + rest;
    forall k, l | 0 <= k < l < |res| ensures res[k].1 < res[l].1 {
      assert res[l] == rest[l - 1];
      if k > 0 {
        assert res[k] == rest[k - 1];
      }
    }
  }

  /**
   The grid neighbours of cell `i` whose `visited` flag is clear, in direction
   order, each paired with the direction that reaches it.
   */
  function NeighborsWithWalls(m: Maze, i: nat): (res: seq<(nat, nat)>)
    requires WellFormed(m) && i < |m.grid|
    ensures |res| <= Directions
    ensures forall k | 0 <= k < |res| ::
              && res[k].1 < Directions
              && Neighbor(m, i, res[k].1) == Some(res[k].0)
              && !m.grid[res[k].0].visited
    ensures DirectionsIncrease(res)
    ensures forall e | 0 <= e < Directions ::
              Neighbor(m, i, e).Some? && !m.grid[Neighbor(m, i, e).value].visited
              ==> (Neighbor(m, i, e).value, e) in res
  {
    var res := UnvisitedFrom(m, i, 0);
    UnvisitedFromOrdered(m, i, 0);
    DirectionsBoundLength(res);
    res
  }

  /** A sequence with strictly increasing direction components has at most four entries. */
  lemma DirectionsBoundLength(res: seq<(nat, nat)>)
    requires forall k | 0 <= k < |res| :: res[k].1 < Directions
    requires DirectionsIncrease(res)
    ensures |res| <= Directions
  {
    if |res| > 0 {
      IncreasingFromIndex(res, |res| - 1);
    }
  }

  /** Strictly increasing naturals grow at least as fast as their positions. */
  lemma IncreasingFromIndex(res: seq<(nat, nat)>, k: nat)
    requires k < |res|
    requires DirectionsIncrease(res)
    ensures res[k].1 >= k
  {
    if k > 0 {
      IncreasingFromIndex(res, k - 1);
    }
  }

  // ---------------------------------------------------------------------------
  // Wall removal (remove_walls)
  // ---------------------------------------------------------------------------

  /** Cell `cell` with its wall in direction `d` opened. */
  function OpenWall(cell: Cell, d: nat): (res: Cell)
    requires |cell.walls| == 4 && d < Directions
    ensures res.c == cell.c && res.r == cell.r && res.visited == cell.visited
    ensures |res.walls| == 4
    ensures forall k | 0 <= k < 4 :: res.walls[k] == (cell.walls[k] && k != d)
  {
    cell.(walls := cell.walls[d := false])
  }

  /** Opens wall `da` of cell `a`, then wall `db` of cell `b`. */
  function OpenPair(m: Maze, a: nat, da: nat, b: nat, db: nat): (res: Maze)
    requires WellFormed(m) && a < |m.grid| && b < |m.grid|
    requires da < Directions && db < Directions
    ensures WellFormed(res)
    ensures res.cols == m.cols && res.rows == m.rows && res.stack == m.stack
    ensures |res.grid| == |m.grid|
    ensures forall i | 0 <= i < |m.grid| ::
              && res.grid[i].c == m.grid[i].c
              && res.grid[i].r == m.grid[i].r
              && res.grid[i].visited == m.grid[i].visited
    ensures forall i, k | 0 <= i < |m.grid| && 0 <= k < 4 ::
              res.grid[i].walls[k] == (m.grid[i].walls[k] && !(i == a && k == da) && !(i == b && k == db))
  {
    var g1 := m.grid[a := OpenWall(m.grid[a], da)];
    var g2 := g1[b := OpenWall(g1[b], db)];
    m.(grid := g2)
  }

  /**
   Removes the wall between cells `a` and `b`, choosing the side from the
   coordinate difference in the order right, left, down, up; when the cells
   are not one unit apart along either axis nothing changes.
   */
  function RemoveWalls(m: Maze, a: nat, b: nat): (res: Maze)
    requires WellFormed(m) && a < |m.grid| && b < |m.grid|
    ensures WellFormed(res)
    ensures res.cols == m.cols && res.rows == m.rows && res.stack == m.stack
    ensures |res.grid| == |m.grid|
    ensures forall i | 0 <= i < |m.grid| ::
              && res.grid[i].c == m.grid[i].c
              && res.grid[i].r == m.grid[i].r
              && res.grid[i].visited == m.grid[i].visited
    ensures forall i, k | 0 <= i < |m.grid| && 0 <= k < 4 && i != a && i != b ::
              res.grid[i].walls[k] == m.grid[i].walls[k]
    ensures forall i, k | 0 <= i < |m.grid| && 0 <= k < 4 ::
              res.grid[i].walls[k] ==> m.grid[i].walls[k]
    ensures forall d | 0 <= d < Directions && Neighbor(m, a, d) == Some(b) ::
              forall i, k | 0 <= i < |m.grid| && 0 <= k < 4 ::
                res.grid[i].walls[k] == (m.grid[i].walls[k] && !(i == a && k == d) && !(i == b && k == Opposite(d)))
  {
    var dx := m.grid[b].c - m.grid[a].c;
    var dy := m.grid[b].r - m.grid[a].r;
    if dx == 1 then OpenPair(m, a, 1, b, 3)
    else if dx == -1 then OpenPair(m, a, 3, b, 1)
    else if dy == 1 then OpenPair(m, a, 2, b, 0)
    else if dy == -1 then OpenPair(m, a, 0, b, 2)
    else m
  }

  // ---------------------------------------------------------------------------
  // Construction
  // ---------------------------------------------------------------------------

  /** A fresh cell: all four walls closed and not visited. */
  function FreshCell(c: int, r: int): (cell: Cell)
    ensures cell.c == c && cell.r == r && !cell.visited
    ensures cell.walls == [true, true, true, true]
  {
    Cell(c, r, [true, true, true, true], false)
  }

  /** A `cols` by `rows` grid, row by row, every wall closed, with an empty stack. */
  function NewMaze(cols: nat, rows: nat): (m: Maze)
    ensures WellFormed(m)
    ensures m.cols == cols && m.rows == rows && m.stack == []
    ensures forall i | 0 <= i < |m.grid| ::
              m.grid[i].walls == [true, true, true, true] && !m.grid[i].visited
  {
    var g := seq(cols * rows, i requires 0 <= i < cols * rows => FreshCell(i % cols, i / cols));
    forall i | 0 <= i < |g|
      ensures 0 <= g[i].c < cols && 0 <= g[i].r < rows && g[i].r * cols + g[i].c == i
    {
      DivModLayout(cols, rows, i);
    }
    Maze(cols, rows, g, [])
  }

  /** Row-major coordinates of a position below `cols * rows`. */
  lemma DivModLayout(cols: nat, rows: nat, i: int)
    requires 0 <= i < cols * rows
    ensures cols > 0
    ensures 0 <= i % cols < cols && 0 <= i / cols < rows
    ensures (i / cols) * cols + i % cols == i
  {
    MultipleBound(i / cols - rows, cols);
  }

  /** The indices below `n`. */
  ghost function RangeSet(n: nat): (s: set<nat>)
    ensures forall i: nat :: i in s <==> i < n
    ensures |s| == n
  {
    if n == 0 then {} else RangeSet(n - 1) + {n - 1}
  }

  /** A set of indices below `n` has at most `n` elements. */
  lemma IndicesBound(s: set<nat>, n: nat)
    requires forall i | i in s :: i < n
    ensures |s| <= n
  {
    SubsetCardinality(s, RangeSet(n));
  }

  /** A subset is no larger than its superset. */
  lemma {:induction false} SubsetCardinality(a: set<nat>, b: set<nat>)
    requires a <= b
    ensures |a| <= |b|
    decreases |b|
  {
    if a != {} {
      var x :| x in a;
      SubsetCardinality(a - {x}, b - {x});
    }
  }
}
