/**
 Maze generation by randomized depth-first carving with an explicit stack
 (`Maze.generate_recursive_backtracker`). The random choice among the
 unvisited neighbours is a parameter: the k-th advance takes entry
 `choose(k) % |neighbours|`, so every sequence of draws Python's
 `random.choice` can make is covered.
 */
module Generator {
  import opened Wrappers
  import opened Grid
  import opened Graph

  /** Every cell with all four walls closed and its visited flag clear. */
  function ResetCells(m: Maze): (res: Maze)
    requires WellFormed(m)
    ensures WellFormed(res) && SameLayout(m, res) && res.stack == m.stack
    ensures forall i | 0 <= i < |res.grid| ::
              res.grid[i].walls == [true, true, true, true] && !res.grid[i].visited
  {
    var g := seq(|m.grid|, i requires 0 <= i < |m.grid| =>
      m.grid[i].(walls := [true, true, true, true], visited := false));
    m.(grid := g)
  }

  /** Every cell's visited flag cleared, walls kept. */
  function ClearVisited(m: Maze): (res: Maze)
    requires WellFormed(m)
    ensures WellFormed(res) && SameLayout(m, res) && res.stack == m.stack
    ensures forall i | 0 <= i < |res.grid| ::
              res.grid[i].walls == m.grid[i].walls && !res.grid[i].visited
  {
    var g := seq(|m.grid|, i requires 0 <= i < |m.grid| => m.grid[i].(visited := false));
    m.(grid := g)
  }

  /** Cell `i` with its visited flag set. */
  function MarkVisited(m: Maze, i: nat): (res: Maze)
    requires WellFormed(m) && i < |m.grid|
    ensures WellFormed(res) && SameLayout(m, res) && res.stack == m.stack
    ensures forall j | 0 <= j < |res.grid| ::
              res.grid[j].walls == m.grid[j].walls
              && res.grid[j].visited == (m.grid[j].visited || j == i)
  {
    m.(grid := m.grid[i := m.grid[i].(visited := true)])
  }

  // ---------------------------------------------------------------------------
  // The tree the carving builds
  // ---------------------------------------------------------------------------

  /** `a` and `b` are joined by a parent link, in either direction. */
  ghost predicate TreeEdge(parent: map<nat, nat>, a: nat, b: nat) {
    (a in parent && parent[a] == b) || (b in parent && parent[b] == a)
  }

  /** A wall is open exactly where it separates a cell from its parent or child. */
  ghost predicate WallsFollowTree(m: Maze, parent: map<nat, nat>)
    requires WellFormed(m)
  {
    forall i, d | 0 <= i < |m.grid| && 0 <= d < Directions ::
      !m.grid[i].walls[d] <==> (Neighbor(m, i, d).Some? && TreeEdge(parent, i, Neighbor(m, i, d).value))
  }

  /**
   `parent` links every cell of `V` except cell 0 to an adjacent cell of `V`
   ranked strictly lower, and the walls are open exactly along those links.
   */
  ghost predicate TreeShape(m: Maze, V: set<nat>, parent: map<nat, nat>, rank: map<nat, nat>)
    requires WellFormed(m)
  {
    && (forall v | v in V :: v < |m.grid|)
    && 0 in V
    && parent.Keys == V - {0}
    && rank.Keys == V
    && (forall v | v in parent ::
          && parent[v] in V
          && rank[parent[v]] < rank[v]
          && DirectionTo(m, parent[v], v) < Directions)
    && WallsFollowTree(m, parent)
  }

  /** The visited flags mark exactly the cells of `V`. */
  ghost predicate VisitedMatches(m: Maze, V: set<nat>) {
    forall i | 0 <= i < |m.grid| :: m.grid[i].visited <==> i in V
  }

  /** Every cell on the stack is visited. */
  ghost predicate StackVisited(m: Maze, V: set<nat>) {
    forall k | 0 <= k < |m.stack| :: m.stack[k] in V
  }

  /** A visited cell that is off the stack has no unvisited neighbour left. */
  ghost predicate FinishedClosed(m: Maze, V: set<nat>)
    requires WellFormed(m)
  {
    forall v, d | v in V && v < |m.grid| && v !in m.stack && 0 <= d < Directions && Neighbor(m, v, d).Some? ::
      Neighbor(m, v, d).value in V
  }

  /** `carved` lists the cells of `V` without repetition, starting with cell 0, and bounds the ranks. */
  ghost predicate CarveOrder(carved: seq<nat>, V: set<nat>, rank: map<nat, nat>) {
    && |carved| == |V|
    && (forall k | 0 <= k < |carved| :: carved[k] in V)
    && (forall k, l | 0 <= k < l < |carved| :: carved[k] != carved[l])
    && (forall v | v in rank :: rank[v] < |carved|)
    && |carved| > 0 && carved[0] == 0
  }

  /** The loop invariant of the carving loop. */
  ghost predicate CarveInv(m: Maze, V: set<nat>, parent: map<nat, nat>, rank: map<nat, nat>, carved: seq<nat>)
  {
    && WellFormed(m)
    && TreeShape(m, V, parent, rank)
    && VisitedMatches(m, V)
    && StackVisited(m, V)
    && FinishedClosed(m, V)
    && CarveOrder(carved, V, rank)
  }

  /** The cells not yet visited. */
  ghost function Unvisited(m: Maze): set<nat> {
    set i: nat | i < |m.grid| && !m.grid[i].visited
  }

  /** Marking an unvisited cell removes exactly it from the unvisited cells. */
  lemma UnvisitedShrinks(m: Maze, m': Maze, nxt: nat)
    requires |m'.grid| == |m.grid| && nxt < |m.grid| && !m.grid[nxt].visited
    requires forall i | 0 <= i < |m.grid| :: m'.grid[i].visited == (m.grid[i].visited || i == nxt)
    ensures Unvisited(m') == Unvisited(m) - {nxt}
    ensures nxt in Unvisited(m)
  {
  }

  /** The carving state right after cell 0 is marked and pushed. */
  lemma CarveInvInit(m: Maze)
    requires WellFormed(m) && |m.grid| > 0 && m.stack == [0]
    requires forall i | 0 <= i < |m.grid| :: m.grid[i].walls == [true, true, true, true]
    requires forall i | 0 <= i < |m.grid| :: m.grid[i].visited <==> i == 0
    ensures CarveInv(m, {0}, map[], map[0 := 0], [0])
  {
  }

  /** One advance step: mark `nxt`, open the wall from `cur`, push `nxt`. */
  lemma CarveAdvance(m: Maze, V: set<nat>, parent: map<nat, nat>, rank: map<nat, nat>, carved: seq<nat>,
                     cur: nat, nxt: nat, dir: nat)
    requires CarveInv(m, V, parent, rank, carved)
    requires cur < |m.grid| && cur in V && dir < Directions
    requires Neighbor(m, cur, dir) == Some(nxt) && !m.grid[nxt].visited
    ensures var m' := RemoveWalls(MarkVisited(m, nxt), cur, nxt);
            CarveInv(m'.(stack := m'.stack + [nxt]), V + {nxt}, parent[nxt := cur],
                     rank[nxt := |carved|], carved + [nxt])
  {
    var m1 := MarkVisited(m, nxt);
    var m2 := RemoveWalls(m1, cur, nxt);
    var m3 := m2.(stack := m2.stack + [nxt]);
    assert nxt !in V;
    AdvanceTree(m, m3, V, parent, rank, |carved|, cur, nxt, dir);
    AdvanceFlags(m, m3, V, nxt);
    AdvanceOrder(carved, V, rank, nxt);
  }

  /** Marking and pushing `nxt` keeps the flag, stack and closure facts. */
  lemma AdvanceFlags(m: Maze, m3: Maze, V: set<nat>, nxt: nat)
    requires WellFormed(m) && WellFormed(m3) && SameLayout(m, m3)
    requires VisitedMatches(m, V) && StackVisited(m, V) && FinishedClosed(m, V)
    requires nxt < |m.grid|
    requires forall i | 0 <= i < |m.grid| :: m3.grid[i].visited == (m.grid[i].visited || i == nxt)
    requires m3.stack == m.stack + [nxt]
    ensures VisitedMatches(m3, V + {nxt}) && StackVisited(m3, V + {nxt}) && FinishedClosed(m3, V + {nxt})
  {
    SameLayoutNeighbors(m, m3);
  }

  /** Appending a newly visited cell keeps the carving order. */
  lemma AdvanceOrder(carved: seq<nat>, V: set<nat>, rank: map<nat, nat>, nxt: nat)
    requires CarveOrder(carved, V, rank) && nxt !in V
    ensures CarveOrder(carved + [nxt], V + {nxt}, rank[nxt := |carved|])
  {
  }

  /** The tree extended by the link from `nxt` to `cur` still shapes the walls after an advance. */
  lemma AdvanceTree(m: Maze, m3: Maze, V: set<nat>, parent: map<nat, nat>, rank: map<nat, nat>, newRank: nat,
                    cur: nat, nxt: nat, dir: nat)
    requires WellFormed(m) && WellFormed(m3) && SameLayout(m, m3)
    requires TreeShape(m, V, parent, rank)
    requires forall v | v in rank :: rank[v] < newRank
    requires cur < |m.grid| && cur in V && nxt !in V && dir < Directions
    requires Neighbor(m, cur, dir) == Some(nxt)
    requires forall i, k | 0 <= i < |m.grid| && 0 <= k < 4 ::
               m3.grid[i].walls[k] == (m.grid[i].walls[k] && !(i == cur && k == dir) && !(i == nxt && k == Opposite(dir)))
    ensures TreeShape(m3, V + {nxt}, parent[nxt := cur], rank[nxt := newRank])
  {
    SameLayoutNeighbors(m, m3);
    assert DirectionTo(m3, cur, nxt) == dir;
    WallsAfterAdvance(m, m3, parent, V, cur, nxt, dir);
  }

  /** The walls after an advance step follow the extended tree. */
  lemma WallsAfterAdvance(m: Maze, m3: Maze, parent: map<nat, nat>, V: set<nat>, cur: nat, nxt: nat, dir: nat)
    requires WellFormed(m) && WellFormed(m3) && SameLayout(m, m3)
    requires WallsFollowTree(m, parent)
    requires forall v | v in parent :: parent[v] in V
    requires cur < |m.grid| && cur in V && nxt !in V && nxt !in parent && dir < Directions
    requires Neighbor(m, cur, dir) == Some(nxt)
    requires forall i, k | 0 <= i < |m.grid| && 0 <= k < 4 ::
               m3.grid[i].walls[k] == (m.grid[i].walls[k] && !(i == cur && k == dir) && !(i == nxt && k == Opposite(dir)))
    ensures WallsFollowTree(m3, parent[nxt := cur])
  {
    SameLayoutNeighbors(m, m3);
    forall i, d | 0 <= i < |m.grid| && 0 <= d < Directions
      ensures !m3.grid[i].walls[d] <==> (Neighbor(m3, i, d).Some? && TreeEdge(parent[nxt := cur], i, Neighbor(m3, i, d).value))
    {
      WallAfterAdvanceAt(m, parent, V, cur, nxt, dir, i, d, m3.grid[i].walls[d]);
    }
  }

  /** The wall of cell `i` facing direction `d` after an advance step follows the extended tree. */
  lemma WallAfterAdvanceAt(m: Maze, parent: map<nat, nat>, V: set<nat>, cur: nat, nxt: nat, dir: nat,
                           i: nat, d: nat, wall: bool)
    requires WellFormed(m) && WallsFollowTree(m, parent)
    requires forall v | v in parent :: parent[v] in V
    requires cur < |m.grid| && cur in V && nxt !in V && nxt !in parent && dir < Directions
    requires Neighbor(m, cur, dir) == Some(nxt)
    requires i < |m.grid| && d < Directions
    requires wall == (m.grid[i].walls[d] && !(i == cur && d == dir) && !(i == nxt && d == Opposite(dir)))
    ensures !wall <==> (Neighbor(m, i, d).Some? && TreeEdge(parent[nxt := cur], i, Neighbor(m, i, d).value))
  {
    NeighborOpposite(m, cur, dir);
    var nb := Neighbor(m, i, d);
    assert !m.grid[i].walls[d] <==> (nb.Some? && TreeEdge(parent, i, nb.value));
    if (i == cur && d == dir) || (i == nxt && d == Opposite(dir)) {
    } else if nb.Some? {
      NeighborDistinct(m, i, d, dir);
      NeighborDistinct(m, i, d, Opposite(dir));
      if i == nxt {
        assert !TreeEdge(parent, i, nb.value);
      } else if nb.value == nxt {
        assert i != cur;
        assert !TreeEdge(parent, i, nb.value);
      }
    }
  }

  /** One backtrack step: pop a stack top that has no unvisited neighbour. */
  lemma CarveBacktrack(m: Maze, V: set<nat>, parent: map<nat, nat>, rank: map<nat, nat>, carved: seq<nat>)
    requires CarveInv(m, V, parent, rank, carved)
    requires |m.stack| > 0 && m.stack[|m.stack| - 1] < |m.grid|
    requires NeighborsWithWalls(m, m.stack[|m.stack| - 1]) == []
    ensures CarveInv(m.(stack := m.stack[..|m.stack| - 1]), V, parent, rank, carved)
  {
    var m' := m.(stack := m.stack[..|m.stack| - 1]);
    StackKeepsTree(m, m', V, parent, rank);
    BacktrackClosed(m, m', V);
  }

  /** The tree and the visited flags do not depend on the stack. */
  lemma StackKeepsTree(m: Maze, m': Maze, V: set<nat>, parent: map<nat, nat>, rank: map<nat, nat>)
    requires WellFormed(m) && TreeShape(m, V, parent, rank) && VisitedMatches(m, V)
    requires m' == m.(stack := m'.stack)
    ensures WellFormed(m') && TreeShape(m', V, parent, rank) && VisitedMatches(m', V)
  {
    SameLayoutNeighbors(m, m');
  }

  /** Popping a stack top with no unvisited neighbour keeps every finished cell closed. */
  lemma BacktrackClosed(m: Maze, m': Maze, V: set<nat>)
    requires WellFormed(m) && VisitedMatches(m, V) && StackVisited(m, V) && FinishedClosed(m, V)
    requires |m.stack| > 0 && m.stack[|m.stack| - 1] < |m.grid|
    requires NeighborsWithWalls(m, m.stack[|m.stack| - 1]) == []
    requires m' == m.(stack := m.stack[..|m.stack| - 1])
    ensures WellFormed(m') && StackVisited(m', V) && FinishedClosed(m', V)
  {
    var cur := m.stack[|m.stack| - 1];
    SameLayoutNeighbors(m, m');
    forall v, d | v in V && v < |m.grid| && v !in m'.stack && 0 <= d < Directions && Neighbor(m', v, d).Some?
      ensures Neighbor(m', v, d).value in V
    {
      assert m.stack == m'.stack + [cur];
      if v == cur {
        assert !(Neighbor(m, cur, d).Some? && !m.grid[Neighbor(m, cur, d).value].visited);
      } else {
        assert v !in m.stack;
      }
    }
  }

  /** A set of cells that contains cell 0 and is closed under grid neighbours contains every cell. */
  lemma {:induction false} ClosedCovers(m: Maze, V: set<nat>, c: int, r: int)
    requires WellFormed(m) && 0 in V
    requires forall v, d | v in V && 0 <= d < Directions && v < |m.grid| && Neighbor(m, v, d).Some? ::
               Neighbor(m, v, d).value in V
    requires forall v | v in V :: v < |m.grid|
    requires 0 <= c < m.cols && 0 <= r < m.rows
    ensures r * m.cols + c in V
    decreases c + r
  {
    if c > 0 {
      ClosedCovers(m, V, c - 1, r);
      var i := r * m.cols + (c - 1);
      IndexAddressesCell(m, c - 1, r);
      assert Neighbor(m, i, 1) == Index(m.cols, m.rows, c, r);
    } else if r > 0 {
      ClosedCovers(m, V, c, r - 1);
      var i := (r - 1) * m.cols + c;
      IndexAddressesCell(m, c, r - 1);
      assert Neighbor(m, i, 2) == Index(m.cols, m.rows, c, r);
    }
  }

  /** When the stack runs empty every cell has been visited. */
  lemma AllVisited(m: Maze, V: set<nat>, parent: map<nat, nat>, rank: map<nat, nat>, carved: seq<nat>)
    requires CarveInv(m, V, parent, rank, carved) && m.stack == []
    ensures V == RangeSet(|m.grid|)
  {
    forall i | 0 <= i < |m.grid|
      ensures i in V
    {
      ClosedCovers(m, V, m.grid[i].c, m.grid[i].r);
    }
  }

  // ---------------------------------------------------------------------------
  // Consequences of the tree shape
  // ---------------------------------------------------------------------------

  /** Every cell of the tree is reachable from cell 0 along open passages. */
  lemma {:induction false} TreeReachable(m: Maze, V: set<nat>, parent: map<nat, nat>, rank: map<nat, nat>, v: nat)
    requires WellFormed(m) && TreeShape(m, V, parent, rank) && v in V
    ensures Reachable(m, 0, v)
    decreases rank[v]
  {
    if v == 0 {
      assert IsWalk(m, [0]);
    } else {
      var p := parent[v];
      TreeReachable(m, V, parent, rank, p);
      var w :| IsWalk(m, w) && w[0] == 0 && w[|w| - 1] == p;
      var e := DirectionTo(m, p, v);
      assert Neighbor(m, p, e) == Some(v) && TreeEdge(parent, p, v);
      assert Open(m, p, v);
      WalkExtend(m, w, v);
      assert (w + [v])[0] == 0;
    }
  }

  /** The tree's edges, each as the pair (lower index, higher index). */
  function Edge(a: nat, b: nat): (nat, nat) {
    if a < b then (a, b) else (b, a)
  }

  ghost function TreeEdges(parent: map<nat, nat>, K: set<nat>): set<(nat, nat)>
    requires K <= parent.Keys
  {
    set v | v in K :: Edge(v, parent[v])
  }

  /** Distinct children name distinct edges, because ranks decrease toward the root. */
  lemma {:induction false} TreeEdgesCount(parent: map<nat, nat>, rank: map<nat, nat>, K: set<nat>)
    requires K <= parent.Keys
    requires forall v | v in parent :: v in rank && parent[v] in rank && rank[parent[v]] < rank[v]
    ensures |TreeEdges(parent, K)| == |K|
    decreases K
  {
    if K != {} {
      var x :| x in K;
      var K' := K - {x};
      TreeEdgesCount(parent, rank, K');
      forall v | v in K'
        ensures Edge(v, parent[v]) != Edge(x, parent[x])
      {
      }
      assert TreeEdges(parent, K) == TreeEdges(parent, K') + {Edge(x, parent[x])};
    }
  }

  /** The open passages are exactly the tree's edges. */
  lemma PassagesAreTreeEdges(m: Maze, V: set<nat>, parent: map<nat, nat>, rank: map<nat, nat>)
    requires WellFormed(m) && TreeShape(m, V, parent, rank)
    ensures Passages(m) == TreeEdges(parent, parent.Keys)
  {
    forall e | e in Passages(m)
      ensures e in TreeEdges(parent, parent.Keys)
    {
      var a, b := e.0, e.1;
      var d := DirectionTo(m, a, b);
      assert TreeEdge(parent, a, b);
      if a in parent && parent[a] == b {
        assert Edge(a, parent[a]) == e;
      } else {
        assert Edge(b, parent[b]) == e;
      }
    }
    forall e | e in TreeEdges(parent, parent.Keys)
      ensures e in Passages(m)
    {
      var v :| v in parent && Edge(v, parent[v]) == e;
      var p := parent[v];
      var d := DirectionTo(m, p, v);
      NeighborOpposite(m, p, d);
      assert TreeEdge(parent, p, v) && TreeEdge(parent, v, p);
      assert Open(m, p, v);
      assert DirectionTo(m, v, p) == Opposite(d);
      assert Open(m, v, p);
    }
  }

  /** Walls that follow a tree are symmetric. */
  lemma TreeWallsSymmetric(m: Maze, parent: map<nat, nat>)
    requires WellFormed(m) && WallsFollowTree(m, parent)
    ensures WallsSymmetric(m)
  {
    forall i, d | 0 <= i < |m.grid| && 0 <= d < Directions && Neighbor(m, i, d).Some?
      ensures m.grid[i].walls[d] == m.grid[Neighbor(m, i, d).value].walls[Opposite(d)]
    {
      NeighborOpposite(m, i, d);
    }
  }

  // ---------------------------------------------------------------------------
  // The generator
  // ---------------------------------------------------------------------------

  /** The maze is a perfect maze: connected, with exactly one open passage fewer than cells. */
  ghost predicate Perfect(m: Maze)
    requires WellFormed(m)
  {
    && WallsSymmetric(m)
    && Connected(m)
    && |Passages(m)| == |m.grid| - 1
  }

  /**
   Carves a perfect maze. `carved` lists the cells in the order they were
   marked visited: every cell exactly once, starting with cell 0.
   */
  method GenerateRecursiveBacktracker(m0: Maze, choose: nat -> nat) returns (m: Maze, carved: seq<nat>)
    requires WellFormed(m0) && m0.cols > 0 && m0.rows > 0
    ensures WellFormed(m) && SameLayout(m0, m)
    ensures m.stack == []
    ensures forall i | 0 <= i < |m.grid| :: !m.grid[i].visited
    ensures |carved| == |m.grid| && carved[0] == 0
    ensures forall k | 0 <= k < |carved| :: carved[k] < |m.grid|
    ensures forall k, l | 0 <= k < l < |carved| :: carved[k] != carved[l]
    ensures Perfect(m)
  {
    m := ResetCells(m0);
    var start := Index(m.cols, m.rows, 0, 0).value;
    m := MarkVisited(m, start);
    m := m.(stack := [start]);
    carved := [start];
    ghost var V: set<nat> := {0};
    ghost var parent: map<nat, nat> := map[];
    ghost var rank: map<nat, nat> := map[0 := 0];
    CarveInvInit(m);
    var draws := 0;
    while m.stack != []
      invariant CarveInv(m, V, parent, rank, carved)
      invariant SameLayout(m0, m)
      decreases Unvisited(m), |m.stack|
    {
      ghost var before := m;
      m, carved, draws, V, parent, rank := CarveOnce(m, carved, choose, draws, V, parent, rank);
    }
    FinishCarving(m, V, parent, rank, carved);
    m := ClearVisited(m);
  }

  /** Once the stack is empty, clearing the visited flags leaves a perfect maze. */
  lemma FinishCarving(m: Maze, V: set<nat>, parent: map<nat, nat>, rank: map<nat, nat>, carved: seq<nat>)
    requires CarveInv(m, V, parent, rank, carved) && m.stack == []
    ensures |carved| == |m.grid|
    ensures forall k | 0 <= k < |carved| :: carved[k] < |m.grid|
    ensures Perfect(ClearVisited(m))
  {
    AllVisited(m, V, parent, rank, carved);
    var m' := ClearVisited(m);
    SameLayoutNeighbors(m, m');
    assert TreeShape(m', V, parent, rank);
    TreeIsPerfect(m', V, parent, rank);
  }

  /**
   One pass of the carving loop: advance from the stack top to a chosen
   unvisited neighbour, or pop the top when it has none.
   */
  method CarveOnce(m: Maze, carved: seq<nat>, choose: nat -> nat, draws: nat,
                   ghost V: set<nat>, ghost parent: map<nat, nat>, ghost rank: map<nat, nat>)
    returns (m': Maze, carved': seq<nat>, draws': nat,
             ghost V': set<nat>, ghost parent': map<nat, nat>, ghost rank': map<nat, nat>)
    requires CarveInv(m, V, parent, rank, carved) && m.stack != []
    ensures CarveInv(m', V', parent', rank', carved')
    ensures SameLayout(m, m')
    ensures Unvisited(m') < Unvisited(m) || (Unvisited(m') == Unvisited(m) && |m'.stack| < |m.stack|)
  {
    var cur := m.stack[|m.stack| - 1];
    var neighbors := NeighborsWithWalls(m, cur);
    if neighbors != [] {
      var (nxt, dir) := neighbors[choose(draws) % |neighbors|];
      draws' := draws + 1;
      m', carved', V', parent', rank' := CarveTo(m, carved, V, parent, rank, cur, nxt, dir);
    } else {
      CarveBacktrack(m, V, parent, rank, carved);
      m' := m.(stack := m.stack[..|m.stack| - 1]);
      carved', draws', V', parent', rank' := carved, draws, V, parent, rank;
    }
  }

  /**
   The advance branch of the loop: marks `nxt` visited, removes the wall
   pair between `cur` and `nxt` and pushes `nxt`, which joins the tree
   under `cur`.
   */
  method CarveTo(m: Maze, carved: seq<nat>, ghost V: set<nat>, ghost parent: map<nat, nat>, ghost rank: map<nat, nat>,
                 cur: nat, nxt: nat, dir: nat)
    returns (m': Maze, carved': seq<nat>, ghost V': set<nat>, ghost parent': map<nat, nat>, ghost rank': map<nat, nat>)
    requires CarveInv(m, V, parent, rank, carved)
    requires cur < |m.grid| && cur in V && dir < Directions
    requires Neighbor(m, cur, dir) == Some(nxt) && !m.grid[nxt].visited
    ensures CarveInv(m', V', parent', rank', carved')
    ensures SameLayout(m, m') && Unvisited(m') < Unvisited(m)
    ensures m'.stack == m.stack + [nxt] && carved' == carved + [nxt]
  {
    CarveAdvance(m, V, parent, rank, carved, cur, nxt, dir);
    m' := MarkVisited(m, nxt);
    m' := RemoveWalls(m', cur, nxt);
    m' := m'.(stack := m'.stack + [nxt]);
    UnvisitedShrinks(m, m', nxt);
    V' := V + {nxt};
    parent' := parent[nxt := cur];
    rank' := rank[nxt := |carved|];
    carved' := carved + [nxt];
  }

  /** A tree that spans every cell makes a perfect maze. */
  lemma TreeIsPerfect(m: Maze, V: set<nat>, parent: map<nat, nat>, rank: map<nat, nat>)
    requires WellFormed(m) && TreeShape(m, V, parent, rank) && V == RangeSet(|m.grid|)
    ensures Perfect(m)
  {
    TreeWallsSymmetric(m, parent);
    forall v | 0 <= v < |m.grid|
      ensures Reachable(m, 0, v)
    {
      TreeReachable(m, V, parent, rank, v);
    }
    ConnectedFromRoot(m);
    PassagesAreTreeEdges(m, V, parent, rank);
    TreeEdgesCount(parent, rank, parent.Keys);
  }
}
