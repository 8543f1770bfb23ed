/**
 Dijkstra's search (`dijkstra_generator`) over unit-length passages as a
 state machine, with a binary heap modelled as a sequence popped at its
 least `(distance, cell)` pair. Entries for a cell that is already visited
 are skipped when they come out (lazy deletion).
 */
module Dijkstra {
  import opened Wrappers
  import opened Grid
  import opened Graph
  import opened Paths
  import opened Search
  import opened Heap

  // ---------------------------------------------------------------------------
  // Relaxation
  // ---------------------------------------------------------------------------

  /**
   The relaxation loop over the walkable neighbours `ns` of `x`: a cell whose
   distance is unknown or larger than `nd` gets distance `nd` and a heap
   entry `(nd, n, x)`.
   */
  function Relax(dist: map<nat, nat>, heap: seq<Item>, ns: seq<nat>, nd: nat, x: nat): (r: (map<nat, nat>, seq<Item>))
    ensures |heap| <= |r.1| && r.1[..|heap|] == heap
    ensures forall k | |heap| <= k < |r.1| ::
              r.1[k].0 == nd && r.1[k].1 in ns && r.1[k].2 == Some(x)
              && r.1[k].1 in r.0 && r.0[r.1[k].1] == nd
              && (r.1[k].1 !in dist || nd < dist[r.1[k].1])
    ensures forall i, j | |heap| <= i < j < |r.1| :: r.1[i].1 != r.1[j].1
    ensures forall n | n in ns :: n in r.0 && r.0[n] <= nd
    ensures forall n | n in r.0 :: n in dist || n in ns
    ensures forall n | n in dist :: n in r.0 && r.0[n] <= dist[n]
    ensures forall n | n in r.0 && (n !in dist || r.0[n] != dist[n]) ::
              r.0[n] == nd && (nd, n, Some(x)) in r.1[|heap|..]
    decreases |ns|
  {
    if ns == [] then
      (dist, heap)
    else
      var n := ns[0];
      if n !in dist || nd < dist[n] then
        var r := Relax(dist[n := nd], heap + [(nd, n, Some(x))], ns[1..], nd, x);
        RelaxStep(dist, heap, ns, nd, x, r);
        r
      else
        var r := Relax(dist, heap, ns[1..], nd, x);
        assert forall w | w in ns :: w == n || w in ns[1..];
        r
  }

  /** One relaxed neighbour followed by the rest of the loop. */
  lemma RelaxStep(dist: map<nat, nat>, heap: seq<Item>, ns: seq<nat>, nd: nat, x: nat, r: (map<nat, nat>, seq<Item>))
    requires |ns| > 0 && (ns[0] !in dist || nd < dist[ns[0]])
    requires var n := ns[0];
             var dist' := dist[n := nd];
             var heap' := heap + [(nd, n, Some(x))];
             && |heap'| <= |r.1| && r.1[..|heap'|] == heap'
             && (forall k | |heap'| <= k < |r.1| ::
                   r.1[k].0 == nd && r.1[k].1 in ns[1..] && r.1[k].2 == Some(x)
                   && r.1[k].1 in r.0 && r.0[r.1[k].1] == nd
                   && (r.1[k].1 !in dist' || nd < dist'[r.1[k].1]))
             && (forall i, j | |heap'| <= i < j < |r.1| :: r.1[i].1 != r.1[j].1)
             && (forall w | w in ns[1..] :: w in r.0 && r.0[w] <= nd)
             && (forall w | w in r.0 :: w in dist' || w in ns[1..])
             && (forall w | w in dist' :: w in r.0 && r.0[w] <= dist'[w])
             && (forall w | w in r.0 && (w !in dist' || r.0[w] != dist'[w]) ::
                   r.0[w] == nd && (nd, w, Some(x)) in r.1[|heap'|..])
    ensures |heap| <= |r.1| && r.1[..|heap|] == heap
    ensures forall k | |heap| <= k < |r.1| ::
              r.1[k].0 == nd && r.1[k].1 in ns && r.1[k].2 == Some(x)
              && r.1[k].1 in r.0 && r.0[r.1[k].1] == nd
              && (r.1[k].1 !in dist || nd < dist[r.1[k].1])
    ensures forall i, j | |heap| <= i < j < |r.1| :: r.1[i].1 != r.1[j].1
    ensures forall w | w in ns :: w in r.0 && r.0[w] <= nd
    ensures forall w | w in r.0 :: w in dist || w in ns
    ensures forall w | w in dist :: w in r.0 && r.0[w] <= dist[w]
    ensures forall w | w in r.0 && (w !in dist || r.0[w] != dist[w]) ::
              r.0[w] == nd && (nd, w, Some(x)) in r.1[|heap|..]
  {
    var n := ns[0];
    var heap' := heap + [(nd, n, Some(x))];
    assert r.1[..|heap|] == r.1[..|heap'|][..|heap|];
    assert r.1[|heap|] == (nd, n, Some(x));
    assert forall w | w in ns :: w == n || w in ns[1..];
    assert forall e | e in r.1[|heap'|..] :: e in r.1[|heap|..];
    assert (nd, n, Some(x)) in r.1[|heap|..];
    forall i, j | |heap| <= i < j < |r.1| ensures r.1[i].1 != r.1[j].1 {
      if i == |heap| {
        assert r.1[j].1 in r.0 && r.0[r.1[j].1] == nd;
      }
    }
  }

  // ---------------------------------------------------------------------------
  // The generator
  // ---------------------------------------------------------------------------

  /**
   The generator's local variables between two events; `d` is the distance
   of the entry popped last.
   */
  datatype DijkstraState = DijkstraState(
    start: nat,
    goal: nat,
    dist: map<nat, nat>,
    cameFrom: map<nat, nat>,
    visited: set<nat>,
    heap: seq<Item>,
    d: nat,
    phase: Phase)

  /** The generator before its first event: the start at distance 0 is the only entry. */
  function DijkstraStart(start: nat, goal: nat): DijkstraState {
    DijkstraState(start, goal, map[start := 0], map[], {}, [(0, start, None)], 0, Ready)
  }

  /**
   Runs the main loop from its head: pops the least entry, skipping those of
   visited cells, settles its cell and reports the visit, or reports
   `NotFound` once the heap is empty.
   */
  function DijkstraResume(s: DijkstraState): (r: (Event, DijkstraState))
    ensures r.0.Visit? || r.0.NotFound?
    ensures r.0.Visit? ==> r.0.node !in s.visited && r.1.visited == s.visited + {r.0.node}
    ensures r.0.Visit? ==> r.1.phase == Paused(r.0.node) && r.0.visited == r.1.visited
                           && r.0.cameFrom == r.1.cameFrom
    ensures r.0.NotFound? ==> r.1.phase == Done && r.1.visited == s.visited
    ensures r.0.NotFound? <==> forall e | e in s.heap :: e.1 in s.visited
    ensures r.0.Visit? ==> HasEntry(s.heap, r.1.d, r.0.node)
    ensures r.0.Visit? ==> forall e | e in s.heap && e.1 !in s.visited ::
                             r.1.d < e.0 || (r.1.d == e.0 && r.0.node <= e.1)
    ensures r.1.dist == s.dist && r.1.start == s.start && r.1.goal == s.goal
    ensures r.1.cameFrom.Keys <= s.cameFrom.Keys + (r.1.visited - s.visited)
    decreases |s.heap|
  {
    if s.heap == [] then (NotFound, s.(phase := Done))
    else
      var i := MinIndex(s.heap);
      var (d, n, parent) := s.heap[i];
      var heap := Remove(s.heap, i);
      if n in s.visited then DijkstraResume(s.(heap := heap, d := d))
      else
        var visited := s.visited + {n};
        var cameFrom := if parent.Some? then s.cameFrom[n := parent.value] else s.cameFrom;
        (Visit(n, visited, cameFrom),
         s.(heap := heap, d := d, visited := visited, cameFrom := cameFrom, phase := Paused(n)))
  }

  /** Resumes after the visit of `x`: relaxes its walkable neighbours in direction order. */
  function DijkstraExpand(m: Maze, s: DijkstraState, x: nat): DijkstraState
    requires WellFormed(m) && x < |m.grid|
  {
    var (dist, heap) := Relax(s.dist, s.heap, Walkable(m, x), s.d + 1, x);
    s.(dist := dist, heap := heap, phase := Ready)
  }

  /** The cells the generator reads from the grid are cells of the maze. */
  ghost predicate InRange(m: Maze, s: DijkstraState) {
    s.phase.Paused? ==> s.phase.node < |m.grid|
  }

  /** One `next()` of the generator: the event it yields and the state it is suspended in afterwards. */
  function DijkstraNext(m: Maze, s: DijkstraState): (r: (Event, DijkstraState))
    requires WellFormed(m) && InRange(m, s)
    ensures r.0.Stop? <==> s.phase.Done?
    ensures !r.0.Visit? ==> r.1.phase.Done?
    ensures r.0.Visit? ==> r.0.node !in s.visited && r.1.visited == s.visited + {r.0.node}
    ensures s.visited <= r.1.visited
    ensures r.0.Found? ==> s.phase == Paused(s.goal)
    ensures s.phase == Paused(s.goal) ==> r.0 == Found(ReconstructPath(s.cameFrom, s.goal)) && r.1.phase.Done?
  {
    match s.phase
    case Done => (Stop, s)
    case Ready => DijkstraResume(s)
    case Paused(x) =>
      if x == s.goal then (Found(ReconstructPath(s.cameFrom, s.goal)), s.(phase := Done))
      else DijkstraResume(DijkstraExpand(m, s, x))
  }

  // ---------------------------------------------------------------------------
  // The invariant
  // ---------------------------------------------------------------------------

  /** The visited cells whose neighbours have been relaxed. */
  function Expanded(s: DijkstraState): set<nat> {
    if s.phase.Paused? then s.visited - {s.phase.node} else s.visited
  }

  /**
   Cells are cells of the maze; visited cells have a distance; the start is
   at distance 0; before the first pop only the start's entry exists.
   */
  ghost predicate DijkstraShape(m: Maze, s: DijkstraState) {
    && s.start < |m.grid|
    && (forall v | v in s.dist :: v < |m.grid|)
    && s.start in s.dist && s.dist[s.start] == 0
    && s.visited <= s.dist.Keys
    && (s.phase.Paused? ==> s.phase.node in s.visited && s.d == s.dist[s.phase.node])
    && (s.visited == {} ==> s.heap == [(0, s.start, None)] && s.phase.Ready?)
    && (s.visited != {} ==> s.start in s.visited)
  }

  /**
   The predecessor map links exactly the visited cells other than the start,
   each to a cell one step nearer.
   */
  ghost predicate DijkstraTree(m: Maze, s: DijkstraState)
    requires WellFormed(m)
  {
    && s.cameFrom.Keys == s.visited - {s.start}
    && PredecessorTree(m, s.start, s.cameFrom)
    && StepLinks(s.cameFrom, s.dist)
  }

  /**
   Every entry is for a cell with a distance no larger than the entry's and
   no smaller than the last popped one; after the first pop each entry comes
   from a visited cell it is walkable from, one step further than that cell.
   */
  ghost predicate DijkstraEntries(m: Maze, s: DijkstraState)
    requires WellFormed(m)
  {
    forall e | e in s.heap ::
      && e.1 in s.dist && s.dist[e.1] <= e.0 && s.d <= e.0
      && (e.2.None? ==> e.1 == s.start && s.visited == {})
      && (e.2.Some? ==> e.2.value in s.visited && e.2.value in s.dist
                        && Open(m, e.2.value, e.1) && e.0 == s.dist[e.2.value] + 1)
  }

  /** Every cell with a distance that is not visited has an entry at that distance. */
  ghost predicate DijkstraPending(s: DijkstraState) {
    forall n | n in s.dist && n !in s.visited :: HasEntry(s.heap, s.dist[n], n)
  }

  /** Every walkable neighbour of an expanded cell has a distance at most one more. */
  ghost predicate DijkstraFrontier(m: Maze, s: DijkstraState)
    requires WellFormed(m)
  {
    FrontierOver(m, Expanded(s), s.dist)
  }

  /**
   Visited cells are no further than the last popped distance, and their
   distance is the length of a shortest walk from the start.
   */
  ghost predicate DijkstraSettled(m: Maze, s: DijkstraState)
    requires WellFormed(m)
  {
    forall v | v in s.visited ::
      v in s.dist && s.dist[v] <= s.d && NoShorterWalk(m, s.start, v, s.dist[v])
  }

  /** The invariant of a running Dijkstra search; the goal is never expanded. */
  ghost predicate DijkstraInv(m: Maze, s: DijkstraState) {
    && WellFormed(m)
    && DijkstraShape(m, s)
    && DijkstraTree(m, s)
    && DijkstraEntries(m, s)
    && EntriesUnique(s.heap)
    && DijkstraPending(s)
    && DijkstraFrontier(m, s)
    && DijkstraSettled(m, s)
    && s.goal !in Expanded(s)
  }

  /** The generator starts in a state satisfying the invariant. */
  lemma DijkstraStartInv(m: Maze, start: nat, goal: nat)
    requires WellFormed(m) && start < |m.grid|
    ensures DijkstraInv(m, DijkstraStart(start, goal))
  {
    var s := DijkstraStart(start, goal);
    PredecessorTreeEmpty(m, start);
    assert (0, start, None) in s.heap;
  }

  // ---------------------------------------------------------------------------
  // Popping
  // ---------------------------------------------------------------------------

  /** The state after popping the least entry, whose cell is already visited, and skipping it. */
  function Skip(s: DijkstraState): DijkstraState
    requires s.heap != []
  {
    var i := MinIndex(s.heap);
    s.(heap := Remove(s.heap, i), d := s.heap[i].0)
  }

  /** The popped entry's distance is at least the previous one and at most every remaining entry's. */
  lemma PopBounds(m: Maze, s: DijkstraState)
    requires WellFormed(m) && DijkstraEntries(m, s) && s.heap != []
    ensures var i := MinIndex(s.heap);
            && s.d <= s.heap[i].0
            && forall e | e in Remove(s.heap, i) :: s.heap[i].0 <= e.0
  {
    var i := MinIndex(s.heap);
    assert s.heap[i] in s.heap;
  }

  /** Skipping an entry of a visited cell keeps the invariant. */
  lemma DijkstraSkipInv(m: Maze, s: DijkstraState)
    requires DijkstraInv(m, s) && s.phase.Ready? && s.heap != []
    requires s.heap[MinIndex(s.heap)].1 in s.visited
    ensures DijkstraInv(m, Skip(s))
  {
    var i := MinIndex(s.heap);
    var s' := Skip(s);
    PopBounds(m, s);
    UniqueRemove(s.heap, i);
    assert DijkstraPending(s') by {
      forall n | n in s'.dist && n !in s'.visited ensures HasEntry(s'.heap, s'.dist[n], n) {
        var e :| e in s.heap && e.0 == s.dist[n] && e.1 == n;
        assert e in s'.heap;
      }
    }
    assert DijkstraEntries(m, s');
  }

  /** The state after popping the least entry, whose cell is not visited, and settling that cell. */
  function Settle(s: DijkstraState): DijkstraState
    requires s.heap != []
  {
    var i := MinIndex(s.heap);
    var (d, n, parent) := s.heap[i];
    var cameFrom := if parent.Some? then s.cameFrom[n := parent.value] else s.cameFrom;
    s.(heap := Remove(s.heap, i), d := d, visited := s.visited + {n}, cameFrom := cameFrom,
       phase := Paused(n))
  }

  /** An unvisited cell comes out of the heap at exactly its distance. */
  lemma PoppedAtDistance(m: Maze, s: DijkstraState)
    requires WellFormed(m) && DijkstraEntries(m, s) && DijkstraPending(s) && s.heap != []
    requires s.heap[MinIndex(s.heap)].1 !in s.visited
    ensures var e := s.heap[MinIndex(s.heap)];
            e.1 in s.dist && e.0 == s.dist[e.1]
  {
    var top := s.heap[MinIndex(s.heap)];
    assert top in s.heap;
    var e :| e in s.heap && e.0 == s.dist[top.1] && e.1 == top.1;
  }

  /**
   The cell popped first among the unvisited ones is at a shortest distance:
   a shorter walk would leave the visited cells through a neighbour whose
   distance, and hence heap entry, is smaller than the popped one.
   */
  lemma SettleIsShortest(m: Maze, s: DijkstraState)
    requires DijkstraInv(m, s) && s.phase.Ready? && s.heap != []
    requires s.heap[MinIndex(s.heap)].1 !in s.visited
    ensures var e := s.heap[MinIndex(s.heap)];
            NoShorterWalk(m, s.start, e.1, e.0)
  {
    var i := MinIndex(s.heap);
    var (k, n, parent) := s.heap[i];
    forall p | IsWalk(m, p) && p[0] == s.start && p[|p| - 1] == n
      ensures |p| - 1 >= k
    {
      if s.visited != {} {
        var j := ExitStep(p, s.visited);
        WalkPrefix(m, p, j);
        var q := p[..j + 1];
        assert q[0] == s.start && q[|q| - 1] == p[j];
        assert Open(m, p[j], p[j + 1]);
        var e :| e in s.heap && e.0 == s.dist[p[j + 1]] && e.1 == p[j + 1];
        assert Precedes(s.heap[i], e);
      }
    }
  }

  /** Linking a new cell to a visited parent one step nearer keeps the tree over the visited cells. */
  lemma SettleLinked(m: Maze, start: nat, visited: set<nat>, cameFrom: map<nat, nat>,
                     dist: map<nat, nat>, n: nat, p: nat)
    requires WellFormed(m) && start in visited && cameFrom.Keys == visited - {start}
    requires PredecessorTree(m, start, cameFrom) && StepLinks(cameFrom, dist)
    requires n !in visited && p in visited && Open(m, p, n)
    requires n in dist && p in dist && dist[n] == dist[p] + 1
    ensures cameFrom[n := p].Keys == visited + {n} - {start}
    ensures PredecessorTree(m, start, cameFrom[n := p]) && StepLinks(cameFrom[n := p], dist)
  {
    SettleKeepsTree(m, start, visited, cameFrom, n, p);
    LinkKeepsDistances(cameFrom, dist, n, p);
  }

  /** Settling the popped cell links it to its entry's parent, one step nearer the start. */
  lemma SettleTree(m: Maze, s: DijkstraState)
    requires WellFormed(m) && DijkstraShape(m, s) && DijkstraTree(m, s) && DijkstraEntries(m, s)
    requires DijkstraPending(s) && s.phase.Ready? && s.heap != []
    requires s.heap[MinIndex(s.heap)].1 !in s.visited
    ensures DijkstraTree(m, Settle(s))
  {
    var i := MinIndex(s.heap);
    var (k, n, parent) := s.heap[i];
    assert s.heap[i] in s.heap;
    PoppedAtDistance(m, s);
    if parent.Some? {
      SettleLinked(m, s.start, s.visited, s.cameFrom, s.dist, n, parent.value);
    } else {
      assert n == s.start;
    }
  }

  /** Settling the popped cell keeps the shape and the entries of the rest of the heap. */
  lemma SettleEntries(m: Maze, s: DijkstraState)
    requires DijkstraInv(m, s) && s.phase.Ready? && s.heap != []
    requires s.heap[MinIndex(s.heap)].1 !in s.visited
    ensures DijkstraShape(m, Settle(s)) && DijkstraEntries(m, Settle(s))
    ensures EntriesUnique(Settle(s).heap)
  {
    var i := MinIndex(s.heap);
    var s' := Settle(s);
    assert s.heap[i] in s.heap;
    PopBounds(m, s);
    PoppedAtDistance(m, s);
    UniqueRemove(s.heap, i);
    if s.visited == {} {
      assert s'.heap == [];
    } else {
      forall e | e in s'.heap ensures e.2.Some? {
        assert e in s.heap;
      }
    }
  }

  /** Settling the popped cell leaves an entry for every other cell with a distance. */
  lemma SettlePending(m: Maze, s: DijkstraState)
    requires DijkstraInv(m, s) && s.phase.Ready? && s.heap != []
    requires s.heap[MinIndex(s.heap)].1 !in s.visited
    ensures DijkstraPending(Settle(s))
  {
    var s' := Settle(s);
    forall n | n in s'.dist && n !in s'.visited ensures HasEntry(s'.heap, s'.dist[n], n) {
      var e :| e in s.heap && e.0 == s.dist[n] && e.1 == n;
      assert e in s'.heap;
    }
  }

  /** Settling the popped cell records it at its shortest distance. */
  lemma SettleSettled(m: Maze, s: DijkstraState)
    requires DijkstraInv(m, s) && s.phase.Ready? && s.heap != []
    requires s.heap[MinIndex(s.heap)].1 !in s.visited
    ensures DijkstraSettled(m, Settle(s))
  {
    PopBounds(m, s);
    PoppedAtDistance(m, s);
    SettleIsShortest(m, s);
  }

  /** Settling an unvisited cell keeps the invariant. */
  lemma DijkstraSettleInv(m: Maze, s: DijkstraState)
    requires DijkstraInv(m, s) && s.phase.Ready? && s.heap != []
    requires s.heap[MinIndex(s.heap)].1 !in s.visited
    ensures DijkstraInv(m, Settle(s))
  {
    SettleTree(m, s);
    SettleEntries(m, s);
    SettlePending(m, s);
    SettleSettled(m, s);
    SettleExpanded(s);
  }

  /** Settling a cell pauses on it, so the expanded cells stay the same. */
  lemma SettleExpanded(s: DijkstraState)
    requires s.phase.Ready? && s.heap != [] && s.heap[MinIndex(s.heap)].1 !in s.visited
    ensures Expanded(Settle(s)) == Expanded(s) && Settle(s).dist == s.dist
  {
  }

  // ---------------------------------------------------------------------------
  // Relaxing
  // ---------------------------------------------------------------------------

  /** Relaxing the neighbours of the last visited cell leaves every visited distance alone. */
  lemma ExpandKeepsSettled(m: Maze, s: DijkstraState, x: nat)
    requires WellFormed(m) && x < |m.grid|
    requires forall v | v in s.visited :: v in s.dist && s.dist[v] <= s.d
    ensures var s' := DijkstraExpand(m, s, x);
            forall v | v in s.visited :: v in s'.dist && s'.dist[v] == s.dist[v]
  {
    var s' := DijkstraExpand(m, s, x);
    forall v | v in s.visited ensures v in s'.dist && s'.dist[v] == s.dist[v] {
      assert s'.dist[v] <= s.dist[v] <= s.d;
    }
  }

  /** Relaxing keeps the shape. */
  lemma ExpandShape(m: Maze, s: DijkstraState, x: nat)
    requires DijkstraInv(m, s) && s.phase == Paused(x)
    ensures DijkstraShape(m, DijkstraExpand(m, s, x))
  {
    ExpandKeepsSettled(m, s, x);
    assert forall w | w in Walkable(m, x) :: w < |m.grid|;
  }

  /** Relaxing keeps the tree: it links nothing and changes no visited distance. */
  lemma ExpandTree(m: Maze, s: DijkstraState, x: nat)
    requires DijkstraInv(m, s) && s.phase == Paused(x)
    ensures DijkstraTree(m, DijkstraExpand(m, s, x))
  {
    ExpandKeepsSettled(m, s, x);
  }

  /** Relaxing keeps every entry justified, the new ones by `x` itself. */
  lemma ExpandEntries(m: Maze, s: DijkstraState, x: nat)
    requires DijkstraInv(m, s) && s.phase == Paused(x)
    ensures DijkstraEntries(m, DijkstraExpand(m, s, x))
  {
    ExpandKeepsSettled(m, s, x);
    var s' := DijkstraExpand(m, s, x);
    forall e | e in s'.heap
      ensures && e.1 in s'.dist && s'.dist[e.1] <= e.0 && s'.d <= e.0
              && (e.2.None? ==> e.1 == s'.start && s'.visited == {})
              && (e.2.Some? ==> e.2.value in s'.visited && e.2.value in s'.dist
                                && Open(m, e.2.value, e.1) && e.0 == s'.dist[e.2.value] + 1)
    {
      var k :| 0 <= k < |s'.heap| && s'.heap[k] == e;
      if k < |s.heap| {
        assert e == s'.heap[..|s.heap|][k];
        assert e in s.heap;
      } else {
        assert e.1 in Walkable(m, x);
      }
    }
  }

  /** Relaxing adds entries only at distances no entry of the same cell already has. */
  lemma ExpandUnique(m: Maze, s: DijkstraState, x: nat)
    requires DijkstraInv(m, s) && s.phase == Paused(x)
    ensures EntriesUnique(DijkstraExpand(m, s, x).heap)
  {
    var s' := DijkstraExpand(m, s, x);
    var h := s'.heap;
    forall i, j | 0 <= i < j < |h| ensures h[i].0 != h[j].0 || h[i].1 != h[j].1 {
      if j < |s.heap| {
        assert h[i] == s.heap[i] && h[j] == s.heap[j];
      } else if i < |s.heap| {
        assert h[i] == s.heap[i];
        assert s.heap[i] in s.heap;
      }
    }
  }

  /** Relaxing leaves an entry at its distance for every unvisited cell with one. */
  lemma RelaxPending(dist: map<nat, nat>, heap: seq<Item>, visited: set<nat>, ns: seq<nat>, nd: nat, x: nat)
    requires forall n | n in dist && n !in visited :: HasEntry(heap, dist[n], n)
    ensures var (dist', heap') := Relax(dist, heap, ns, nd, x);
            forall n | n in dist' && n !in visited :: HasEntry(heap', dist'[n], n)
  {
    var (dist', heap') := Relax(dist, heap, ns, nd, x);
    forall n | n in dist' && n !in visited ensures HasEntry(heap', dist'[n], n) {
      if n in dist && dist'[n] == dist[n] {
        var e :| e in heap && e.0 == dist[n] && e.1 == n;
        var k :| 0 <= k < |heap| && heap[k] == e;
        assert heap'[..|heap|][k] == e;
        assert heap'[k] == e;
      } else {
        var e := (nd, n, Some(x));
        assert e in heap'[|heap|..];
        assert e in heap';
      }
    }
  }

  /** Relaxing keeps an entry for every unvisited cell with a distance. */
  lemma ExpandPending(m: Maze, s: DijkstraState, x: nat)
    requires WellFormed(m) && DijkstraPending(s) && x < |m.grid|
    ensures DijkstraPending(DijkstraExpand(m, s, x))
  {
    RelaxPending(s.dist, s.heap, s.visited, Walkable(m, x), s.d + 1, x);
  }

  /** Relaxing makes `x` expanded: its walkable neighbours are at most one step further. */
  lemma ExpandFrontier(m: Maze, s: DijkstraState, x: nat)
    requires WellFormed(m) && DijkstraFrontier(m, s) && s.phase == Paused(x) && x < |m.grid|
    requires forall v | v in s.visited :: v in s.dist && s.dist[v] <= s.d
    requires x in s.visited && s.d == s.dist[x]
    ensures DijkstraFrontier(m, DijkstraExpand(m, s, x))
  {
    ExpandKeepsSettled(m, s, x);
    var s' := DijkstraExpand(m, s, x);
    RelaxKeepsFrontier(m, s.visited, x, s.dist, Walkable(m, x), s.d + 1, s'.dist);
  }

  /** Relaxing the neighbours of a visited cell other than the goal keeps the invariant. */
  lemma DijkstraExpandInv(m: Maze, s: DijkstraState, x: nat)
    requires DijkstraInv(m, s) && s.phase == Paused(x) && x != s.goal
    ensures DijkstraInv(m, DijkstraExpand(m, s, x))
  {
    ExpandKeepsSettled(m, s, x);
    ExpandShape(m, s, x);
    ExpandTree(m, s, x);
    ExpandEntries(m, s, x);
    ExpandUnique(m, s, x);
    ExpandPending(m, s, x);
    ExpandFrontier(m, s, x);
  }

  // ---------------------------------------------------------------------------
  // Resuming at the loop head
  // ---------------------------------------------------------------------------

  /** An exhausted heap means every cell with a distance is visited and no step leaves them. */
  lemma DijkstraNotFound(m: Maze, s: DijkstraState)
    requires DijkstraInv(m, s) && s.phase.Ready? && s.heap == []
    ensures !Reachable(m, s.start, s.goal)
  {
    assert forall n | n in s.dist :: n in s.visited || HasEntry(s.heap, s.dist[n], n);
    ExhaustedMeansUnreachable(m, s.visited, s.start, s.goal);
  }

  /**
   Resuming keeps the invariant when it reports a visit, reports it at a
   distance no smaller than the last popped one, and reports `NotFound` only
   when the goal is unreachable.
   */
  lemma {:induction false} DijkstraResumeInv(m: Maze, s: DijkstraState)
    requires DijkstraInv(m, s) && s.phase.Ready?
    ensures var r := DijkstraResume(s);
            && (r.0.Visit? ==> DijkstraInv(m, r.1) && s.d <= r.1.d)
            && (r.0.NotFound? ==> !Reachable(m, s.start, s.goal))
    decreases |s.heap|
  {
    if s.heap == [] {
      DijkstraNotFound(m, s);
    } else {
      PopBounds(m, s);
      var i := MinIndex(s.heap);
      if s.heap[i].1 in s.visited {
        DijkstraSkipInv(m, s);
        DijkstraResumeInv(m, Skip(s));
      } else {
        DijkstraSettleInv(m, s);
        assert DijkstraResume(s).1 == Settle(s);
      }
    }
  }

  /** Settling writes only the predecessor of the settled cell, to its entry's parent. */
  lemma SettleWriteOnce(m: Maze, s: DijkstraState)
    requires WellFormed(m) && DijkstraTree(m, s) && DijkstraEntries(m, s) && s.heap != []
    requires s.heap[MinIndex(s.heap)].1 !in s.visited
    ensures var s' := Settle(s);
            && (forall k | k in s.cameFrom :: k in s'.cameFrom && s'.cameFrom[k] == s.cameFrom[k])
            && (forall k | k in s'.cameFrom && k !in s.cameFrom ::
                  k == s.heap[MinIndex(s.heap)].1 && s'.cameFrom[k] in s.visited
                  && Open(m, s'.cameFrom[k], k))
  {
    assert s.heap[MinIndex(s.heap)] in s.heap;
  }

  /**
   Resuming writes at most one predecessor: the one of the cell it settles,
   which was not linked before, to a visited cell it is walkable from.
   */
  lemma {:induction false} DijkstraResumeWriteOnce(m: Maze, s: DijkstraState)
    requires DijkstraInv(m, s) && s.phase.Ready?
    ensures var r := DijkstraResume(s);
            && (forall k | k in s.cameFrom :: k in r.1.cameFrom && r.1.cameFrom[k] == s.cameFrom[k])
            && (forall k | k in r.1.cameFrom && k !in s.cameFrom ::
                  r.0.Visit? && k == r.0.node && r.1.cameFrom[k] in s.visited
                  && Open(m, r.1.cameFrom[k], k))
    decreases |s.heap|
  {
    if s.heap != [] {
      var i := MinIndex(s.heap);
      if s.heap[i].1 in s.visited {
        DijkstraSkipInv(m, s);
        DijkstraResumeWriteOnce(m, Skip(s));
        assert DijkstraResume(s) == DijkstraResume(Skip(s));
      } else {
        SettleWriteOnce(m, s);
        assert DijkstraResume(s).1 == Settle(s);
        assert DijkstraResume(s).0.node == s.heap[i].1;
      }
    }
  }

  // ---------------------------------------------------------------------------
  // Reconstructed paths are shortest
  // ---------------------------------------------------------------------------

  /**
   The path reconstructed for a visited cell, preceded by the start, is a
   walk to it whose length is the cell's distance, and no walk is shorter.
   */
  lemma VisitedPathIsShortest(m: Maze, s: DijkstraState, v: nat)
    requires WellFormed(m) && DijkstraShape(m, s) && DijkstraTree(m, s) && DijkstraSettled(m, s)
    requires v in s.visited
    ensures var p := ReconstructPath(s.cameFrom, v);
            && v in s.dist && NoShorterWalk(m, s.start, v, s.dist[v]) && |p| == s.dist[v]
            && (v != s.start ==> |p| > 0 && IsWalk(m, [s.start] + p) && p[|p| - 1] == v)
  {
    PathLengthIsDistance(m, s.start, v, s.cameFrom, s.dist);
    FoundPathIsWalk(m, s.start, v, s.cameFrom);
  }

  // ---------------------------------------------------------------------------
  // Properties of whole steps
  // ---------------------------------------------------------------------------

  /** Every step keeps the invariant until the search has finished. */
  lemma DijkstraNextInv(m: Maze, s: DijkstraState)
    requires DijkstraInv(m, s)
    ensures var r := DijkstraNext(m, s);
            r.1.phase.Done? || DijkstraInv(m, r.1)
  {
    match s.phase
    case Done =>
    case Ready => DijkstraResumeInv(m, s);
    case Paused(x) =>
      if x != s.goal {
        DijkstraExpandInv(m, s, x);
        DijkstraResumeInv(m, DijkstraExpand(m, s, x));
      }
  }

  /**
   Cells are visited in order of distance: each visit pops a distance no
   smaller than the one before, and the visited cell's distance is exactly
   the popped one.
   */
  lemma DijkstraVisitsInOrder(m: Maze, s: DijkstraState)
    requires DijkstraInv(m, s) && DijkstraNext(m, s).0.Visit?
    ensures var r := DijkstraNext(m, s);
            && s.d <= r.1.d
            && r.0.node in r.1.dist && r.1.dist[r.0.node] == r.1.d
  {
    match s.phase
    case Ready => DijkstraResumeInv(m, s);
    case Paused(x) =>
      DijkstraExpandInv(m, s, x);
      DijkstraResumeInv(m, DijkstraExpand(m, s, x));
  }

  /**
   A visited cell's distance is the length of a shortest walk to it: no walk
   from the start is shorter, and the reconstructed path, preceded by the
   start, is a walk of exactly that length.
   */
  lemma DijkstraVisitIsShortest(m: Maze, s: DijkstraState)
    requires DijkstraInv(m, s) && DijkstraNext(m, s).0.Visit?
    ensures var r := DijkstraNext(m, s);
            var n := r.0.node;
            var p := ReconstructPath(r.1.cameFrom, n);
            && n in r.1.dist
            && NoShorterWalk(m, s.start, n, r.1.dist[n])
            && |p| == r.1.dist[n]
            && (n != s.start ==> |p| > 0 && IsWalk(m, [s.start] + p) && p[|p| - 1] == n)
  {
    DijkstraNextInv(m, s);
    var r := DijkstraNext(m, s);
    assert r.1.start == s.start;
    VisitedPathIsShortest(m, r.1, r.0.node);
  }

  /**
   A reported path is a shortest route from the start to the goal: preceded
   by the start it is a walk ending at the goal, no walk is shorter, and it
   is empty exactly when the start is the goal.
   */
  lemma DijkstraFoundPath(m: Maze, s: DijkstraState)
    requires DijkstraInv(m, s) && DijkstraNext(m, s).0.Found?
    ensures var p := DijkstraNext(m, s).0.path;
            && s.start !in p
            && (s.goal == s.start <==> p == [])
            && (s.goal != s.start ==> |p| > 0 && IsWalk(m, [s.start] + p) && p[|p| - 1] == s.goal)
            && NoShorterWalk(m, s.start, s.goal, |p|)
  {
    FoundPathIsWalk(m, s.start, s.goal, s.cameFrom);
    PathLengthIsDistance(m, s.start, s.goal, s.cameFrom, s.dist);
  }

  /** `NotFound` is reported only when no walk leads from the start to the goal. */
  lemma DijkstraNotFoundUnreachable(m: Maze, s: DijkstraState)
    requires DijkstraInv(m, s) && DijkstraNext(m, s).0.NotFound?
    ensures !Reachable(m, s.start, s.goal)
  {
    match s.phase
    case Ready => DijkstraResumeInv(m, s);
    case Paused(x) =>
      DijkstraExpandInv(m, s, x);
      DijkstraResumeInv(m, DijkstraExpand(m, s, x));
  }

  /**
   Predecessors are written once: an existing entry never changes, and the
   only new entry is the cell a `Visit` settles, linked to a visited cell it is
   walkable from.
   */
  lemma DijkstraCameFromWriteOnce(m: Maze, s: DijkstraState)
    requires DijkstraInv(m, s)
    ensures var r := DijkstraNext(m, s);
            && (forall k | k in s.cameFrom :: k in r.1.cameFrom && r.1.cameFrom[k] == s.cameFrom[k])
            && (forall k | k in r.1.cameFrom && k !in s.cameFrom ::
                  r.0.Visit? && k == r.0.node && r.1.cameFrom[k] in s.visited
                  && Open(m, r.1.cameFrom[k], k))
  {
    match s.phase
    case Done =>
    case Ready => DijkstraResumeWriteOnce(m, s);
    case Paused(x) =>
      if x != s.goal {
        DijkstraExpandInv(m, s, x);
        DijkstraResumeWriteOnce(m, DijkstraExpand(m, s, x));
      }
  }

  /** A running search has visited no more cells than the maze holds, so it reports at most that many visits. */
  lemma DijkstraVisitsBounded(m: Maze, s: DijkstraState)
    requires DijkstraInv(m, s)
    ensures |s.visited| <= |m.grid|
  {
    IndicesBound(s.visited, |m.grid|);
  }
}
