/**
 Breadth-first search (`BFS_generator`) as a state machine. Unlike the other
 searches it marks a cell visited when it is enqueued, so the visited set it
 reports holds the settled cells and the cells waiting in the queue.
 */
module Bfs {
  import opened Wrappers
  import opened Grid
  import opened Graph
  import opened Paths
  import opened Search

  /** The entries' cells are pairwise different. */
  ghost predicate Distinct(entries: seq<Entry>) {
    forall i, j | 0 <= i < j < |entries| :: entries[i].0 != entries[j].0
  }

  /**
   The expansion loop: every cell of `ns`, in order, that is not visited yet
   is marked visited and enqueued with `node` as its parent.
   */
  function Enqueue(queue: seq<Entry>, visited: set<nat>, ns: seq<nat>, node: nat): (r: (seq<Entry>, set<nat>))
    ensures |queue| <= |r.0| && r.0[..|queue|] == queue
    ensures forall k | |queue| <= k < |r.0| ::
              r.0[k].1 == Some(node) && r.0[k].0 in ns && r.0[k].0 !in visited
    ensures Distinct(r.0[|queue|..])
    ensures r.1 == visited + Nodes(r.0[|queue|..])
    ensures forall n | n in ns :: n in r.1
    decreases |ns|
  {
    if ns == [] then
      assert queue[|queue|..] == [];
      (queue, visited)
    else if ns[0] in visited then
      Enqueue(queue, visited, ns[1..], node)
    else
      var r := Enqueue(queue + [(ns[0], Some(node))], visited + {ns[0]}, ns[1..], node);
      EnqueueStep(queue, visited, ns[0], node, r.0, r.1);
      r
  }

  /**
   The enqueued entries follow `ns`: the `t`-th comes from position `pos[t]`,
   the positions increase, each is the first occurrence of an unvisited cell,
   and every such first occurrence is among them, so a neighbour listed twice
   is enqueued once, in the order of `ns`.
   */
  lemma {:induction false} EnqueueOrder(queue: seq<Entry>, visited: set<nat>, ns: seq<nat>, node: nat)
    returns (pos: seq<nat>)
    ensures NewEntries(|queue|, ns, visited, node, Enqueue(queue, visited, ns, node).0, pos)
    ensures Increasing(pos)
    ensures forall t | 0 <= t < |pos| :: pos[t] < |ns| && ns[pos[t]] !in ns[..pos[t]]
    ensures forall k | 0 <= k < |ns| && ns[k] !in visited && ns[k] !in ns[..k] :: k in pos
    decreases |ns|
  {
    if ns == [] {
      pos := [];
    } else {
      var queue' := if ns[0] in visited then queue else queue + [(ns[0], Some(node))];
      var visited' := visited + {ns[0]};
      var q := Enqueue(queue', visited', ns[1..], node).0;
      assert q == Enqueue(queue, visited, ns, node).0 by {
        if ns[0] in visited {
          assert visited' == visited;
        }
      }
      var rest := EnqueueOrder(queue', visited', ns[1..], node);
      pos := EnqueueOrderStep(queue, queue', visited, visited', ns, node, q, rest);
    }
  }

  /** One step of `Enqueue`: the first cell of `ns`, if unvisited, is enqueued ahead of the rest. */
  lemma EnqueueOrderStep(queue: seq<Entry>, queue': seq<Entry>, visited: set<nat>, visited': set<nat>,
                         ns: seq<nat>, node: nat, q: seq<Entry>, rest: seq<nat>) returns (pos: seq<nat>)
    requires ns != [] && visited' == visited + {ns[0]}
    requires queue' == if ns[0] in visited then queue else queue + [(ns[0], Some(node))]
    requires |queue'| <= |q| && q[..|queue'|] == queue'
    requires NewEntries(|queue'|, ns[1..], visited', node, q, rest) && Increasing(rest)
    requires forall t | 0 <= t < |rest| :: rest[t] < |ns[1..]| && ns[1..][rest[t]] !in ns[1..][..rest[t]]
    requires forall k | 0 <= k < |ns[1..]| && ns[1..][k] !in visited' && ns[1..][k] !in ns[1..][..k] :: k in rest
    ensures NewEntries(|queue|, ns, visited, node, q, pos) && Increasing(pos)
    ensures forall t | 0 <= t < |pos| :: pos[t] < |ns| && ns[pos[t]] !in ns[..pos[t]]
    ensures forall k | 0 <= k < |ns| && ns[k] !in visited && ns[k] !in ns[..k] :: k in pos
  {
    ShiftIncreasing(rest);
    FirstOccurrenceStep(ns, visited', q, |queue'|, node, rest);
    EnqueueCoverStep(ns, visited, visited', rest);
    if ns[0] in visited {
      pos := Shift(rest);
      NewEntriesSkip(|queue|, ns, visited, visited', node, q, rest);
    } else {
      pos := [0] + Shift(rest);
      assert q[|queue|] == q[..|queue'|][|queue|] == queue'[|queue|];
      NewEntriesKeep(|queue|, ns, visited, visited', node, q, rest);
      FirstOccurrenceKeep(ns, Shift(rest));
    }
  }

  /** A tail position whose cell is new to `visited'`, which holds `ns[0]`, is a first occurrence in `ns` too. */
  lemma FirstOccurrenceStep(ns: seq<nat>, visited': set<nat>, q: seq<Entry>, base: nat, node: nat, rest: seq<nat>)
    requires ns != [] && ns[0] in visited'
    requires NewEntries(base, ns[1..], visited', node, q, rest)
    requires forall t | 0 <= t < |rest| :: rest[t] < |ns[1..]| && ns[1..][rest[t]] !in ns[1..][..rest[t]]
    ensures forall t | 0 <= t < |rest| :: Shift(rest)[t] < |ns| && ns[Shift(rest)[t]] !in ns[..Shift(rest)[t]]
  {
    var pos := Shift(rest);
    forall t | 0 <= t < |rest| ensures pos[t] < |ns| && ns[pos[t]] !in ns[..pos[t]] {
      assert ns[pos[t]] == ns[1..][rest[t]] && ns[pos[t]] !in visited';
      assert ns[..pos[t]] == [ns[0]] + ns[1..][..rest[t]];
    }
  }

  /** Position `0` is a first occurrence, so first occurrences stay first behind it. */
  lemma FirstOccurrenceKeep(ns: seq<nat>, pos: seq<nat>)
    requires ns != []
    requires forall t | 0 <= t < |pos| :: pos[t] < |ns| && ns[pos[t]] !in ns[..pos[t]]
    ensures forall t | 0 <= t < |pos| + 1 :: ([0] + pos)[t] < |ns| && ns[([0] + pos)[t]] !in ns[..([0] + pos)[t]]
  {
    forall t | 0 <= t < |pos| + 1
      ensures ([0] + pos)[t] < |ns| && ns[([0] + pos)[t]] !in ns[..([0] + pos)[t]]
    {
      if t > 0 {
        assert ([0] + pos)[t] == pos[t - 1];
      }
    }
  }

  /** The first occurrences of unvisited cells after position `0`, renumbered from the tail's. */
  lemma EnqueueCoverStep(ns: seq<nat>, visited: set<nat>, visited': set<nat>, rest: seq<nat>)
    requires ns != [] && visited' == visited + {ns[0]}
    requires forall k | 0 <= k < |ns[1..]| && ns[1..][k] !in visited' && ns[1..][k] !in ns[1..][..k] :: k in rest
    ensures forall k | 0 < k < |ns| && ns[k] !in visited && ns[k] !in ns[..k] ::
              k in Shift(rest) && k in [0] + Shift(rest)
  {
    forall k | 0 < k < |ns| && ns[k] !in visited && ns[k] !in ns[..k]
      ensures k in Shift(rest) && k in [0] + Shift(rest)
    {
      assert ns[1..][k - 1] == ns[k];
      assert ns[..k] == [ns[0]] + ns[1..][..k - 1];
      ShiftMember(rest, k);
    }
  }

  /** The new entries after one enqueued cell are that cell's entry and the ones after it. */
  lemma EnqueueStep(queue: seq<Entry>, visited: set<nat>, n: nat, node: nat, q: seq<Entry>, v: set<nat>)
    requires n !in visited
    requires |queue| + 1 <= |q| && q[..|queue| + 1] == queue + [(n, Some(node))]
    requires forall k | |queue| + 1 <= k < |q| :: q[k].0 !in visited + {n}
    requires Distinct(q[|queue| + 1..])
    requires v == visited + {n} + Nodes(q[|queue| + 1..])
    ensures Distinct(q[|queue|..])
    ensures v == visited + Nodes(q[|queue|..])
    ensures q[..|queue|] == queue
  {
    assert q[|queue|..] == [q[|queue|]] + q[|queue| + 1..];
    assert q[|queue|] == (queue + [(n, Some(node))])[|queue|];
    assert q[..|queue|] == q[..|queue| + 1][..|queue|];
  }

  /** The generator's local variables between two events. */
  datatype BfsState = BfsState(
    start: nat,
    goal: nat,
    queue: seq<Entry>,
    visited: set<nat>,
    cameFrom: map<nat, nat>,
    phase: Phase)

  /** The generator before its first event: the start is visited and queued without a parent. */
  function BfsStart(start: nat, goal: nat): BfsState {
    BfsState(start, goal, [(start, None)], {start}, map[], Ready)
  }

  /** The cells that have left the queue. */
  ghost function Settled(s: BfsState): set<nat> {
    s.visited - Nodes(s.queue)
  }

  /** The settled cells whose walkable neighbours have been enqueued. */
  ghost function Expanded(s: BfsState): set<nat> {
    if s.phase.Paused? then Settled(s) - {s.phase.node} else Settled(s)
  }

  /**
   Runs the main loop from its head: takes the front of the queue, records
   its predecessor and reports its visit, or reports `NotFound` when the queue
   is empty.
   */
  function BfsResume(s: BfsState): (r: (Event, BfsState))
    ensures r.0.Visit? || r.0.NotFound?
    ensures r.0.NotFound? <==> s.queue == []
    ensures r.0.Visit? ==> r.0.node == s.queue[0].0 && r.1.queue == s.queue[1..]
    ensures r.0.Visit? ==> r.1.phase == Paused(r.0.node) && r.0.visited == r.1.visited == s.visited
                           && r.0.cameFrom == r.1.cameFrom
    ensures r.0.NotFound? ==> r.1.phase == Done && r.1 == s.(phase := Done)
  {
    if s.queue == [] then (NotFound, s.(phase := Done))
    else
      var (n, parent) := s.queue[0];
      var cameFrom := if parent.Some? then s.cameFrom[n := parent.value] else s.cameFrom;
      (Visit(n, s.visited, cameFrom),
       s.(queue := s.queue[1..], cameFrom := cameFrom, phase := Paused(n)))
  }

  /** Resumes after the visit of `x`: enqueues its unvisited walkable neighbours in direction order. */
  function BfsExpand(m: Maze, s: BfsState, x: nat): BfsState
    requires WellFormed(m) && x < |m.grid|
  {
    var (queue, visited) := Enqueue(s.queue, s.visited, Walkable(m, x), x);
    s.(queue := queue, visited := visited, phase := Ready)
  }

  /** The cells the generator reads from the grid are cells of the maze. */
  ghost predicate InRange(m: Maze, s: BfsState) {
    s.phase.Paused? ==> s.phase.node < |m.grid|
  }

  /** One `next()` of the generator: the event it yields and the state it is suspended in afterwards. */
  function BfsNext(m: Maze, s: BfsState): (r: (Event, BfsState))
    requires WellFormed(m) && InRange(m, s)
    ensures r.0.Stop? <==> s.phase.Done?
    ensures !r.0.Visit? ==> r.1.phase.Done?
    ensures s.visited <= r.1.visited
    ensures r.0.Found? ==> s.phase == Paused(s.goal)
    ensures s.phase == Paused(s.goal) ==> r.0 == Found(ReconstructPath(s.cameFrom, s.goal)) && r.1.phase.Done?
  {
    match s.phase
    case Done => (Stop, s)
    case Ready => BfsResume(s)
    case Paused(x) =>
      if x == s.goal then (Found(ReconstructPath(s.cameFrom, s.goal)), s.(phase := Done))
      else BfsResume(BfsExpand(m, s, x))
  }

  // ---------------------------------------------------------------------------
  // The invariant
  // ---------------------------------------------------------------------------

  /**
   Visited cells are cells of the maze, the queue holds distinct visited
   cells, and the start is queued only at the very beginning.
   */
  ghost predicate BfsShape(m: Maze, s: BfsState) {
    && s.start in s.visited
    && (forall v | v in s.visited :: v < |m.grid|)
    && Nodes(s.queue) <= s.visited
    && Distinct(s.queue)
    && (s.phase.Paused? ==> s.phase.node in Settled(s))
    && (s.start in Nodes(s.queue) ==>
          s.queue == [(s.start, None)] && s.visited == {s.start} && s.phase.Ready?)
  }

  /** The predecessor map links exactly the settled cells other than the start. */
  ghost predicate BfsTree(m: Maze, s: BfsState)
    requires WellFormed(m)
  {
    && s.cameFrom.Keys == Settled(s) - {s.start}
    && PredecessorTree(m, s.start, s.cameFrom)
  }

  /** Every queued cell but the start was enqueued by a settled cell it is walkable from. */
  ghost predicate BfsEntries(m: Maze, s: BfsState)
    requires WellFormed(m)
  {
    forall k | 0 <= k < |s.queue| && s.queue[k].0 != s.start ::
      s.queue[k].1.Some? && s.queue[k].1.value in Settled(s) && Open(m, s.queue[k].1.value, s.queue[k].0)
  }

  /** Every walkable neighbour of an expanded cell is visited. */
  ghost predicate BfsFrontier(m: Maze, s: BfsState)
    requires WellFormed(m)
  {
    forall v, w | v in Expanded(s) && Open(m, v, w) :: w in s.visited
  }

  /**
   The breadth-first layering, with `dist` the distance of every visited
   cell: the start is at 0; each predecessor link and each queued entry goes
   one step from its parent; no walk from the start is shorter than a cell's
   distance; the queue is in non-decreasing distance and spans at most two
   consecutive distances, none below the distance of the cell just visited.
   */
  ghost predicate BfsLayers(m: Maze, s: BfsState, dist: map<nat, nat>)
    requires WellFormed(m)
  {
    && dist.Keys == s.visited
    && s.start in dist && dist[s.start] == 0
    && StepLinks(s.cameFrom, dist)
    && (forall v | v in dist :: NoShorterWalk(m, s.start, v, dist[v]))
    && QueueLayers(s.queue, dist)
    && (s.phase.Paused? ==> s.phase.node in dist && Spans(s.queue, dist, dist[s.phase.node]))
    && (s.phase.Ready? && s.queue != [] ==> s.queue[0].0 in dist && Spans(s.queue, dist, dist[s.queue[0].0]))
  }

  /**
   Every queued cell has a distance, one more than its parent's, and the
   distances do not decrease from front to back.
   */
  ghost predicate QueueLayers(queue: seq<Entry>, dist: map<nat, nat>) {
    && (forall k | 0 <= k < |queue| :: queue[k].0 in dist)
    && (forall k | 0 <= k < |queue| && queue[k].1.Some? ::
          queue[k].0 in dist && queue[k].1.value in dist && dist[queue[k].0] == dist[queue[k].1.value] + 1)
    && (forall i, j | 0 <= i < j < |queue| ::
          queue[i].0 in dist && queue[j].0 in dist && dist[queue[i].0] <= dist[queue[j].0])
  }

  /** Every queued cell is at distance `low` or `low + 1`. */
  ghost predicate Spans(queue: seq<Entry>, dist: map<nat, nat>, low: nat) {
    forall k | 0 <= k < |queue| :: queue[k].0 in dist && low <= dist[queue[k].0] <= low + 1
  }

  /** Some distance assignment layers the search. */
  ghost predicate BfsLayered(m: Maze, s: BfsState)
    requires WellFormed(m)
  {
    exists dist :: BfsLayers(m, s, dist)
  }

  /** The invariant of a running breadth-first search; the goal is never expanded. */
  ghost predicate BfsInv(m: Maze, s: BfsState) {
    && WellFormed(m)
    && BfsShape(m, s)
    && BfsTree(m, s)
    && BfsEntries(m, s)
    && BfsFrontier(m, s)
    && BfsLayered(m, s)
    && s.goal !in Expanded(s)
  }

  /** The generator starts in a state satisfying the invariant. */
  lemma BfsStartInv(m: Maze, start: nat, goal: nat)
    requires WellFormed(m) && start < |m.grid|
    ensures BfsInv(m, BfsStart(start, goal))
  {
    var s := BfsStart(start, goal);
    assert Nodes(s.queue) == {start};
    PredecessorTreeEmpty(m, start);
    StartLayers(m, s);
  }

  /** At the start only the start is visited, at distance 0, and it alone is queued. */
  lemma StartLayers(m: Maze, s: BfsState)
    requires WellFormed(m) && s.queue == [(s.start, None)] && s.visited == {s.start}
    requires s.cameFrom == map[] && s.phase.Ready?
    ensures BfsLayers(m, s, map[s.start := 0])
  {
    var dist := map[s.start := 0];
    assert QueueLayers(s.queue, dist);
    assert Spans(s.queue, dist, 0);
  }

  /** The cells of a concatenation are the cells of its parts. */
  lemma NodesConcat(a: seq<Entry>, b: seq<Entry>)
    ensures Nodes(a + b) == Nodes(a) + Nodes(b)
  {
    forall e | e in a + b ensures e in a || e in b { }
  }

  /** Taking the front of a queue of distinct cells removes exactly the front's cell. */
  lemma NodesPopFront(q: seq<Entry>)
    requires |q| > 0 && Distinct(q)
    ensures Nodes(q) == Nodes(q[1..]) + {q[0].0} && q[0].0 !in Nodes(q[1..])
  {
    assert q == [q[0]] + q[1..];
    NodesConcat([q[0]], q[1..]);
    assert Nodes([q[0]]) == {q[0].0};
    forall e | e in q[1..] ensures e.0 != q[0].0 {
      var t :| 0 <= t < |q[1..]| && q[1..][t] == e;
      assert q[t + 1] == e;
    }
  }

  /** Resuming at the loop head with a visit keeps the invariant. */
  lemma BfsResumeInv(m: Maze, s: BfsState)
    requires BfsInv(m, s) && s.phase.Ready? && s.queue != []
    ensures BfsInv(m, BfsResume(s).1)
  {
    var (n, parent) := s.queue[0];
    NodesPopFront(s.queue);
    var s' := BfsResume(s).1;
    assert Settled(s') == Settled(s) + {n};
    BfsPopTree(m, s);
    BfsPopEntries(m, s);
    var dist :| BfsLayers(m, s, dist);
    PopLayers(m, s, dist);
  }

  /** Settling the front of the queue links it to the cell that enqueued it, if any. */
  lemma BfsPopTree(m: Maze, s: BfsState)
    requires WellFormed(m) && BfsShape(m, s) && BfsTree(m, s) && BfsEntries(m, s)
    requires s.phase.Ready? && s.queue != []
    ensures BfsTree(m, BfsResume(s).1)
  {
    var (n, parent) := s.queue[0];
    NodesPopFront(s.queue);
    var s' := BfsResume(s).1;
    assert Settled(s') == Settled(s) + {n};
    if n != s.start {
      assert s.start !in Nodes(s.queue);
      assert parent.Some? && parent.value in Settled(s) && Open(m, parent.value, n);
      SettleKeepsTree(m, s.start, Settled(s), s.cameFrom, n, parent.value);
    } else {
      assert parent.None? && Settled(s) == {};
    }
  }

  /** Taking the front of the queue keeps the shape and the remaining entries. */
  lemma BfsPopEntries(m: Maze, s: BfsState)
    requires WellFormed(m) && BfsShape(m, s) && BfsEntries(m, s) && BfsFrontier(m, s)
    requires s.goal !in Expanded(s)
    requires s.phase.Ready? && s.queue != []
    ensures var s' := BfsResume(s).1;
            && BfsShape(m, s') && BfsEntries(m, s') && BfsFrontier(m, s')
            && s'.goal !in Expanded(s')
  {
    var n := s.queue[0].0;
    NodesPopFront(s.queue);
    var s' := BfsResume(s).1;
    assert Settled(s') == Settled(s) + {n};
    assert Expanded(s') == Settled(s);
    assert Distinct(s'.queue) by {
      forall i, j | 0 <= i < j < |s'.queue| ensures s'.queue[i].0 != s'.queue[j].0 {
        assert s'.queue[i] == s.queue[i + 1] && s'.queue[j] == s.queue[j + 1];
      }
    }
    forall k | 0 <= k < |s'.queue| && s'.queue[k].0 != s'.start
      ensures s'.queue[k].1.Some? && s'.queue[k].1.value in Settled(s')
    {
      assert s'.queue[k] == s.queue[k + 1];
    }
  }

  /** Expanding a settled cell other than the goal keeps the invariant. */
  lemma BfsExpandInv(m: Maze, s: BfsState, x: nat)
    requires BfsInv(m, s) && s.phase == Paused(x) && x != s.goal
    ensures BfsInv(m, BfsExpand(m, s, x))
  {
    ExpandSettled(m, s, x);
    BfsExpandShape(m, s, x);
    BfsExpandTree(m, s, x);
    BfsExpandEntries(m, s, x);
    BfsExpandFrontier(m, s, x);
    ExpandLayered(m, s, x);
  }

  /** Expanding a cell keeps the queue and the visited cells in breadth-first layers. */
  lemma ExpandLayered(m: Maze, s: BfsState, x: nat)
    requires WellFormed(m) && BfsShape(m, s) && BfsFrontier(m, s) && BfsLayered(m, s)
    requires s.phase == Paused(x) && x < |m.grid|
    ensures BfsLayered(m, BfsExpand(m, s, x))
  {
    var dist :| BfsLayers(m, s, dist);
    var dist' := ExpandLayers(m, s, x, dist);
  }

  /** What an expansion adds: distinct cells of `ns` that were not visited, both queued and marked visited. */
  lemma EnqueueAdds(queue: seq<Entry>, visited: set<nat>, ns: seq<nat>, node: nat)
    ensures var (q, v) := Enqueue(queue, visited, ns, node);
            var added := q[|queue|..];
            && q == queue + added
            && Nodes(q) == Nodes(queue) + Nodes(added)
            && Nodes(added) !! visited
            && v == visited + Nodes(added)
            && (forall w | w in Nodes(added) :: w in ns)
            && Distinct(added)
  {
    var (q, v) := Enqueue(queue, visited, ns, node);
    var added := q[|queue|..];
    assert q == q[..|queue|] + added;
    NodesConcat(queue, added);
    forall e | e in added ensures e.0 !in visited && e.0 in ns {
      var t :| 0 <= t < |added| && added[t] == e;
      assert q[|queue| + t] == e;
    }
  }

  /** Cells both marked visited and queued leave the settled cells as they were. */
  lemma SettledUnchanged(visited: set<nat>, queue: seq<Entry>, added: seq<Entry>)
    requires Nodes(added) !! visited
    ensures (visited + Nodes(added)) - (Nodes(queue) + Nodes(added)) == visited - Nodes(queue)
  {
  }

  /** Two queues of distinct cells that share no cell concatenate to one. */
  lemma DistinctConcat(a: seq<Entry>, b: seq<Entry>)
    requires Distinct(a) && Distinct(b) && Nodes(a) !! Nodes(b)
    ensures Distinct(a + b)
  {
    var q := a + b;
    forall i, j | 0 <= i < j < |q| ensures q[i].0 != q[j].0 {
      if i < |a| <= j {
        assert q[i] == a[i] && q[j] == b[j - |a|];
        assert q[i] in a && q[j] in b;
        assert q[i].0 in Nodes(a) && q[j].0 in Nodes(b);
      } else if |a| <= i {
        assert q[i] == b[i - |a|] && q[j] == b[j - |a|];
      } else {
        assert q[i] == a[i] && q[j] == a[j];
      }
    }
  }

  /** The queue after an expansion holds distinct visited cells of the maze, none of them the start. */
  lemma BfsExpandShape(m: Maze, s: BfsState, x: nat)
    requires WellFormed(m) && BfsShape(m, s) && s.phase == Paused(x) && x < |m.grid|
    ensures BfsShape(m, BfsExpand(m, s, x))
  {
    var (q, v) := Enqueue(s.queue, s.visited, Walkable(m, x), x);
    EnqueueAdds(s.queue, s.visited, Walkable(m, x), x);
    var added := q[|s.queue|..];
    DistinctConcat(s.queue, added);
    assert s.start !in Nodes(s.queue);
    assert Settled(s.(queue := q, visited := v, phase := Ready)) == Settled(s) by {
      SettledUnchanged(s.visited, s.queue, added);
    }
  }

  /** After an expansion every walkable neighbour of a settled cell, the expanded one included, is visited. */
  lemma BfsExpandFrontier(m: Maze, s: BfsState, x: nat)
    requires WellFormed(m) && BfsFrontier(m, s) && s.phase == Paused(x) && x < |m.grid|
    ensures BfsFrontier(m, BfsExpand(m, s, x))
  {
    var v := BfsExpand(m, s, x).visited;
    ExpandSettled(m, s, x);
    forall a, w | a in Settled(s) && Open(m, a, w) ensures w in v {
      if a == x {
        assert w in Walkable(m, x);
      } else {
        assert a in Expanded(s);
      }
    }
  }

  /** An expansion links no cell and leaves the settled cells as they were. */
  lemma BfsExpandTree(m: Maze, s: BfsState, x: nat)
    requires WellFormed(m) && BfsTree(m, s) && x < |m.grid|
    ensures BfsTree(m, BfsExpand(m, s, x))
  {
    ExpandSettled(m, s, x);
  }

  /** An expansion settles nothing: the cells it marks visited are all queued. */
  lemma ExpandSettled(m: Maze, s: BfsState, x: nat)
    requires WellFormed(m) && x < |m.grid|
    ensures Settled(BfsExpand(m, s, x)) == Settled(s) && Expanded(BfsExpand(m, s, x)) == Settled(s)
  {
    var added := ExpandAdded(m, s, x);
    NodesConcat(s.queue, added);
    SettledUnchanged(s.visited, s.queue, added);
  }

  /** The entries added by an expansion come from the expanded cell. */
  lemma BfsExpandEntries(m: Maze, s: BfsState, x: nat)
    requires WellFormed(m) && BfsEntries(m, s) && s.phase == Paused(x) && x in Settled(s) && x < |m.grid|
    ensures BfsEntries(m, BfsExpand(m, s, x))
  {
    var q := BfsExpand(m, s, x).queue;
    ExpandSettled(m, s, x);
    forall k | 0 <= k < |q| && q[k].0 != s.start
      ensures q[k].1.Some? && q[k].1.value in Settled(s) && Open(m, q[k].1.value, q[k].0)
    {
      if k < |s.queue| {
        assert q[k] == q[..|s.queue|][k];
      } else {
        assert q[k].0 in Walkable(m, x);
      }
    }
  }

  // ---------------------------------------------------------------------------
  // Layers
  // ---------------------------------------------------------------------------

  /** Taking the front of the queue keeps the layering with the same distances. */
  lemma PopLayers(m: Maze, s: BfsState, dist: map<nat, nat>)
    requires WellFormed(m) && BfsLayers(m, s, dist) && s.phase.Ready? && s.queue != []
    ensures BfsLayers(m, BfsResume(s).1, dist)
  {
    var (n, parent) := s.queue[0];
    var s' := BfsResume(s).1;
    if parent.Some? {
      LinkKeepsDistances(s.cameFrom, dist, n, parent.value);
    }
    forall k | 0 <= k < |s'.queue| ensures s'.queue[k] == s.queue[k + 1] { }
  }

  /**
   A cell that is not visited while `x` is being visited has no walk from the
   start shorter than one step past `x`: a walk leaves the settled cells
   either at `x` itself or through a queued cell, which is no nearer than `x`.
   */
  lemma NextLayerIsShortest(m: Maze, s: BfsState, dist: map<nat, nat>, x: nat, n: nat)
    requires WellFormed(m) && BfsShape(m, s) && BfsFrontier(m, s) && BfsLayers(m, s, dist)
    requires s.phase == Paused(x) && n !in s.visited
    ensures NoShorterWalk(m, s.start, n, dist[x] + 1)
  {
    var settled := Settled(s);
    assert s.start in settled;
    forall v, w | v in settled && v != x && Open(m, v, w)
      ensures w in settled || (w in dist && w != n && dist[x] <= dist[w] && NoShorterWalk(m, s.start, w, dist[w]))
    {
      assert v in Expanded(s);
      if w !in settled {
        assert w in Nodes(s.queue);
        var e :| e in s.queue && e.0 == w;
        var k :| 0 <= k < |s.queue| && s.queue[k] == e;
      }
    }
    forall p | IsWalk(m, p) && p[0] == s.start && p[|p| - 1] == n
      ensures |p| - 1 >= dist[x] + 1
    {
      WalkPastLayer(m, p, s.start, settled, dist, x, n);
    }
  }

  /**
   A walk from inside `settled` to a cell outside it leaves either at `x` or
   through a cell no nearer than `x`, so it is longer than `x`'s distance.
   */
  lemma WalkPastLayer(m: Maze, p: seq<nat>, start: nat, settled: set<nat>, dist: map<nat, nat>, x: nat, n: nat)
    requires WellFormed(m) && IsWalk(m, p) && p[0] == start && p[|p| - 1] == n
    requires start in settled && n !in settled
    requires x in dist && NoShorterWalk(m, start, x, dist[x])
    requires forall v, w | v in settled && v != x && Open(m, v, w) ::
               w in settled || (w in dist && w != n && dist[x] <= dist[w] && NoShorterWalk(m, start, w, dist[w]))
    ensures |p| - 1 >= dist[x] + 1
  {
    var j := ExitStep(p, settled);
    WalkPrefix(m, p, j);
    assert Open(m, p[j], p[j + 1]);
    if p[j] == x {
      WalkAtLeast(m, start, x, dist[x], p[..j + 1]);
    } else {
      var w := p[j + 1];
      WalkPrefix(m, p, j + 1);
      WalkAtLeast(m, start, w, dist[w], p[..j + 2]);
    }
  }

  /**
   Expanding `x` keeps the layering: the cells it enqueues are one step past
   `x`, at the back of the queue.
   */
  lemma ExpandLayers(m: Maze, s: BfsState, x: nat, dist: map<nat, nat>) returns (dist': map<nat, nat>)
    requires WellFormed(m) && BfsShape(m, s) && BfsFrontier(m, s) && BfsLayers(m, s, dist)
    requires s.phase == Paused(x) && x < |m.grid|
    ensures BfsLayers(m, BfsExpand(m, s, x), dist')
  {
    var added := ExpandAdded(m, s, x);
    var t := BfsExpand(m, s, x);
    dist' := map v | v in t.visited :: if v in dist then dist[v] else dist[x] + 1;
    forall v | v in dist' && v !in dist ensures NoShorterWalk(m, s.start, v, dist[x] + 1) {
      NextLayerIsShortest(m, s, dist, x, v);
    }
    ExtendLayers(m, s, t, dist, dist', x, added);
  }

  /** An expansion appends entries from `x` for cells not visited before and marks them visited. */
  lemma ExpandAdded(m: Maze, s: BfsState, x: nat) returns (added: seq<Entry>)
    requires WellFormed(m) && x < |m.grid|
    ensures BfsExpand(m, s, x)
            == BfsState(s.start, s.goal, s.queue + added, s.visited + Nodes(added), s.cameFrom, Ready)
    ensures Nodes(added) !! s.visited
    ensures forall k | 0 <= k < |added| :: added[k].1 == Some(x)
  {
    var ns := Walkable(m, x);
    EnqueueAdds(s.queue, s.visited, ns, x);
    var (q, visited) := Enqueue(s.queue, s.visited, ns, x);
    added := q[|s.queue|..];
    forall k | 0 <= k < |added| ensures added[k].1 == Some(x) {
      assert added[k] == q[|s.queue| + k];
    }
  }

  /** The layering after the cells of `added`, one step past `x`, join the queue and the visited set. */
  lemma ExtendLayers(m: Maze, s: BfsState, t: BfsState, dist: map<nat, nat>, dist': map<nat, nat>, x: nat, added: seq<Entry>)
    requires WellFormed(m) && BfsLayers(m, s, dist) && s.phase == Paused(x)
    requires t == BfsState(s.start, s.goal, s.queue + added, s.visited + Nodes(added), s.cameFrom, Ready)
    requires Nodes(added) !! s.visited
    requires dist' == map v | v in t.visited :: if v in dist then dist[v] else dist[x] + 1
    requires forall v | v in dist' && v !in dist :: NoShorterWalk(m, s.start, v, dist[x] + 1)
    requires forall k | 0 <= k < |added| :: added[k].1 == Some(x)
    ensures BfsLayers(m, t, dist')
  {
    forall k | 0 <= k < |added| ensures added[k].0 in dist' && dist'[added[k].0] == dist[x] + 1 {
      assert added[k] in added;
    }
    AppendLayer(s.queue, added, dist, dist', x);
  }

  /**
   Appending entries from `x`, one step past it, behind a queue spanning
   `x`'s distance and the next keeps the queue layered and spanning two
   consecutive distances from its front.
   */
  lemma AppendLayer(q: seq<Entry>, added: seq<Entry>, dist: map<nat, nat>, dist': map<nat, nat>, x: nat)
    requires x in dist && QueueLayers(q, dist) && Spans(q, dist, dist[x])
    requires forall v | v in dist :: v in dist' && dist'[v] == dist[v]
    requires forall k | 0 <= k < |added| ::
               added[k].1 == Some(x) && added[k].0 in dist' && dist'[added[k].0] == dist[x] + 1
    ensures QueueLayers(q + added, dist')
    ensures q + added != [] ==> (q + added)[0].0 in dist' && Spans(q + added, dist', dist'[(q + added)[0].0])
  {
    var r := q + added;
    assert forall k | 0 <= k < |q| :: r[k] == q[k];
    assert forall k | |q| <= k < |r| :: r[k] == added[k - |q|];
    assert forall k | 0 <= k < |r| :: r[k].0 in dist' && dist[x] <= dist'[r[k].0] <= dist[x] + 1;
  }

  /**
   When the queue is empty at the loop head, the visited cells form a closed
   set holding the start but not the goal, so no walk leads from start to goal.
   */
  lemma BfsNotFound(m: Maze, s: BfsState)
    requires BfsInv(m, s) && s.phase.Ready? && s.queue == []
    ensures !Reachable(m, s.start, s.goal)
  {
    assert Nodes(s.queue) == {};
    assert Expanded(s) == s.visited;
    ExhaustedMeansUnreachable(m, s.visited, s.start, s.goal);
  }

  // ---------------------------------------------------------------------------
  // Properties of whole steps
  // ---------------------------------------------------------------------------

  /** Every step keeps the invariant until the search has finished. */
  lemma BfsNextInv(m: Maze, s: BfsState)
    requires BfsInv(m, s)
    ensures var r := BfsNext(m, s);
            r.1.phase.Done? || BfsInv(m, r.1)
  {
    match s.phase
    case Done =>
    case Ready =>
      if s.queue != [] {
        BfsResumeInv(m, s);
      }
    case Paused(x) =>
      if x != s.goal {
        BfsExpandInv(m, s, x);
        var s' := BfsExpand(m, s, x);
        if s'.queue != [] {
          BfsResumeInv(m, s');
        }
      }
  }

  /**
   A `Visit` settles a cell that had not been settled: it leaves the queue,
   and the visited set it reports is the settled cells with the queued ones.
   */
  lemma BfsSettlesOnce(m: Maze, s: BfsState)
    requires BfsInv(m, s)
    ensures var r := BfsNext(m, s);
            r.0.Visit? ==>
              && r.0.node !in Settled(s)
              && Settled(r.1) == Settled(s) + {r.0.node}
              && r.0.visited == Settled(r.1) + Nodes(r.1.queue)
  {
    match s.phase
    case Done =>
    case Ready => BfsResumeSettles(s);
    case Paused(x) =>
      if x != s.goal {
        var s' := BfsExpand(m, s, x);
        BfsExpandInv(m, s, x);
        BfsExpandKeepsSettled(m, s, x);
        BfsResumeSettles(s');
      }
  }

  /** Taking the front of the queue settles exactly the front's cell, which was not settled. */
  lemma BfsResumeSettles(s: BfsState)
    requires Distinct(s.queue) && Nodes(s.queue) <= s.visited
    ensures var r := BfsResume(s);
            r.0.Visit? ==>
              && r.0.node !in Settled(s)
              && Settled(r.1) == Settled(s) + {r.0.node}
              && r.0.visited == Settled(r.1) + Nodes(r.1.queue)
  {
    if s.queue != [] {
      NodesPopFront(s.queue);
    }
  }

  /** An expansion leaves the settled cells unchanged. */
  lemma BfsExpandKeepsSettled(m: Maze, s: BfsState, x: nat)
    requires WellFormed(m) && x < |m.grid|
    ensures Settled(BfsExpand(m, s, x)) == Settled(s)
  {
    EnqueueAdds(s.queue, s.visited, Walkable(m, x), x);
    var s' := BfsExpand(m, s, x);
    SettledUnchanged(s.visited, s.queue, s'.queue[|s.queue|..]);
  }

  /**
   A reported path leads from the start to the goal: preceded by the start
   it is a walk ending at the goal, and it is empty exactly when the start
   is the goal. It is a shortest route: no walk from the start to the goal
   takes fewer steps than the path has cells.
   */
  lemma BfsFoundPath(m: Maze, s: BfsState)
    requires BfsInv(m, s) && BfsNext(m, s).0.Found?
    ensures var p := BfsNext(m, s).0.path;
            && s.start !in p
            && (s.goal == s.start <==> p == [])
            && (s.goal != s.start ==> |p| > 0 && IsWalk(m, [s.start] + p) && p[|p| - 1] == s.goal)
            && NoShorterWalk(m, s.start, s.goal, |p|)
  {
    FoundPathIsWalk(m, s.start, s.goal, s.cameFrom);
    SettledPathIsShortest(m, s, s.goal);
  }

  /**
   A settled cell's reconstructed path is a shortest route to it: preceded by
   the start it is a walk ending at the cell, and no walk from the start
   takes fewer steps than the path has cells.
   */
  lemma SettledPathIsShortest(m: Maze, s: BfsState, n: nat)
    requires BfsInv(m, s) && n in Settled(s)
    ensures var p := ReconstructPath(s.cameFrom, n);
            && NoShorterWalk(m, s.start, n, |p|)
            && (n != s.start ==> |p| > 0 && IsWalk(m, [s.start] + p) && p[|p| - 1] == n)
  {
    FoundPathIsWalk(m, s.start, n, s.cameFrom);
    var dist :| BfsLayers(m, s, dist);
    PathLengthIsDistance(m, s.start, n, s.cameFrom, dist);
  }

  /** Each visited cell is reached along a shortest route: its reconstructed path at the visit. */
  lemma BfsVisitIsShortest(m: Maze, s: BfsState)
    requires BfsInv(m, s) && BfsNext(m, s).0.Visit?
    ensures var r := BfsNext(m, s);
            var n := r.0.node;
            var p := ReconstructPath(r.1.cameFrom, n);
            && NoShorterWalk(m, s.start, n, |p|)
            && (n != s.start ==> |p| > 0 && IsWalk(m, [s.start] + p) && p[|p| - 1] == n)
  {
    BfsNextInv(m, s);
    var r := BfsNext(m, s);
    assert r.1.start == s.start && r.1.phase == Paused(r.0.node);
    SettledPathIsShortest(m, r.1, r.0.node);
  }

  /** `NotFound` is reported only when no walk leads from the start to the goal. */
  lemma BfsNotFoundUnreachable(m: Maze, s: BfsState)
    requires BfsInv(m, s) && BfsNext(m, s).0.NotFound?
    ensures !Reachable(m, s.start, s.goal)
  {
    match s.phase
    case Ready => BfsNotFound(m, s);
    case Paused(x) =>
      BfsExpandInv(m, s, x);
      BfsNotFound(m, BfsExpand(m, s, x));
  }

  /**
   Resuming at the loop head writes at most one predecessor: the one of the
   cell it settles, which was not linked before, to a settled cell it is
   walkable from.
   */
  lemma BfsResumeWriteOnce(m: Maze, s: BfsState)
    requires WellFormed(m) && BfsShape(m, s) && BfsTree(m, s) && BfsEntries(m, s) && s.phase.Ready?
    ensures var r := BfsResume(s);
            && (forall k | k in s.cameFrom :: k in r.1.cameFrom && r.1.cameFrom[k] == s.cameFrom[k])
            && (forall k | k in r.1.cameFrom && k !in s.cameFrom ::
                  r.0.Visit? && k == r.0.node && r.1.cameFrom[k] in Settled(s)
                  && Open(m, r.1.cameFrom[k], k))
  {
    if s.queue != [] {
      assert s.queue[0].0 in Nodes(s.queue);
    }
  }

  /**
   Predecessors are written once: an existing entry never changes, and the
   only new entry is the cell a `Visit` settles, linked to a settled cell it
   is walkable from.
   */
  lemma BfsCameFromWriteOnce(m: Maze, s: BfsState)
    requires BfsInv(m, s)
    ensures var r := BfsNext(m, s);
            && (forall k | k in s.cameFrom :: k in r.1.cameFrom && r.1.cameFrom[k] == s.cameFrom[k])
            && (forall k | k in r.1.cameFrom && k !in s.cameFrom ::
                  r.0.Visit? && k == r.0.node && r.1.cameFrom[k] in Settled(s)
                  && Open(m, r.1.cameFrom[k], k))
  {
    match s.phase
    case Done =>
    case Ready => BfsResumeWriteOnce(m, s);
    case Paused(x) =>
      if x != s.goal {
        BfsExpandInv(m, s, x);
        BfsExpandKeepsSettled(m, s, x);
        BfsResumeWriteOnce(m, BfsExpand(m, s, x));
      }
  }

  /** A running search has visited no more cells than the maze holds. */
  lemma BfsVisitsBounded(m: Maze, s: BfsState)
    requires BfsInv(m, s)
    ensures |Settled(s)| <= |s.visited| <= |m.grid|
  {
    IndicesBound(s.visited, |m.grid|);
    SubsetCardinality(Settled(s), s.visited);
  }
}
