/**
 A* search (`a_star_generator`) over unit-length passages, ordered by
 `g + h` where `g` is the best known walk length from the start and `h` the
 Manhattan distance to the goal. Cells popped again after they were closed
 are skipped; a cheaper route to a cell overwrites its predecessor.
 */
module AStar {
  import opened Wrappers
  import opened Grid
  import opened Graph
  import opened Paths
  import opened Search
  import opened Heap
  import opened Heuristic

  // ---------------------------------------------------------------------------
  // Relaxation
  // ---------------------------------------------------------------------------

  /**
   What the relaxation loop over `ns` from `x` with tentative score `tg`
   leaves behind in `r = (g', cameFrom', heap')`: scores only fall; a cell
   whose score changes gets score `tg`, predecessor `x` and one new entry
   `(tg + h, cell, x)`; predecessors change only where scores do; every cell
   of `ns` ends with a score of at most `tg`.
   */
  ghost predicate RelaxedBy(m: Maze, goal: nat, g: map<nat, nat>, cameFrom: map<nat, nat>, heap: seq<Item>,
                            ns: seq<nat>, tg: nat, x: nat, r: (map<nat, nat>, map<nat, nat>, seq<Item>))
    requires WellFormed(m) && goal < |m.grid| && forall t | 0 <= t < |ns| :: ns[t] < |m.grid|
  {
    && RelaxedHeap(m, goal, g, heap, ns, tg, x, r)
    && RelaxedScores(g, ns, tg, r.0)
    && RelaxedChanges(m, goal, g, heap, ns, tg, x, r)
    && RelaxedLinks(g, cameFrom, x, r.0, r.1)
  }

  /** The old entries stay in front; each new entry is for a distinct cell of `ns` that got score `tg`. */
  ghost predicate RelaxedHeap(m: Maze, goal: nat, g: map<nat, nat>, heap: seq<Item>,
                              ns: seq<nat>, tg: nat, x: nat, r: (map<nat, nat>, map<nat, nat>, seq<Item>))
    requires WellFormed(m) && goal < |m.grid| && forall t | 0 <= t < |ns| :: ns[t] < |m.grid|
  {
    var (g', _, heap') := r;
    && heap <= heap'
    && (forall k | |heap| <= k < |heap'| ::
          && heap'[k].1 in ns && heap'[k].2 == Some(x)
          && heap'[k].1 in g' && g'[heap'[k].1] == tg
          && heap'[k].0 == tg + Manhattan(m, heap'[k].1, goal)
          && (heap'[k].1 in g ==> tg < g[heap'[k].1]))
    && (forall i, j | |heap| <= i < j < |heap'| :: heap'[i].1 != heap'[j].1)
  }

  /** Scores only fall, new ones are for cells of `ns`, and every cell of `ns` ends at most at `tg`. */
  ghost predicate RelaxedScores(g: map<nat, nat>, ns: seq<nat>, tg: nat, g': map<nat, nat>) {
    && (forall n | n in ns :: n in g' && g'[n] <= tg)
    && (forall n | n in g' :: n in g || n in ns)
    && (forall n | n in g :: n in g' && g'[n] <= g[n])
  }

  /** A changed score is `tg`, below the old one, for a cell of `ns` that got a new entry. */
  ghost predicate RelaxedChanges(m: Maze, goal: nat, g: map<nat, nat>, heap: seq<Item>,
                                 ns: seq<nat>, tg: nat, x: nat, r: (map<nat, nat>, map<nat, nat>, seq<Item>))
    requires WellFormed(m) && goal < |m.grid| && forall t | 0 <= t < |ns| :: ns[t] < |m.grid|
  {
    var (g', _, heap') := r;
    && |heap| <= |heap'|
    && forall n | n in g' && (n !in g || g'[n] != g[n]) ::
         && n in ns && g'[n] == tg && (n in g ==> tg < g[n])
         && (tg + Manhattan(m, n, goal), n, Some(x)) in heap'
  }

  /** A cell whose score changed has predecessor `x`; predecessors change only where scores do. */
  ghost predicate RelaxedLinks(g: map<nat, nat>, cameFrom: map<nat, nat>, x: nat,
                               g': map<nat, nat>, cameFrom': map<nat, nat>) {
    && (forall n | n in g' && (n !in g || g'[n] != g[n]) :: n in cameFrom' && cameFrom'[n] == x)
    && (forall k | k in cameFrom :: k in cameFrom')
    && (forall k | k in cameFrom' && (k !in cameFrom || cameFrom'[k] != cameFrom[k]) ::
          k in g' && (k !in g || g'[k] != g[k]))
  }

  /**
   The relaxation loop over the walkable neighbours `ns` of `x`: a closed
   cell is skipped unless `tg` beats its score; a cell without a score or
   with a larger one gets score `tg`, predecessor `x` and a heap entry keyed
   by `tg` plus its distance to the goal.
   */
  function Relax(m: Maze, goal: nat, g: map<nat, nat>, cameFrom: map<nat, nat>, heap: seq<Item>,
                 closed: set<nat>, ns: seq<nat>, tg: nat, x: nat): (r: (map<nat, nat>, map<nat, nat>, seq<Item>))
    requires WellFormed(m) && goal < |m.grid| && forall t | 0 <= t < |ns| :: ns[t] < |m.grid|
    ensures RelaxedBy(m, goal, g, cameFrom, heap, ns, tg, x, r)
    decreases |ns|
  {
    if ns == [] then
      (g, cameFrom, heap)
    else
      var n := ns[0];
      if n in closed && n in g && tg >= g[n] then
        var r := Relax(m, goal, g, cameFrom, heap, closed, ns[1..], tg, x);
        RelaxSkip(m, goal, g, cameFrom, heap, ns, tg, x, r);
        r
      else if n !in g || tg < g[n] then
        var r := Relax(m, goal, g[n := tg], cameFrom[n := x], heap + [(tg + Manhattan(m, n, goal), n, Some(x))],
                       closed, ns[1..], tg, x);
        RelaxPush(m, goal, g, cameFrom, heap, ns, tg, x, r);
        r
      else
        var r := Relax(m, goal, g, cameFrom, heap, closed, ns[1..], tg, x);
        RelaxSkip(m, goal, g, cameFrom, heap, ns, tg, x, r);
        r
  }

  /** A neighbour whose score is no larger than `tg` leaves the rest of the loop's effect unchanged. */
  lemma RelaxSkip(m: Maze, goal: nat, g: map<nat, nat>, cameFrom: map<nat, nat>, heap: seq<Item>,
                  ns: seq<nat>, tg: nat, x: nat, r: (map<nat, nat>, map<nat, nat>, seq<Item>))
    requires WellFormed(m) && goal < |m.grid| && forall t | 0 <= t < |ns| :: ns[t] < |m.grid|
    requires |ns| > 0 && ns[0] in g && g[ns[0]] <= tg
    requires RelaxedBy(m, goal, g, cameFrom, heap, ns[1..], tg, x, r)
    ensures RelaxedBy(m, goal, g, cameFrom, heap, ns, tg, x, r)
  {
    assert forall w | w in ns :: w == ns[0] || w in ns[1..];
  }

  /** A neighbour that gets score `tg` followed by the rest of the loop. */
  lemma RelaxPush(m: Maze, goal: nat, g: map<nat, nat>, cameFrom: map<nat, nat>, heap: seq<Item>,
                  ns: seq<nat>, tg: nat, x: nat, r: (map<nat, nat>, map<nat, nat>, seq<Item>))
    requires WellFormed(m) && goal < |m.grid| && forall t | 0 <= t < |ns| :: ns[t] < |m.grid|
    requires |ns| > 0 && (ns[0] !in g || tg < g[ns[0]])
    requires var n := ns[0];
             RelaxedBy(m, goal, g[n := tg], cameFrom[n := x], heap + [(tg + Manhattan(m, n, goal), n, Some(x))],
                       ns[1..], tg, x, r)
    ensures RelaxedBy(m, goal, g, cameFrom, heap, ns, tg, x, r)
  {
    var n := ns[0];
    var heap' := heap + [(tg + Manhattan(m, n, goal), n, Some(x))];
    assert n in r.0 && r.0[n] == tg && n in r.1 && r.1[n] == x;
    RelaxPushScores(g, ns, tg, r.0);
    RelaxPushHeap(m, goal, g, heap, ns, tg, x, r);
    RelaxPushChanges(m, goal, g, heap, ns, tg, x, r);
    RelaxPushLinks(g, cameFrom, n, tg, x, r.0, r.1);
  }

  /** Scores after the first neighbour got `tg` and the rest of the loop ran. */
  lemma RelaxPushScores(g: map<nat, nat>, ns: seq<nat>, tg: nat, g': map<nat, nat>)
    requires |ns| > 0 && (ns[0] !in g || tg < g[ns[0]])
    requires RelaxedScores(g[ns[0] := tg], ns[1..], tg, g') && ns[0] in g' && g'[ns[0]] == tg
    ensures RelaxedScores(g, ns, tg, g')
  {
    assert forall w | w in ns :: w == ns[0] || w in ns[1..];
  }

  /** The entry pushed for the first neighbour comes right after the old entries. */
  lemma RelaxPushHeap(m: Maze, goal: nat, g: map<nat, nat>, heap: seq<Item>,
                      ns: seq<nat>, tg: nat, x: nat, r: (map<nat, nat>, map<nat, nat>, seq<Item>))
    requires WellFormed(m) && goal < |m.grid| && forall t | 0 <= t < |ns| :: ns[t] < |m.grid|
    requires |ns| > 0 && (ns[0] !in g || tg < g[ns[0]])
    requires var n := ns[0];
             RelaxedHeap(m, goal, g[n := tg], heap + [(tg + Manhattan(m, n, goal), n, Some(x))], ns[1..], tg, x, r)
    requires ns[0] in r.0 && r.0[ns[0]] == tg
    ensures RelaxedHeap(m, goal, g, heap, ns, tg, x, r)
  {
    var n := ns[0];
    var e := (tg + Manhattan(m, n, goal), n, Some(x));
    var heap' := heap + [e];
    var (g', _, h') := r;
    assert h'[|heap|] == heap'[|heap|];
    forall i, j | |heap| <= i < j < |h'| ensures h'[i].1 != h'[j].1 {
      if i == |heap| {
        assert h'[j].1 in g[n := tg] ==> tg < g[n := tg][h'[j].1];
      }
    }
  }

  /** The first neighbour's score change is recorded with its entry, together with the rest of the loop's. */
  lemma RelaxPushChanges(m: Maze, goal: nat, g: map<nat, nat>, heap: seq<Item>,
                         ns: seq<nat>, tg: nat, x: nat, r: (map<nat, nat>, map<nat, nat>, seq<Item>))
    requires WellFormed(m) && goal < |m.grid| && forall t | 0 <= t < |ns| :: ns[t] < |m.grid|
    requires |ns| > 0 && (ns[0] !in g || tg < g[ns[0]])
    requires var n := ns[0];
             var heap' := heap + [(tg + Manhattan(m, n, goal), n, Some(x))];
             && RelaxedChanges(m, goal, g[n := tg], heap', ns[1..], tg, x, r)
             && heap' <= r.2
    requires ns[0] in r.0 && r.0[ns[0]] == tg
    ensures RelaxedChanges(m, goal, g, heap, ns, tg, x, r)
  {
    var n := ns[0];
    var e := (tg + Manhattan(m, n, goal), n, Some(x));
    var heap' := heap + [e];
    var (g', cameFrom', h') := r;
    assert forall w | w in ns[1..] :: w in ns;
    assert h'[|heap|] == heap'[|heap|];
  }

  /** The first neighbour's predecessor is `x`, together with the rest of the loop's links. */
  lemma RelaxPushLinks(g: map<nat, nat>, cameFrom: map<nat, nat>, n: nat, tg: nat, x: nat,
                       g': map<nat, nat>, cameFrom': map<nat, nat>)
    requires RelaxedLinks(g[n := tg], cameFrom[n := x], x, g', cameFrom')
    requires n in g' && g'[n] == tg && n in cameFrom' && cameFrom'[n] == x
    requires n !in g || tg < g[n]
    ensures RelaxedLinks(g, cameFrom, x, g', cameFrom')
  {
  }

  // ---------------------------------------------------------------------------
  // The generator
  // ---------------------------------------------------------------------------

  /**
   The generator's local variables between two events. `g` holds the known
   scores (a cell without one has score infinity); `fscore` and `open_set`
   are written but never read by the source and are not kept.
   */
  datatype AStarState = AStarState(
    start: nat,
    goal: nat,
    g: map<nat, nat>,
    cameFrom: map<nat, nat>,
    heap: seq<Item>,
    closed: set<nat>,
    phase: Phase)

  /** The generator before its first event: the start, with score 0, is the only entry. */
  function AStarStart(m: Maze, start: nat, goal: nat): AStarState
    requires WellFormed(m) && start < |m.grid| && goal < |m.grid|
  {
    AStarState(start, goal, map[start := 0], map[], [(Manhattan(m, start, goal), start, None)], {}, Ready)
  }

  /**
   Runs the main loop from its head: pops the least entry, skipping those of
   closed cells, closes its cell, records the entry's parent as predecessor
   and reports the visit, or reports `NotFound` once the heap is empty.
   */
  function AStarResume(s: AStarState): (r: (Event, AStarState))
    ensures r.0.Visit? || r.0.NotFound?
    ensures r.0.Visit? ==> r.0.node !in s.closed && r.1.closed == s.closed + {r.0.node}
    ensures r.0.Visit? ==> r.1.phase == Paused(r.0.node) && r.0.visited == r.1.closed
                           && r.0.cameFrom == r.1.cameFrom
    ensures r.0.NotFound? ==> r.1.phase == Done && r.1.closed == s.closed
    ensures r.0.NotFound? <==> forall e | e in s.heap :: e.1 in s.closed
    ensures r.1.g == s.g && r.1.start == s.start && r.1.goal == s.goal
    decreases |s.heap|
  {
    if s.heap == [] then (NotFound, s.(phase := Done))
    else
      var i := MinIndex(s.heap);
      var (f, n, parent) := s.heap[i];
      var heap := Remove(s.heap, i);
      if n in s.closed then AStarResume(s.(heap := heap))
      else
        var closed := s.closed + {n};
        var cameFrom := if parent.Some? then s.cameFrom[n := parent.value] else s.cameFrom;
        (Visit(n, closed, cameFrom),
         s.(heap := heap, closed := closed, cameFrom := cameFrom, phase := Paused(n)))
  }

  /**
   The visited cell comes out of the heap through an entry `e` that no entry
   of a cell still open precedes.
   */
  lemma {:induction false} ResumePopsLeast(s: AStarState) returns (e: Item)
    ensures AStarResume(s).0.Visit? ==>
              && e in s.heap && e.1 == AStarResume(s).0.node
              && forall f | f in s.heap && f.1 !in s.closed :: Precedes(e, f)
    decreases |s.heap|
  {
    if s.heap == [] {
      e := (0, 0, None);
    } else {
      var i := MinIndex(s.heap);
      if s.heap[i].1 in s.closed {
        e := ResumePopsLeast(s.(heap := Remove(s.heap, i)));
      } else {
        e := s.heap[i];
      }
    }
  }

  /** The scores, predecessors and heap after relaxing the neighbours of `x`. */
  function ExpandResult(m: Maze, s: AStarState, x: nat): (r: (map<nat, nat>, map<nat, nat>, seq<Item>))
    requires WellFormed(m) && x < |m.grid| && x in s.g && s.goal < |m.grid|
    ensures RelaxedBy(m, s.goal, s.g, s.cameFrom, s.heap, Walkable(m, x), s.g[x] + 1, x, r)
  {
    Relax(m, s.goal, s.g, s.cameFrom, s.heap, s.closed, Walkable(m, x), s.g[x] + 1, x)
  }

  /** Resumes after the visit of `x`: relaxes its walkable neighbours in direction order with score `g[x] + 1`. */
  function AStarExpand(m: Maze, s: AStarState, x: nat): AStarState
    requires WellFormed(m) && x < |m.grid| && x in s.g && s.goal < |m.grid|
  {
    Relaxed(s, ExpandResult(m, s, x))
  }

  /** The state back at the loop head once a relaxation left `r = (g, cameFrom, heap)` behind. */
  function Relaxed(s: AStarState, r: (map<nat, nat>, map<nat, nat>, seq<Item>)): AStarState {
    s.(g := r.0, cameFrom := r.1, heap := r.2, phase := Ready)
  }

  /** The cells the generator reads from the grid are cells of the maze, and the visited cell has a score. */
  ghost predicate InRange(m: Maze, s: AStarState) {
    && s.goal < |m.grid|
    && (s.phase.Paused? ==> s.phase.node < |m.grid| && s.phase.node in s.g)
  }

  /**
   One `next()` of the generator: the event it yields and the state it is
   suspended in afterwards. A visit never reports a cell that was already
   closed.
   */
  function AStarNext(m: Maze, s: AStarState): (r: (Event, AStarState))
    requires WellFormed(m) && InRange(m, s)
    ensures r.0.Stop? <==> s.phase.Done?
    ensures !r.0.Visit? ==> r.1.phase.Done?
    ensures r.0.Visit? ==> r.0.node !in s.closed && r.1.closed == s.closed + {r.0.node}
    ensures s.closed <= r.1.closed
    ensures r.0.Found? ==> s.phase == Paused(s.goal)
    ensures s.phase == Paused(s.goal) ==> r.0 == Found(ReconstructPath(s.cameFrom, s.goal)) && r.1.phase.Done?
  {
    match s.phase
    case Done => (Stop, s)
    case Ready => AStarResume(s)
    case Paused(x) =>
      if x == s.goal then (Found(ReconstructPath(s.cameFrom, s.goal)), s.(phase := Done))
      else AStarResume(AStarExpand(m, s, x))
  }

  // ---------------------------------------------------------------------------
  // The invariant
  // ---------------------------------------------------------------------------

  /** The closed cells whose neighbours have been relaxed. */
  function Expanded(s: AStarState): set<nat> {
    if s.phase.Paused? then s.closed - {s.phase.node} else s.closed
  }

  /**
   Cells are cells of the maze; closed cells have a score; the start has
   score 0; before the first pop only the start's entry exists.
   */
  ghost predicate AStarShape(m: Maze, s: AStarState)
    requires WellFormed(m)
  {
    && s.start < |m.grid| && s.goal < |m.grid|
    && (forall v | v in s.g :: v < |m.grid|)
    && s.start in s.g && s.g[s.start] == 0
    && s.closed <= s.g.Keys
    && (s.phase.Paused? ==> s.phase.node in s.closed)
    && (s.closed == {} ==> s.heap == [(Manhattan(m, s.start, s.goal), s.start, None)] && s.phase.Ready?)
    && (s.closed != {} ==> s.start in s.closed)
  }

  /**
   The predecessor map links every closed cell but the start, and possibly
   open cells, to closed cells they are walkable from, with a smaller score.
   */
  ghost predicate AStarTree(m: Maze, s: AStarState)
    requires WellFormed(m)
  {
    TreeOver(m, s.start, s.closed, s.g, s.cameFrom)
  }

  /** The tree conditions on the closed cells, scores and predecessor map. */
  ghost predicate TreeOver(m: Maze, start: nat, closed: set<nat>, g: map<nat, nat>, cameFrom: map<nat, nat>)
    requires WellFormed(m)
  {
    && start !in cameFrom
    && cameFrom.Keys <= g.Keys
    && closed - {start} <= cameFrom.Keys
    && LinksOpen(m, cameFrom)
    && (forall k | k in cameFrom :: cameFrom[k] in closed)
    && Ranked(cameFrom, g)
  }

  /**
   Every entry's key is at least its cell's score plus its distance to the
   goal; the first entry has no parent; any other was pushed from a closed
   cell it is walkable from, whose score plus one plus the distance is at
   most the key.
   */
  ghost predicate AStarEntries(m: Maze, s: AStarState)
    requires WellFormed(m)
  {
    EntriesOver(m, s.start, s.goal, s.closed, s.g, s.heap)
  }

  /** The entry conditions on the closed cells, scores and heap. */
  ghost predicate EntriesOver(m: Maze, start: nat, goal: nat, closed: set<nat>, g: map<nat, nat>, heap: seq<Item>)
    requires WellFormed(m)
  {
    && goal < |m.grid|
    && forall e | e in heap ::
         && e.1 < |m.grid| && e.1 in g && g[e.1] + Manhattan(m, e.1, goal) <= e.0
         && (e.2.None? ==> e.1 == start && closed == {})
         && (e.2.Some? ==> e.2.value in closed && e.2.value in g && Open(m, e.2.value, e.1)
                           && g[e.2.value] + 1 + Manhattan(m, e.1, goal) <= e.0)
  }

  /** Every scored cell that is not closed has an entry keyed by its score plus its distance to the goal. */
  ghost predicate AStarPending(m: Maze, s: AStarState)
    requires WellFormed(m)
  {
    PendingOver(m, s.goal, s.closed, s.g, s.heap)
  }

  /** The pending condition on the closed cells, scores and heap. */
  ghost predicate PendingOver(m: Maze, goal: nat, closed: set<nat>, g: map<nat, nat>, heap: seq<Item>)
    requires WellFormed(m)
  {
    forall n | n in g && n !in closed && n < |m.grid| && goal < |m.grid| ::
      HasEntry(heap, g[n] + Manhattan(m, n, goal), n)
  }

  /** Every walkable neighbour of an expanded cell has a score at most one more. */
  ghost predicate AStarFrontier(m: Maze, s: AStarState)
    requires WellFormed(m)
  {
    FrontierOver(m, Expanded(s), s.g)
  }

  /** A closed cell's score is the length of a shortest walk from the start. */
  ghost predicate AStarSettled(m: Maze, s: AStarState)
    requires WellFormed(m)
  {
    forall v | v in s.closed :: v in s.g && NoShorterWalk(m, s.start, v, s.g[v])
  }

  /** The invariant of a running A* search; the goal is never expanded. */
  ghost predicate AStarInv(m: Maze, s: AStarState) {
    && WellFormed(m)
    && AStarShape(m, s)
    && AStarTree(m, s)
    && AStarEntries(m, s)
    && EntriesUnique(s.heap)
    && AStarPending(m, s)
    && AStarFrontier(m, s)
    && AStarSettled(m, s)
    && s.goal !in Expanded(s)
  }

  /** The generator starts in a state satisfying the invariant. */
  lemma AStarStartInv(m: Maze, start: nat, goal: nat)
    requires WellFormed(m) && start < |m.grid| && goal < |m.grid|
    ensures AStarInv(m, AStarStart(m, start, goal))
  {
    var s := AStarStart(m, start, goal);
    assert Ranked(s.cameFrom, s.g);
    assert HasEntry(s.heap, s.g[start] + Manhattan(m, start, goal), start) by {
      assert s.heap[0] in s.heap;
    }
  }

  /** The invariant keeps the tree shape every path lemma needs. */
  lemma AStarTreeIsPredecessorTree(m: Maze, s: AStarState)
    requires WellFormed(m) && AStarTree(m, s)
    ensures PredecessorTree(m, s.start, s.cameFrom)
  {
    assert Rooted(s.start, s.cameFrom);
    assert Ranked(s.cameFrom, s.g);
  }

  /** Along a chain of links from the start whose scores rise, the `j`-th cell has score at least `j + 1`. */
  lemma {:induction false} ScoresAlongChain(cameFrom: map<nat, nat>, g: map<nat, nat>, start: nat,
                                            p: seq<nat>, j: nat)
    requires Ranked(cameFrom, g) && start in g
    requires forall t | 0 <= t < |p| :: p[t] in cameFrom
    requires forall t | 0 <= t < |p| - 1 :: cameFrom[p[t + 1]] == p[t]
    requires j < |p| && cameFrom[p[0]] == start
    ensures p[j] in g && g[p[j]] >= j + 1
  {
    if j > 0 {
      ScoresAlongChain(cameFrom, g, start, p, j - 1);
    }
  }

  /** The reconstructed path to a linked cell has at most as many steps as the cell's score. */
  lemma PathWithinScore(m: Maze, s: AStarState, v: nat)
    requires WellFormed(m) && AStarShape(m, s) && AStarTree(m, s)
    requires v == s.start || v in s.cameFrom
    ensures v in s.g && |ReconstructPath(s.cameFrom, v)| <= s.g[v]
  {
    AStarTreeIsPredecessorTree(m, s);
    ChainEndsAtStart(m, s.start, v, s.cameFrom);
    var p := ReconstructPath(s.cameFrom, v);
    if v != s.start {
      ScoresAlongChain(s.cameFrom, s.g, s.start, p, |p| - 1);
    }
  }

  /** Every closed cell is reached from the start by a walk no longer than its score. */
  lemma ClosedWalk(m: Maze, s: AStarState, v: nat) returns (w: seq<nat>)
    requires WellFormed(m) && AStarShape(m, s) && AStarTree(m, s) && v in s.closed
    ensures IsWalk(m, w) && w[0] == s.start && w[|w| - 1] == v && |w| - 1 <= s.g[v]
  {
    if v == s.start {
      w := [s.start];
    } else {
      AStarTreeIsPredecessorTree(m, s);
      FoundPathIsWalk(m, s.start, v, s.cameFrom);
      PathWithinScore(m, s, v);
      w := [s.start] + ReconstructPath(s.cameFrom, v);
    }
  }

  // ---------------------------------------------------------------------------
  // Popping
  // ---------------------------------------------------------------------------

  /** The state after popping the least entry, whose cell is already closed, and skipping it. */
  function Skip(s: AStarState): AStarState
    requires s.heap != []
  {
    s.(heap := Remove(s.heap, MinIndex(s.heap)))
  }

  /** Skipping an entry of a closed cell keeps the invariant. */
  lemma AStarSkipInv(m: Maze, s: AStarState)
    requires AStarInv(m, s) && s.phase.Ready? && s.heap != []
    requires s.heap[MinIndex(s.heap)].1 in s.closed
    ensures AStarInv(m, Skip(s))
  {
    var i := MinIndex(s.heap);
    var s' := Skip(s);
    UniqueRemove(s.heap, i);
    assert AStarPending(m, s') by {
      forall n | n in s'.g && n !in s'.closed && n < |m.grid| && s'.goal < |m.grid|
        ensures HasEntry(s'.heap, s'.g[n] + Manhattan(m, n, s'.goal), n)
      {
        var e :| e in s.heap && e.0 == s.g[n] + Manhattan(m, n, s.goal) && e.1 == n;
        assert e in s'.heap;
      }
    }
  }

  /** The state after popping the least entry, whose cell is not closed, and closing that cell. */
  function Settle(s: AStarState): AStarState
    requires s.heap != []
  {
    var i := MinIndex(s.heap);
    var (f, n, parent) := s.heap[i];
    var cameFrom := if parent.Some? then s.cameFrom[n := parent.value] else s.cameFrom;
    s.(heap := Remove(s.heap, i), closed := s.closed + {n}, cameFrom := cameFrom, phase := Paused(n))
  }

  /** An open cell comes out of the heap keyed by exactly its score plus its distance to the goal. */
  lemma PoppedAtEstimate(m: Maze, s: AStarState)
    requires WellFormed(m) && AStarShape(m, s) && AStarEntries(m, s) && AStarPending(m, s) && s.heap != []
    requires s.heap[MinIndex(s.heap)].1 !in s.closed
    ensures var e := s.heap[MinIndex(s.heap)];
            e.1 in s.g && e.0 == s.g[e.1] + Manhattan(m, e.1, s.goal)
  {
    var top := s.heap[MinIndex(s.heap)];
    assert top in s.heap;
    var e :| e in s.heap && e.0 == s.g[top.1] + Manhattan(m, top.1, s.goal) && e.1 == top.1;
  }

  /**
   The first open cell to come out of the heap has a shortest score: a
   shorter walk would leave the closed cells through a neighbour whose
   entry, by the admissible distance to the goal, would come out first.
   */
  lemma SettleIsShortest(m: Maze, s: AStarState)
    requires AStarInv(m, s) && s.phase.Ready? && s.heap != []
    requires s.heap[MinIndex(s.heap)].1 !in s.closed
    ensures var e := s.heap[MinIndex(s.heap)];
            e.1 in s.g && NoShorterWalk(m, s.start, e.1, s.g[e.1])
  {
    var i := MinIndex(s.heap);
    var (f, n, parent) := s.heap[i];
    PoppedAtEstimate(m, s);
    forall p | IsWalk(m, p) && p[0] == s.start && p[|p| - 1] == n
      ensures |p| - 1 >= s.g[n]
    {
      if s.closed != {} {
        var j := ExitStep(p, s.closed);
        ExitBound(m, s, p, j);
      }
    }
  }

  /** The estimate of the first open cell on a walk bounds the popped key by the walk's length. */
  lemma ExitBound(m: Maze, s: AStarState, p: seq<nat>, j: nat)
    requires AStarInv(m, s) && s.phase.Ready? && s.heap != []
    requires IsWalk(m, p) && p[0] == s.start
    requires j + 1 < |p| && p[j] in s.closed && p[j + 1] !in s.closed
    ensures var e := s.heap[MinIndex(s.heap)];
            e.0 <= |p| - 1 + Manhattan(m, p[|p| - 1], s.goal)
  {
    var i := MinIndex(s.heap);
    var a := p[j + 1];
    var last := p[|p| - 1];
    ExitScore(m, s, p, j);
    RestOfWalk(m, p, j + 1, s.goal);
    var e :| e in s.heap && e.0 == s.g[a] + Manhattan(m, a, s.goal) && e.1 == a;
    assert Precedes(s.heap[i], e);
  }

  /** The first open cell on a walk from the start has a score at most its position on the walk. */
  lemma ExitScore(m: Maze, s: AStarState, p: seq<nat>, j: nat)
    requires WellFormed(m) && AStarSettled(m, s) && AStarFrontier(m, s) && s.phase.Ready?
    requires IsWalk(m, p) && p[0] == s.start
    requires j + 1 < |p| && p[j] in s.closed
    ensures p[j + 1] in s.g && s.g[p[j + 1]] <= j + 1
  {
    WalkPrefix(m, p, j);
    var q := p[..j + 1];
    assert q[0] == s.start && q[|q| - 1] == p[j];
    assert Open(m, p[j], p[j + 1]);
  }

  /** From position `k` of a walk the goal is at most the rest of the walk plus the walk's end's distance away. */
  lemma RestOfWalk(m: Maze, p: seq<nat>, k: nat, goal: nat)
    requires WellFormed(m) && IsWalk(m, p) && k < |p| && goal < |m.grid|
    ensures Manhattan(m, p[k], goal) <= |p| - 1 - k + Manhattan(m, p[|p| - 1], goal)
  {
    WalkSuffix(m, p, k);
    var r := p[k..];
    assert r[0] == p[k] && r[|r| - 1] == p[|p| - 1];
    ManhattanAtMostWalk(m, r);
    ManhattanTriangle(m, p[k], p[|p| - 1], goal);
  }

  /** Closing the popped cell links it to its entry's parent, whose score is smaller. */
  lemma SettleTree(m: Maze, s: AStarState)
    requires WellFormed(m) && AStarShape(m, s) && AStarTree(m, s) && AStarEntries(m, s)
    requires AStarPending(m, s) && s.heap != []
    requires s.heap[MinIndex(s.heap)].1 !in s.closed
    ensures AStarTree(m, Settle(s))
  {
    var i := MinIndex(s.heap);
    var (f, n, parent) := s.heap[i];
    assert s.heap[i] in s.heap;
    PoppedAtEstimate(m, s);
    if parent.Some? {
      SettleLinked(m, s, n, parent.value);
    }
  }

  /** Linking a newly closed cell to a closed cell with a smaller score keeps the tree. */
  lemma SettleLinked(m: Maze, s: AStarState, n: nat, p: nat)
    requires WellFormed(m) && AStarShape(m, s) && AStarTree(m, s)
    requires n in s.g && p in s.closed && Open(m, p, n) && s.g[p] < s.g[n]
    ensures var s' := s.(closed := s.closed + {n}, cameFrom := s.cameFrom[n := p]);
            AStarTree(m, s')
  {
    LinkRanked(s.cameFrom, s.g, n, p);
  }

  /** Linking a cell to one with a smaller score keeps the scores falling along every link. */
  lemma LinkRanked(cameFrom: map<nat, nat>, g: map<nat, nat>, n: nat, p: nat)
    requires Ranked(cameFrom, g) && n in g && p in g && g[p] < g[n]
    ensures Ranked(cameFrom[n := p], g)
  {
  }

  /** Closing the popped cell keeps the shape and the entries of the rest of the heap. */
  lemma SettleEntries(m: Maze, s: AStarState)
    requires AStarInv(m, s) && s.phase.Ready? && s.heap != []
    requires s.heap[MinIndex(s.heap)].1 !in s.closed
    ensures AStarShape(m, Settle(s)) && AStarEntries(m, Settle(s))
    ensures EntriesUnique(Settle(s).heap)
  {
    var i := MinIndex(s.heap);
    var s' := Settle(s);
    assert s.heap[i] in s.heap;
    UniqueRemove(s.heap, i);
    if s.closed == {} {
      assert s'.heap == [];
    } else {
      forall e | e in s'.heap ensures e.2.Some? {
        assert e in s.heap;
      }
    }
  }

  /** Closing the popped cell leaves an entry for every other open cell with a score. */
  lemma SettlePending(m: Maze, s: AStarState)
    requires AStarInv(m, s) && s.phase.Ready? && s.heap != []
    requires s.heap[MinIndex(s.heap)].1 !in s.closed
    ensures AStarPending(m, Settle(s))
  {
    var s' := Settle(s);
    forall n | n in s'.g && n !in s'.closed && n < |m.grid| && s'.goal < |m.grid|
      ensures HasEntry(s'.heap, s'.g[n] + Manhattan(m, n, s'.goal), n)
    {
      var e :| e in s.heap && e.0 == s.g[n] + Manhattan(m, n, s.goal) && e.1 == n;
      assert e in s'.heap;
    }
  }

  /** Closing an open cell keeps the invariant. */
  lemma AStarSettleInv(m: Maze, s: AStarState)
    requires AStarInv(m, s) && s.phase.Ready? && s.heap != []
    requires s.heap[MinIndex(s.heap)].1 !in s.closed
    ensures AStarInv(m, Settle(s))
  {
    SettleTree(m, s);
    SettleEntries(m, s);
    SettlePending(m, s);
    SettleIsShortest(m, s);
    SettleFrontier(m, s);
  }

  /** Closing a cell pauses on it, so the expanded cells and the scores stay the same. */
  lemma SettleFrontier(m: Maze, s: AStarState)
    requires WellFormed(m) && AStarFrontier(m, s) && s.goal !in Expanded(s)
    requires s.phase.Ready? && s.heap != [] && s.heap[MinIndex(s.heap)].1 !in s.closed
    ensures AStarFrontier(m, Settle(s)) && s.goal !in Expanded(Settle(s))
  {
    assert Expanded(Settle(s)) == Expanded(s);
  }

  // ---------------------------------------------------------------------------
  // Relaxing
  // ---------------------------------------------------------------------------

  /**
   `r` is what relaxing the walkable neighbours `ns` of `x` with score
   `g[x] + 1` leaves behind.
   */
  ghost predicate ExpandsBy(m: Maze, s: AStarState, x: nat, ns: seq<nat>, r: (map<nat, nat>, map<nat, nat>, seq<Item>))
    requires WellFormed(m)
  {
    && x < |m.grid| && x in s.g && s.goal < |m.grid|
    && (forall t | 0 <= t < |ns| :: ns[t] < |m.grid|)
    && (forall n | n in ns :: Open(m, x, n))
    && (forall n | Open(m, x, n) :: n in ns)
    && RelaxedBy(m, s.goal, s.g, s.cameFrom, s.heap, ns, s.g[x] + 1, x, r)
  }

  /** Scores that are already shortest are not lowered by a relaxation through a cell reached within `tg - 1` steps. */
  lemma ShortestScoresKept(m: Maze, start: nat, closed: set<nat>, g: map<nat, nat>, ns: seq<nat>,
                           tg: nat, x: nat, g': map<nat, nat>, w: seq<nat>)
    requires WellFormed(m)
    requires forall v | v in closed :: v in g && NoShorterWalk(m, start, v, g[v])
    requires IsWalk(m, w) && w[0] == start && w[|w| - 1] == x && |w| <= tg
    requires forall n | n in ns :: Open(m, x, n)
    requires forall n | n in g :: n in g' && g'[n] <= g[n]
    requires forall n | n in g' && (n !in g || g'[n] != g[n]) :: n in ns && (n in g ==> tg < g[n])
    ensures forall v | v in closed :: v in g' && g'[v] == g[v]
  {
    forall v | v in closed ensures v in g' && g'[v] == g[v] {
      if v in ns {
        WalkExtend(m, w, v);
        assert (w + [v])[0] == start && (w + [v])[|w + [v]| - 1] == v;
      }
    }
  }

  /** Links from a closed cell `x` to cells whose score fell to `g[x] + 1` keep the tree conditions. */
  lemma RelaxKeepsTree(m: Maze, start: nat, closed: set<nat>, g: map<nat, nat>, cameFrom: map<nat, nat>,
                       x: nat, ns: seq<nat>, tg: nat, g': map<nat, nat>, cameFrom': map<nat, nat>)
    requires WellFormed(m) && TreeOver(m, start, closed, g, cameFrom)
    requires start in closed && x in closed && closed <= g.Keys && tg == g[x] + 1
    requires forall n | n in ns :: Open(m, x, n)
    requires forall v | v in closed :: v in g' && g'[v] == g[v]
    requires forall n | n in g :: n in g' && g'[n] <= g[n]
    requires forall n | n in g' && (n !in g || g'[n] != g[n]) :: n in ns && g'[n] == tg
    requires RelaxedLinks(g, cameFrom, x, g', cameFrom')
    ensures TreeOver(m, start, closed, g', cameFrom')
  {
    forall k | k in cameFrom'
      ensures cameFrom'[k] in closed && Open(m, cameFrom'[k], k)
      ensures cameFrom'[k] in g' && k in g' && g'[cameFrom'[k]] < g'[k]
    {
      LinkAfterRelax(m, closed, g, cameFrom, x, ns, tg, g', cameFrom', k);
    }
    assert LinksOpen(m, cameFrom') && Ranked(cameFrom', g');
  }

  /** The link of one cell after relaxing: kept from before, or a new one from `x` one step on. */
  lemma LinkAfterRelax(m: Maze, closed: set<nat>, g: map<nat, nat>, cameFrom: map<nat, nat>,
                       x: nat, ns: seq<nat>, tg: nat, g': map<nat, nat>, cameFrom': map<nat, nat>, k: nat)
    requires WellFormed(m) && LinksOpen(m, cameFrom) && Ranked(cameFrom, g)
    requires forall j | j in cameFrom :: cameFrom[j] in closed
    requires x in closed && closed <= g.Keys && tg == g[x] + 1
    requires forall n | n in ns :: Open(m, x, n)
    requires forall v | v in closed :: v in g' && g'[v] == g[v]
    requires forall n | n in g :: n in g' && g'[n] <= g[n]
    requires forall n | n in g' && (n !in g || g'[n] != g[n]) :: n in ns && g'[n] == tg
    requires RelaxedLinks(g, cameFrom, x, g', cameFrom')
    requires k in cameFrom'
    ensures cameFrom'[k] in closed && Open(m, cameFrom'[k], k)
    ensures cameFrom'[k] in g' && k in g' && g'[cameFrom'[k]] < g'[k]
  {
    if k in cameFrom && cameFrom'[k] == cameFrom[k] {
      var p := cameFrom[k];
      assert p in closed && k in g && p in g && g[p] < g[k];
      if k in g' && g'[k] != g[k] {
        assert cameFrom'[k] == x;
      }
    } else {
      assert k in g' && (k !in g || g'[k] != g[k]);
      assert cameFrom'[k] == x && k in ns;
    }
  }

  /**
   Relaxing from a closed cell keeps the entry conditions: old entries only
   gain slack as scores fall, and each new entry is keyed by its cell's new
   score plus its distance, with the closed cell `x` as parent.
   */
  lemma RelaxKeepsEntries(m: Maze, start: nat, goal: nat, closed: set<nat>, g: map<nat, nat>, heap: seq<Item>,
                          x: nat, ns: seq<nat>, tg: nat, r: (map<nat, nat>, map<nat, nat>, seq<Item>))
    requires WellFormed(m) && EntriesOver(m, start, goal, closed, g, heap)
    requires forall t | 0 <= t < |ns| :: ns[t] < |m.grid|
    requires x in closed && closed <= g.Keys && tg == g[x] + 1
    requires forall n | n in ns :: Open(m, x, n)
    requires forall v | v in closed :: v in r.0 && r.0[v] == g[v]
    requires forall n | n in g :: n in r.0 && r.0[n] <= g[n]
    requires RelaxedHeap(m, goal, g, heap, ns, tg, x, r)
    ensures EntriesOver(m, start, goal, closed, r.0, r.2)
  {
    var (g', _, heap') := r;
    forall e | e in heap'
      ensures && e.1 < |m.grid| && e.1 in g' && g'[e.1] + Manhattan(m, e.1, goal) <= e.0
              && (e.2.None? ==> e.1 == start && closed == {})
              && (e.2.Some? ==> e.2.value in closed && e.2.value in g' && Open(m, e.2.value, e.1)
                                && g'[e.2.value] + 1 + Manhattan(m, e.1, goal) <= e.0)
    {
      var k :| 0 <= k < |heap'| && heap'[k] == e;
      if k < |heap| {
        assert e == heap[k] && e in heap;
      }
    }
  }

  /** New entries are keyed below every old entry of the same cell, so the heap stays free of duplicates. */
  lemma RelaxKeepsUnique(m: Maze, goal: nat, g: map<nat, nat>, heap: seq<Item>,
                         x: nat, ns: seq<nat>, tg: nat, r: (map<nat, nat>, map<nat, nat>, seq<Item>))
    requires WellFormed(m) && goal < |m.grid| && forall t | 0 <= t < |ns| :: ns[t] < |m.grid|
    requires EntriesUnique(heap)
    requires forall e | e in heap :: e.1 < |m.grid| && e.1 in g && g[e.1] + Manhattan(m, e.1, goal) <= e.0
    requires RelaxedHeap(m, goal, g, heap, ns, tg, x, r)
    ensures EntriesUnique(r.2)
  {
    var heap' := r.2;
    forall i, j | 0 <= i < j < |heap'| ensures heap'[i].0 != heap'[j].0 || heap'[i].1 != heap'[j].1 {
      if j >= |heap| && i < |heap| {
        assert heap'[i] == heap[i] && heap'[i] in heap;
      } else if j < |heap| {
        assert heap'[i] == heap[i] && heap'[j] == heap[j];
      }
    }
  }

  /** A cell whose score changed has its new entry; every other open cell keeps its old one. */
  lemma RelaxKeepsPending(m: Maze, goal: nat, closed: set<nat>, g: map<nat, nat>, heap: seq<Item>,
                          x: nat, ns: seq<nat>, tg: nat, r: (map<nat, nat>, map<nat, nat>, seq<Item>))
    requires WellFormed(m) && goal < |m.grid| && forall t | 0 <= t < |ns| :: ns[t] < |m.grid|
    requires PendingOver(m, goal, closed, g, heap)
    requires RelaxedChanges(m, goal, g, heap, ns, tg, x, r)
    requires heap <= r.2
    ensures PendingOver(m, goal, closed, r.0, r.2)
  {
    var (g', _, heap') := r;
    forall n | n in g' && n !in closed && n < |m.grid| && goal < |m.grid|
      ensures HasEntry(heap', g'[n] + Manhattan(m, n, goal), n)
    {
      if n !in g || g'[n] != g[n] {
        var e := (tg + Manhattan(m, n, goal), n, Some(x));
        assert e in heap';
      } else {
        var e :| e in heap && e.0 == g[n] + Manhattan(m, n, goal) && e.1 == n;
        var k :| 0 <= k < |heap| && heap[k] == e;
        assert heap'[k] == e;
      }
    }
  }
}
