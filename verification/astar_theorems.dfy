/**
 What the A* generator guarantees: its invariant holds across every
 `next()`, a visited cell's score is the length of a shortest walk, the
 path it reports is a shortest walk, and `NotFound` means the goal is
 unreachable.
 */
module AStarTheorems {
  import opened Wrappers
  import opened Grid
  import opened Graph
  import opened Paths
  import opened Search
  import opened Heap
  import opened Heuristic
  import opened AStar

  // ---------------------------------------------------------------------------
  // Relaxing
  // ---------------------------------------------------------------------------

  /** The expansion step relaxes exactly the walkable neighbours of `x`. */
  lemma ExpandFacts(m: Maze, s: AStarState, x: nat)
    requires WellFormed(m) && x < |m.grid| && x in s.g && s.goal < |m.grid|
    ensures ExpandsBy(m, s, x, Walkable(m, x), ExpandResult(m, s, x))
  {
  }

  /**
   Relaxing the neighbours of a closed cell leaves the scores of closed cells
   alone: a closed cell's score is shortest, so no route through `x` beats it.
   */
  lemma ExpandKeepsClosed(m: Maze, s: AStarState, x: nat, ns: seq<nat>, r: (map<nat, nat>, map<nat, nat>, seq<Item>))
    requires WellFormed(m) && AStarShape(m, s) && AStarTree(m, s) && AStarSettled(m, s) && s.phase == Paused(x)
    requires x in s.g && forall t | 0 <= t < |ns| :: ns[t] < |m.grid|
    requires forall n | n in ns :: Open(m, x, n)
    requires RelaxedScores(s.g, ns, s.g[x] + 1, r.0) && RelaxedChanges(m, s.goal, s.g, s.heap, ns, s.g[x] + 1, x, r)
    ensures forall v | v in s.closed :: v in r.0 && r.0[v] == s.g[v]
  {
    var w := ClosedWalk(m, s, x);
    ShortestScoresKept(m, s.start, s.closed, s.g, ns, s.g[x] + 1, x, r.0, w);
  }

  /** Relaxing keeps the shape: new scores are for neighbours of `x`, and closed scores stay. */
  lemma ExpandShape(m: Maze, s: AStarState, x: nat, ns: seq<nat>, r: (map<nat, nat>, map<nat, nat>, seq<Item>))
    requires WellFormed(m) && AStarShape(m, s) && s.phase == Paused(x)
    requires forall t | 0 <= t < |ns| :: ns[t] < |m.grid|
    requires x in s.g && RelaxedScores(s.g, ns, s.g[x] + 1, r.0)
    requires forall v | v in s.closed :: v in r.0 && r.0[v] == s.g[v]
    ensures AStarShape(m, Relaxed(s, r))
  {
  }

  /** Relaxing keeps the tree, with new links from `x` to the cells whose score it lowered. */
  lemma ExpandTree(m: Maze, s: AStarState, x: nat, ns: seq<nat>, r: (map<nat, nat>, map<nat, nat>, seq<Item>))
    requires WellFormed(m) && AStarShape(m, s) && AStarTree(m, s) && s.phase == Paused(x)
    requires x in s.g && forall t | 0 <= t < |ns| :: ns[t] < |m.grid|
    requires forall n | n in ns :: Open(m, x, n)
    requires RelaxedScores(s.g, ns, s.g[x] + 1, r.0) && RelaxedChanges(m, s.goal, s.g, s.heap, ns, s.g[x] + 1, x, r)
    requires RelaxedLinks(s.g, s.cameFrom, x, r.0, r.1)
    requires forall v | v in s.closed :: v in r.0 && r.0[v] == s.g[v]
    ensures AStarTree(m, Relaxed(s, r))
  {
    RelaxKeepsTree(m, s.start, s.closed, s.g, s.cameFrom, x, ns, s.g[x] + 1, r.0, r.1);
  }

  /** Relaxing keeps the entry conditions and leaves no duplicate entries. */
  lemma ExpandEntries(m: Maze, s: AStarState, x: nat, ns: seq<nat>, r: (map<nat, nat>, map<nat, nat>, seq<Item>))
    requires WellFormed(m) && AStarShape(m, s) && AStarEntries(m, s) && EntriesUnique(s.heap) && s.phase == Paused(x)
    requires x in s.g && forall t | 0 <= t < |ns| :: ns[t] < |m.grid|
    requires forall n | n in ns :: Open(m, x, n)
    requires RelaxedScores(s.g, ns, s.g[x] + 1, r.0) && RelaxedHeap(m, s.goal, s.g, s.heap, ns, s.g[x] + 1, x, r)
    requires forall v | v in s.closed :: v in r.0 && r.0[v] == s.g[v]
    ensures AStarEntries(m, Relaxed(s, r)) && EntriesUnique(r.2)
  {
    RelaxKeepsEntries(m, s.start, s.goal, s.closed, s.g, s.heap, x, ns, s.g[x] + 1, r);
    RelaxKeepsUnique(m, s.goal, s.g, s.heap, x, ns, s.g[x] + 1, r);
  }

  /** Relaxing leaves an entry for every open cell with a score. */
  lemma ExpandPending(m: Maze, s: AStarState, x: nat, ns: seq<nat>, r: (map<nat, nat>, map<nat, nat>, seq<Item>))
    requires WellFormed(m) && AStarPending(m, s) && s.goal < |m.grid| && x in s.g
    requires forall t | 0 <= t < |ns| :: ns[t] < |m.grid|
    requires RelaxedChanges(m, s.goal, s.g, s.heap, ns, s.g[x] + 1, x, r) && s.heap <= r.2
    ensures AStarPending(m, Relaxed(s, r))
  {
    RelaxKeepsPending(m, s.goal, s.closed, s.g, s.heap, x, ns, s.g[x] + 1, r);
  }

  /** Relaxing makes `x` expanded and keeps every closed score shortest. */
  lemma ExpandFrontier(m: Maze, s: AStarState, x: nat, ns: seq<nat>, r: (map<nat, nat>, map<nat, nat>, seq<Item>))
    requires WellFormed(m) && AStarShape(m, s) && AStarFrontier(m, s) && AStarSettled(m, s) && s.phase == Paused(x)
    requires x in s.g && forall n | Open(m, x, n) :: n in ns
    requires RelaxedScores(s.g, ns, s.g[x] + 1, r.0)
    requires forall v | v in s.closed :: v in r.0 && r.0[v] == s.g[v]
    ensures AStarFrontier(m, Relaxed(s, r)) && AStarSettled(m, Relaxed(s, r))
  {
    RelaxKeepsFrontier(m, s.closed, x, s.g, ns, s.g[x] + 1, r.0);
  }

  /** Relaxing the neighbours of the visited cell `x`, which is not the goal, keeps the invariant. */
  lemma ExpandInvBy(m: Maze, s: AStarState, x: nat, ns: seq<nat>, r: (map<nat, nat>, map<nat, nat>, seq<Item>))
    requires AStarInv(m, s) && s.phase == Paused(x) && x != s.goal
    requires x in s.g && forall t | 0 <= t < |ns| :: ns[t] < |m.grid|
    requires (forall n | n in ns :: Open(m, x, n)) && (forall n | Open(m, x, n) :: n in ns)
    requires RelaxedScores(s.g, ns, s.g[x] + 1, r.0) && RelaxedChanges(m, s.goal, s.g, s.heap, ns, s.g[x] + 1, x, r)
    requires RelaxedHeap(m, s.goal, s.g, s.heap, ns, s.g[x] + 1, x, r) && RelaxedLinks(s.g, s.cameFrom, x, r.0, r.1)
    ensures AStarInv(m, Relaxed(s, r))
  {
    ExpandKeepsClosed(m, s, x, ns, r);
    ExpandShape(m, s, x, ns, r);
    ExpandTree(m, s, x, ns, r);
    ExpandEntries(m, s, x, ns, r);
    ExpandPending(m, s, x, ns, r);
    ExpandFrontier(m, s, x, ns, r);
  }

  /** Relaxing the neighbours of a visited cell other than the goal keeps the invariant. */
  lemma AStarExpandInv(m: Maze, s: AStarState, x: nat)
    requires AStarInv(m, s) && s.phase == Paused(x) && x != s.goal
    ensures AStarInv(m, AStarExpand(m, s, x))
  {
    var ns := Walkable(m, x);
    var r := ExpandResult(m, s, x);
    ExpandFacts(m, s, x);
    assert RelaxedBy(m, s.goal, s.g, s.cameFrom, s.heap, ns, s.g[x] + 1, x, r);
    ExpandInvBy(m, s, x, ns, r);
  }

  /**
   Relaxing never pushes an entry for a closed cell: a closed cell's score is
   already shortest, so the branch of the loop that would reopen it never
   lowers its score.
   */
  lemma ExpandNeverReopens(m: Maze, s: AStarState, x: nat)
    requires AStarInv(m, s) && s.phase == Paused(x)
    ensures var r := ExpandResult(m, s, x);
            && s.heap <= r.2
            && forall k | |s.heap| <= k < |r.2| :: r.2[k].1 !in s.closed && r.2[k].2 == Some(x)
  {
    var ns := Walkable(m, x);
    var r := ExpandResult(m, s, x);
    ExpandFacts(m, s, x);
    assert RelaxedBy(m, s.goal, s.g, s.cameFrom, s.heap, ns, s.g[x] + 1, x, r);
    ExpandKeepsClosed(m, s, x, ns, r);
  }

  /** Relaxing rewrites only the predecessors of cells that are not closed. */
  lemma ExpandKeepsClosedLinks(m: Maze, s: AStarState, x: nat)
    requires AStarInv(m, s) && s.phase == Paused(x)
    ensures var cameFrom' := ExpandResult(m, s, x).1;
            && (forall k | k in s.cameFrom :: k in cameFrom')
            && (forall k | k in cameFrom' && (k !in s.cameFrom || cameFrom'[k] != s.cameFrom[k]) :: k !in s.closed)
  {
    var ns := Walkable(m, x);
    var r := ExpandResult(m, s, x);
    ExpandFacts(m, s, x);
    assert RelaxedBy(m, s.goal, s.g, s.cameFrom, s.heap, ns, s.g[x] + 1, x, r);
    ExpandKeepsClosed(m, s, x, ns, r);
  }

  // ---------------------------------------------------------------------------
  // Resuming at the loop head
  // ---------------------------------------------------------------------------

  /**
   An exhausted heap means every cell with a score is closed and no step
   leaves the closed cells, which hold the start but not the goal.
   */
  lemma AStarNotFound(m: Maze, s: AStarState)
    requires AStarInv(m, s) && s.phase.Ready? && s.heap == []
    ensures !Reachable(m, s.start, s.goal)
  {
    forall n | n in s.g ensures n in s.closed {
      if n !in s.closed {
        assert false;
      }
    }
    ExhaustedMeansUnreachable(m, s.closed, s.start, s.goal);
  }

  /**
   Resuming keeps the invariant when it reports a visit, and reports
   `NotFound` only when the goal is unreachable.
   */
  lemma {:induction false} AStarResumeInv(m: Maze, s: AStarState)
    requires AStarInv(m, s) && s.phase.Ready?
    ensures var r := AStarResume(s);
            && (r.0.Visit? ==> AStarInv(m, r.1))
            && (r.0.NotFound? ==> !Reachable(m, s.start, s.goal))
    decreases |s.heap|
  {
    if s.heap == [] {
      AStarNotFound(m, s);
    } else {
      var i := MinIndex(s.heap);
      if s.heap[i].1 in s.closed {
        AStarSkipInv(m, s);
        AStarResumeInv(m, Skip(s));
        assert AStarResume(s) == AStarResume(Skip(s));
      } else {
        AStarSettleInv(m, s);
        assert AStarResume(s).1 == Settle(s);
      }
    }
  }

  /**
   Resuming writes at most one predecessor: the one of the cell it closes,
   to the parent stored with the popped entry.
   */
  lemma {:induction false} AStarResumeLinks(s: AStarState)
    requires s.phase.Ready?
    ensures var r := AStarResume(s);
            && (forall k | k in s.cameFrom :: k in r.1.cameFrom)
            && (forall k | k in r.1.cameFrom && (k !in s.cameFrom || r.1.cameFrom[k] != s.cameFrom[k]) ::
                  r.0.Visit? && k == r.0.node && k !in s.closed)
    decreases |s.heap|
  {
    if s.heap != [] {
      var i := MinIndex(s.heap);
      if s.heap[i].1 in s.closed {
        AStarResumeLinks(Skip(s));
        assert AStarResume(s) == AStarResume(Skip(s));
      } else {
        assert AStarResume(s).1 == Settle(s);
      }
    }
  }

  // ---------------------------------------------------------------------------
  // Reconstructed paths are shortest
  // ---------------------------------------------------------------------------

  /**
   The path reconstructed for a closed cell is a shortest walk from the
   start: preceded by the start it is a walk ending at the cell, as long as
   the cell's score, and no walk is shorter.
   */
  lemma ClosedPathIsShortest(m: Maze, s: AStarState, v: nat)
    requires WellFormed(m) && AStarShape(m, s) && AStarTree(m, s) && AStarSettled(m, s) && v in s.closed
    ensures var p := ReconstructPath(s.cameFrom, v);
            && v in s.g && NoShorterWalk(m, s.start, v, s.g[v]) && |p| == s.g[v]
            && s.start !in p
            && (v == s.start <==> p == [])
            && (v != s.start ==> |p| > 0 && IsWalk(m, [s.start] + p) && p[|p| - 1] == v)
  {
    AStarTreeIsPredecessorTree(m, s);
    FoundPathIsWalk(m, s.start, v, s.cameFrom);
    PathWithinScore(m, s, v);
    var p := ReconstructPath(s.cameFrom, v);
    if v != s.start {
      WalkAtLeast(m, s.start, v, s.g[v], [s.start] + p);
    }
  }

  // ---------------------------------------------------------------------------
  // Properties of whole steps
  // ---------------------------------------------------------------------------

  /** Every step keeps the invariant until the search has finished. */
  lemma AStarNextInv(m: Maze, s: AStarState)
    requires AStarInv(m, s)
    ensures InRange(m, s)
    ensures var r := AStarNext(m, s);
            r.1.phase.Done? || AStarInv(m, r.1)
  {
    match s.phase
    case Done =>
    case Ready => AStarResumeInv(m, s);
    case Paused(x) =>
      if x != s.goal {
        AStarExpandInv(m, s, x);
        AStarResumeInv(m, AStarExpand(m, s, x));
      }
  }

  /**
   A visited cell's score is the length of a shortest walk to it: no walk
   from the start is shorter, and the reconstructed path, preceded by the
   start, is a walk of exactly that length.
   */
  lemma AStarVisitIsShortest(m: Maze, s: AStarState)
    requires AStarInv(m, s) && AStarNext(m, s).0.Visit?
    ensures var r := AStarNext(m, s);
            var n := r.0.node;
            var p := ReconstructPath(r.1.cameFrom, n);
            && n in r.1.g
            && NoShorterWalk(m, s.start, n, r.1.g[n])
            && |p| == r.1.g[n]
            && (n != s.start ==> |p| > 0 && IsWalk(m, [s.start] + p) && p[|p| - 1] == n)
  {
    AStarNextInv(m, s);
    var r := AStarNext(m, s);
    assert r.1.start == s.start;
    ClosedPathIsShortest(m, r.1, r.0.node);
  }

  /**
   A reported path is a shortest route from the start to the goal: preceded
   by the start it is a walk ending at the goal, no walk is shorter, and it
   is empty exactly when the start is the goal.
   */
  lemma AStarFoundPath(m: Maze, s: AStarState)
    requires AStarInv(m, s) && AStarNext(m, s).0.Found?
    ensures var p := AStarNext(m, s).0.path;
            && s.start !in p
            && (s.goal == s.start <==> p == [])
            && (s.goal != s.start ==> |p| > 0 && IsWalk(m, [s.start] + p) && p[|p| - 1] == s.goal)
            && NoShorterWalk(m, s.start, s.goal, |p|)
  {
    ClosedPathIsShortest(m, s, s.goal);
  }

  /** `NotFound` is reported only when no walk leads from the start to the goal. */
  lemma AStarNotFoundUnreachable(m: Maze, s: AStarState)
    requires AStarInv(m, s) && AStarNext(m, s).0.NotFound?
    ensures !Reachable(m, s.start, s.goal)
  {
    match s.phase
    case Ready => AStarResumeInv(m, s);
    case Paused(x) =>
      AStarExpandInv(m, s, x);
      AStarResumeInv(m, AStarExpand(m, s, x));
  }

  /**
   The predecessor of a closed cell never changes; a step writes only the
   predecessors of cells that were not closed before it, which may be
   overwritten while the cell stays open.
   */
  lemma AStarClosedLinksStable(m: Maze, s: AStarState)
    requires AStarInv(m, s)
    ensures var r := AStarNext(m, s);
            && (forall k | k in s.cameFrom :: k in r.1.cameFrom)
            && (forall k | k in r.1.cameFrom && (k !in s.cameFrom || r.1.cameFrom[k] != s.cameFrom[k]) ::
                  k !in s.closed)
  {
    match s.phase
    case Done =>
    case Ready => AStarResumeLinks(s);
    case Paused(x) =>
      if x != s.goal {
        ExpandKeepsClosedLinks(m, s, x);
        AStarResumeLinks(AStarExpand(m, s, x));
      }
  }

  /** A running search has closed no more cells than the maze holds, so it reports at most that many visits. */
  lemma AStarVisitsBounded(m: Maze, s: AStarState)
    requires AStarInv(m, s)
    ensures |s.closed| <= |m.grid|
  {
    IndicesBound(s.closed, |m.grid|);
  }
}
