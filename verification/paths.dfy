/**
 Path reconstruction from a predecessor map (`reconstruct_path`) and the
 search-tree invariant every search keeps about its predecessor map.
 */
module Paths {
  import opened Wrappers
  import opened Grid
  import opened Graph

  /**
   Follows predecessor links back from `e` while the current cell has a
   predecessor and returns the cells passed, oldest first. The start of the
   chain (the cell without a predecessor) is not included. Each key is used
   at most once; on a chain without a cycle this is exactly the source's loop.
   */
  function ReconstructPath(cameFrom: map<nat, nat>, e: nat): (p: seq<nat>)
    ensures e !in cameFrom <==> p == []
    ensures e in cameFrom ==> p[|p| - 1] == e
    ensures forall j | 0 <= j < |p| :: p[j] in cameFrom
    ensures forall j | 0 <= j < |p| - 1 :: cameFrom[p[j + 1]] == p[j]
    ensures forall j, k | 0 <= j < k < |p| :: p[j] != p[k]
    ensures |p| > 0 ==> cameFrom[p[0]] !in cameFrom || cameFrom[p[0]] in p
    decreases |cameFrom|
  {
    if e in cameFrom then
      var rest := ReconstructPath(cameFrom - {e}, cameFrom[e]);
      assert forall j | 0 <= j < |rest| :: rest[j] != e;
      rest + [e]
    else []
  }

  /** Ranks strictly decrease along every predecessor link. */
  ghost predicate Ranked(cameFrom: map<nat, nat>, rank: map<nat, nat>) {
    forall k | k in cameFrom :: k in rank && cameFrom[k] in rank && rank[cameFrom[k]] < rank[k]
  }

  /** Along a reconstructed path ranks increase from the first cell. */
  lemma {:induction false} RanksAlongPath(cameFrom: map<nat, nat>, rank: map<nat, nat>, p: seq<nat>, j: nat)
    requires Ranked(cameFrom, rank)
    requires forall t | 0 <= t < |p| :: p[t] in cameFrom
    requires forall t | 0 <= t < |p| - 1 :: cameFrom[p[t + 1]] == p[t]
    requires j < |p|
    ensures rank[p[0]] <= rank[p[j]]
  {
    if j > 0 {
      RanksAlongPath(cameFrom, rank, p, j - 1);
    }
  }

  /**
   With ranked predecessor links the chain always ends at a cell without a
   predecessor, just as the source's loop stops there.
   */
  lemma ReconstructPathEndsAtRoot(cameFrom: map<nat, nat>, rank: map<nat, nat>, e: nat)
    requires Ranked(cameFrom, rank)
    ensures var p := ReconstructPath(cameFrom, e);
            |p| > 0 ==> cameFrom[p[0]] !in cameFrom
  {
    var p := ReconstructPath(cameFrom, e);
    if |p| > 0 && cameFrom[p[0]] in cameFrom {
      forall j | 0 <= j < |p|
        ensures p[j] != cameFrom[p[0]]
      {
        RanksAlongPath(cameFrom, rank, p, j);
      }
    }
  }

  // ---------------------------------------------------------------------------
  // Predecessor trees
  // ---------------------------------------------------------------------------

  /** Every predecessor link joins a cell to a cell walkable from it. */
  ghost predicate LinksOpen(m: Maze, cameFrom: map<nat, nat>)
    requires WellFormed(m)
  {
    forall k | k in cameFrom :: Open(m, cameFrom[k], k)
  }

  /** The start has no predecessor and every predecessor is the start or has one itself. */
  ghost predicate Rooted(start: nat, cameFrom: map<nat, nat>) {
    && start !in cameFrom
    && forall k | k in cameFrom :: cameFrom[k] == start || cameFrom[k] in cameFrom
  }

  /** Some ranking of the cells makes every link go down in rank. */
  ghost predicate Acyclic(cameFrom: map<nat, nat>) {
    exists rank: map<nat, nat> :: Ranked(cameFrom, rank)
  }

  /**
   The predecessor map of a search: walkable links without a cycle that all
   lead back to the start.
   */
  ghost predicate PredecessorTree(m: Maze, start: nat, cameFrom: map<nat, nat>)
    requires WellFormed(m)
  {
    LinksOpen(m, cameFrom) && Rooted(start, cameFrom) && Acyclic(cameFrom)
  }

  /** The empty map is a predecessor tree for any start. */
  lemma PredecessorTreeEmpty(m: Maze, start: nat)
    requires WellFormed(m)
    ensures PredecessorTree(m, start, map[])
  {
    assert Ranked(map[], map[]);
  }

  /**
   Linking a cell that is neither the start nor linked yet to the start or to
   a linked cell it is walkable from keeps a predecessor tree.
   */
  lemma LinkKeepsTree(m: Maze, start: nat, cameFrom: map<nat, nat>, node: nat, parent: nat)
    requires WellFormed(m) && PredecessorTree(m, start, cameFrom)
    requires node != start && node !in cameFrom
    requires parent == start || parent in cameFrom
    requires Open(m, parent, node)
    ensures PredecessorTree(m, start, cameFrom[node := parent])
  {
    RootedLink(start, cameFrom, node, parent);
    LinksOpenUpdate(m, cameFrom, node, parent);
  }

  /**
   Settling a new cell with a walkable link from a settled cell keeps a tree
   whose links are exactly the settled cells other than the start.
   */
  lemma SettleKeepsTree(m: Maze, start: nat, settled: set<nat>, cameFrom: map<nat, nat>, n: nat, parent: nat)
    requires WellFormed(m) && start in settled && cameFrom.Keys == settled - {start}
    requires PredecessorTree(m, start, cameFrom)
    requires n !in settled && parent in settled && Open(m, parent, n)
    ensures cameFrom[n := parent].Keys == settled + {n} - {start}
    ensures PredecessorTree(m, start, cameFrom[n := parent])
  {
    LinkKeepsTree(m, start, cameFrom, n, parent);
  }

  /** Linking a new cell other than the start to a rooted cell keeps the map rooted and acyclic. */
  lemma RootedLink(start: nat, cameFrom: map<nat, nat>, node: nat, parent: nat)
    requires Rooted(start, cameFrom) && Acyclic(cameFrom)
    requires node != start && node !in cameFrom
    requires parent == start || parent in cameFrom
    ensures Rooted(start, cameFrom[node := parent]) && Acyclic(cameFrom[node := parent])
  {
    AcyclicLink(cameFrom, node, parent);
  }

  /** Linking a cell that is not yet linked to any cell keeps the links acyclic. */
  lemma AcyclicLink(cameFrom: map<nat, nat>, node: nat, parent: nat)
    requires Acyclic(cameFrom) && node !in cameFrom && node != parent
    requires forall k | k in cameFrom :: cameFrom[k] != node
    ensures Acyclic(cameFrom[node := parent])
  {
    var rank: map<nat, nat> :| Ranked(cameFrom, rank);
    var base := if parent in rank then rank else rank[parent := 0];
    assert Ranked(cameFrom, base);
    var rank' := base[node := base[parent] + 1];
    assert Ranked(cameFrom[node := parent], rank');
  }

  /** Setting a walkable link keeps every link walkable. */
  lemma LinksOpenUpdate(m: Maze, cameFrom: map<nat, nat>, node: nat, parent: nat)
    requires WellFormed(m) && LinksOpen(m, cameFrom) && Open(m, parent, node)
    ensures LinksOpen(m, cameFrom[node := parent])
  {
  }

  /** The predecessor chain of a linked cell ends at the start. */
  lemma ChainEndsAtStart(m: Maze, start: nat, goal: nat, cameFrom: map<nat, nat>)
    requires WellFormed(m) && PredecessorTree(m, start, cameFrom)
    requires goal == start || goal in cameFrom
    ensures var p := ReconstructPath(cameFrom, goal);
            && start !in p
            && (goal == start <==> p == [])
            && (|p| > 0 ==> cameFrom[p[0]] == start)
  {
    var rank: map<nat, nat> :| Ranked(cameFrom, rank);
    ReconstructPathEndsAtRoot(cameFrom, rank, goal);
  }

  /**
   For the start or a linked cell the reconstructed path, preceded by the
   start, is a walk from the start to the goal that visits the start only at
   its beginning; when the goal is the start the path is empty.
   */
  lemma FoundPathIsWalk(m: Maze, start: nat, goal: nat, cameFrom: map<nat, nat>)
    requires WellFormed(m) && PredecessorTree(m, start, cameFrom)
    requires goal == start || goal in cameFrom
    ensures var p := ReconstructPath(cameFrom, goal);
            && start !in p
            && (goal == start <==> p == [])
            && (goal != start ==> |p| > 0 && IsWalk(m, [start] + p) && p[|p| - 1] == goal)
  {
    ChainEndsAtStart(m, start, goal, cameFrom);
    var p := ReconstructPath(cameFrom, goal);
    if goal != start {
      PathLinksAreOpen(m, start, cameFrom, p);
    }
  }

  /** Each predecessor link goes one step nearer the start. */
  ghost predicate StepLinks(cameFrom: map<nat, nat>, dist: map<nat, nat>) {
    forall k | k in cameFrom :: k in dist && cameFrom[k] in dist && dist[k] == dist[cameFrom[k]] + 1
  }

  /** Linking a new cell to a parent one step nearer keeps every link one step long. */
  lemma LinkKeepsDistances(cameFrom: map<nat, nat>, dist: map<nat, nat>, n: nat, p: nat)
    requires StepLinks(cameFrom, dist)
    requires n in dist && p in dist && dist[n] == dist[p] + 1
    ensures StepLinks(cameFrom[n := p], dist)
  {
  }

  /** Along a chain of one-step links from the start, the `j`-th cell is at distance `j + 1`. */
  lemma {:induction false} DistancesAlongChain(cameFrom: map<nat, nat>, dist: map<nat, nat>, start: nat,
                                               p: seq<nat>, j: nat)
    requires StepLinks(cameFrom, dist) && start in dist && dist[start] == 0
    requires forall t | 0 <= t < |p| :: p[t] in cameFrom
    requires forall t | 0 <= t < |p| - 1 :: cameFrom[p[t + 1]] == p[t]
    requires j < |p| && cameFrom[p[0]] == start
    ensures p[j] in dist && dist[p[j]] == j + 1
  {
    if j > 0 {
      DistancesAlongChain(cameFrom, dist, start, p, j - 1);
    }
  }

  /** The path reconstructed for a linked cell has as many steps as the cell's distance. */
  lemma PathLengthIsDistance(m: Maze, start: nat, v: nat, cameFrom: map<nat, nat>, dist: map<nat, nat>)
    requires WellFormed(m) && PredecessorTree(m, start, cameFrom) && StepLinks(cameFrom, dist)
    requires start in dist && dist[start] == 0
    requires v == start || v in cameFrom
    ensures v in dist && |ReconstructPath(cameFrom, v)| == dist[v]
  {
    ChainEndsAtStart(m, start, v, cameFrom);
    var p := ReconstructPath(cameFrom, v);
    if v != start {
      DistancesAlongChain(cameFrom, dist, start, p, |p| - 1);
    }
  }

  /** A chain of walkable links preceded by the cell its first link leaves from is a walk. */
  lemma PathLinksAreOpen(m: Maze, start: nat, cameFrom: map<nat, nat>, p: seq<nat>)
    requires WellFormed(m) && |p| > 0
    requires LinksOpen(m, cameFrom)
    requires forall j | 0 <= j < |p| :: p[j] in cameFrom
    requires forall j | 0 <= j < |p| - 1 :: cameFrom[p[j + 1]] == p[j]
    requires cameFrom[p[0]] == start
    ensures IsWalk(m, [start] + p)
  {
    var w := [start] + p;
    forall t | 0 <= t < |w| - 1
      ensures Open(m, w[t], w[t + 1])
    {
      if t > 0 {
        assert w[t] == p[t - 1] && w[t + 1] == p[t];
      }
    }
  }

  // ---------------------------------------------------------------------------
  // Exhausted searches
  // ---------------------------------------------------------------------------

  /** No walkable step leaves the set `s`. */
  ghost predicate ClosedUnder(m: Maze, s: set<nat>)
    requires WellFormed(m)
  {
    forall v, w | v in s && Open(m, v, w) :: w in s
  }

  /** A walk that starts inside a closed set stays inside it. */
  lemma {:induction false} WalkStaysInside(m: Maze, s: set<nat>, p: seq<nat>)
    requires WellFormed(m) && ClosedUnder(m, s) && IsWalk(m, p) && p[0] in s
    ensures p[|p| - 1] in s
    decreases |p|
  {
    if |p| > 1 {
      var q := p[..|p| - 1];
      assert IsWalk(m, q);
      WalkStaysInside(m, s, q);
      assert Open(m, q[|q| - 1], p[|p| - 1]);
    }
  }

  /**
   When a search has expanded a closed set of cells that holds the start but
   not the goal, the goal cannot be reached from the start.
   */
  lemma ExhaustedMeansUnreachable(m: Maze, s: set<nat>, start: nat, goal: nat)
    requires WellFormed(m) && ClosedUnder(m, s) && start in s && goal !in s
    ensures !Reachable(m, start, goal)
  {
    if Reachable(m, start, goal) {
      var p :| IsWalk(m, p) && p[0] == start && p[|p| - 1] == goal;
      WalkStaysInside(m, s, p);
    }
  }
}
