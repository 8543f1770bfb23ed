/**
 Depth-first search (`DFS_generator`) as a state machine: each call of
 `DfsNext` runs the generator up to its next event.
 */
module Dfs {
  import opened Wrappers
  import opened Grid
  import opened Graph
  import opened Paths
  import opened Search

  // ---------------------------------------------------------------------------
  // random.shuffle
  // ---------------------------------------------------------------------------

  /** Exchanges the elements at positions `i` and `j`. */
  function Swap(xs: seq<nat>, i: nat, j: nat): (ys: seq<nat>)
    requires i < |xs| && j < |xs|
    ensures |ys| == |xs| && ys[i] == xs[j] && ys[j] == xs[i]
    ensures forall k | 0 <= k < |xs| && k != i && k != j :: ys[k] == xs[k]
    ensures multiset(ys) == multiset(xs)
  {
    xs[i := xs[j]][j := xs[i]]
  }

  /**
   The shuffle of Python's `random`: positions `n - 1` down to 1 in turn
   exchange their element with the position `draw(i) % (i + 1)` at or below
   them, `draw(i)` standing for the random draw made for position `i`.
   */
  function ShuffleBelow(xs: seq<nat>, n: nat, draw: nat -> nat): (ys: seq<nat>)
    requires n <= |xs|
    ensures multiset(ys) == multiset(xs)
    decreases n
  {
    if n <= 1 then xs
    else ShuffleBelow(Swap(xs, n - 1, draw(n - 1) % n), n - 1, draw)
  }

  /** `random.shuffle(xs)` with the draws `draw`. */
  function Shuffle(xs: seq<nat>, draw: nat -> nat): (ys: seq<nat>)
    ensures multiset(ys) == multiset(xs)
  {
    ShuffleBelow(xs, |xs|, draw)
  }

  /** Only the draws for positions below `n` matter. */
  lemma {:induction false} ShuffleBelowUses(xs: seq<nat>, n: nat, draw: nat -> nat, draw': nat -> nat)
    requires n <= |xs|
    requires forall i: nat | i < n :: draw(i) == draw'(i)
    ensures ShuffleBelow(xs, n, draw) == ShuffleBelow(xs, n, draw')
    decreases n
  {
    if n > 1 {
      ShuffleBelowUses(Swap(xs, n - 1, draw(n - 1) % n), n - 1, draw, draw');
    }
  }

  /** Positions at or above `n` are left alone. */
  lemma {:induction false} ShuffleBelowKeepsTail(xs: seq<nat>, n: nat, draw: nat -> nat)
    requires n <= |xs|
    ensures |ShuffleBelow(xs, n, draw)| == |xs|
    ensures forall k | n <= k < |xs| :: ShuffleBelow(xs, n, draw)[k] == xs[k]
    decreases n
  {
    if n > 1 {
      ShuffleBelowKeepsTail(Swap(xs, n - 1, draw(n - 1) % n), n - 1, draw);
    }
  }

  /**
   Every rearrangement of `xs` is the outcome of some sequence of draws: the
   shuffle can produce any permutation.
   */
  lemma {:induction false} ShuffleReaches(xs: seq<nat>, ys: seq<nat>, n: nat) returns (draw: nat -> nat)
    requires n <= |xs| == |ys|
    requires xs[n..] == ys[n..] && multiset(xs[..n]) == multiset(ys[..n])
    ensures ShuffleBelow(xs, n, draw) == ys
    decreases n
  {
    if n <= 1 {
      draw := ShortShuffle(xs, ys, n);
    } else {
      var j := SourceOfLast(xs, ys, n);
      var zs := Swap(xs, n - 1, j);
      SwapTowards(xs, ys, n, j);
      var rest := ShuffleReaches(zs, ys, n - 1);
      draw := Override(rest, n - 1, j);
      ShuffleStep(xs, n, j, rest, draw);
    }
  }

  /** `Shuffle` produces exactly the rearrangements of its input: any of them for suitable draws. */
  lemma ShuffleIsAnyPermutation(xs: seq<nat>, ys: seq<nat>) returns (draw: nat -> nat)
    requires multiset(ys) == multiset(xs)
    ensures Shuffle(xs, draw) == ys
  {
    var n := |xs|;
    assert |ys| == |multiset(ys)| == |multiset(xs)| == n;
    assert xs[..n] == xs && ys[..n] == ys;
    draw := ShuffleReaches(xs, ys, n);
  }

  /**
   A shuffle of `n` positions whose draw for the last position selects `j`
   is the swap of `j` into last place followed by the shuffle below it.
   */
  lemma ShuffleStep(xs: seq<nat>, n: nat, j: nat, rest: nat -> nat, draw: nat -> nat)
    requires 1 < n <= |xs| && j < n
    requires draw(n - 1) == j && forall i: nat | i < n - 1 :: draw(i) == rest(i)
    ensures ShuffleBelow(xs, n, draw) == ShuffleBelow(Swap(xs, n - 1, j), n - 1, rest)
  {
    SmallModulus(j, n);
    ShuffleBelowUses(Swap(xs, n - 1, j), n - 1, rest, draw);
  }

  /** The element `ys` ends its prefix with occurs in the prefix of `xs`. */
  lemma SourceOfLast(xs: seq<nat>, ys: seq<nat>, n: nat) returns (j: nat)
    requires 0 < n <= |xs| == |ys| && multiset(xs[..n]) == multiset(ys[..n])
    ensures j < n && xs[j] == ys[n - 1]
  {
    assert ys[n - 1] in multiset(xs[..n]) by {
      assert ys[..n] == ys[..n - 1] + [ys[n - 1]];
    }
    var k :| 0 <= k < n && xs[..n][k] == ys[n - 1];
    j := k;
  }

  /** The draws `f` with the draw for position `k` replaced by `v`. */
  function Override(f: nat -> nat, k: nat, v: nat): (g: nat -> nat)
    ensures g(k) == v && forall i: nat | i != k :: g(i) == f(i)
  {
    i => if i == k then v else f(i)
  }

  /** A remainder of a number below the divisor is the number itself. */
  lemma SmallModulus(j: nat, n: nat)
    requires j < n
    ensures j % n == j
  {
  }

  /** Shuffles of at most one position keep the sequence, which is then the target. */
  lemma ShortShuffle(xs: seq<nat>, ys: seq<nat>, n: nat) returns (draw: nat -> nat)
    requires n <= 1 && n <= |xs| == |ys|
    requires xs[n..] == ys[n..] && multiset(xs[..n]) == multiset(ys[..n])
    ensures ShuffleBelow(xs, n, draw) == ys
  {
    draw := i => 0;
    ShortPrefixEqual(xs, ys, n);
  }

  /** Sequences that agree beyond their first element and hold the same multiset there are equal. */
  lemma ShortPrefixEqual(xs: seq<nat>, ys: seq<nat>, n: nat)
    requires n <= 1 && n <= |xs| == |ys|
    requires xs[n..] == ys[n..] && multiset(xs[..n]) == multiset(ys[..n])
    ensures xs == ys
  {
    if n == 1 {
      assert xs[0] in multiset(ys[..1]);
      assert ys[..1] == [ys[0]];
    }
    assert xs == xs[..n] + xs[n..] && ys == ys[..n] + ys[n..];
  }

  /** Moving the element `ys` ends with to the last place of the prefix leaves a shorter instance. */
  lemma SwapTowards(xs: seq<nat>, ys: seq<nat>, n: nat, j: nat)
    requires 0 <= j < n <= |xs| == |ys|
    requires xs[n..] == ys[n..] && multiset(xs[..n]) == multiset(ys[..n])
    requires xs[j] == ys[n - 1]
    ensures var zs := Swap(xs, n - 1, j);
            zs[n - 1..] == ys[n - 1..] && multiset(zs[..n - 1]) == multiset(ys[..n - 1])
  {
    var zs := Swap(xs, n - 1, j);
    assert zs[n - 1..] == ys[n - 1..] by {
      assert zs[n..] == xs[n..];
    }
    SwapPrefixMultiset(xs, n, j);
    assert ys[..n] == ys[..n - 1] + [ys[n - 1]];
    assert multiset(ys[..n - 1]) == multiset(ys[..n]) - multiset{ys[n - 1]};
    assert multiset(zs[..n - 1]) == multiset(xs[..n]) - multiset{xs[j]};
  }

  /** Swapping the last position of a prefix keeps the multiset of the prefix without it. */
  lemma SwapPrefixMultiset(xs: seq<nat>, n: nat, j: nat)
    requires 0 <= j < n <= |xs|
    ensures var zs := Swap(xs, n - 1, j);
            multiset(zs[..n - 1]) + multiset{xs[j]} == multiset(xs[..n])
  {
    var zs := Swap(xs, n - 1, j);
    assert zs[..n] == Swap(xs[..n], n - 1, j);
    assert zs[..n] == zs[..n - 1] + [zs[n - 1]];
  }

  /** With draws that never move anything the shuffle keeps the order. */
  lemma {:induction false} ShuffleWithoutSwaps(xs: seq<nat>, n: nat, draw: nat -> nat)
    requires n <= |xs|
    requires forall i: nat | i < n :: draw(i) % (i + 1) == i
    ensures ShuffleBelow(xs, n, draw) == xs
    decreases n
  {
    if n > 1 {
      assert Swap(xs, n - 1, draw(n - 1) % n) == xs;
      ShuffleWithoutSwaps(xs, n - 1, draw);
    }
  }

  // ---------------------------------------------------------------------------
  // The stack
  // ---------------------------------------------------------------------------

  /**
   The position of the entry `stack.pop()` returns after skipping visited
   cells from the top, or `None` when the stack runs out first.
   */
  function TopUnvisited(stack: seq<Entry>, visited: set<nat>): (r: Option<nat>)
    ensures r.None? <==> forall k | 0 <= k < |stack| :: stack[k].0 in visited
    ensures r.Some? ==> r.value < |stack| && stack[r.value].0 !in visited
    ensures r.Some? ==> forall k | r.value < k < |stack| :: stack[k].0 in visited
    decreases |stack|
  {
    if stack == [] then None
    else if stack[|stack| - 1].0 in visited then TopUnvisited(stack[..|stack| - 1], visited)
    else Some(|stack| - 1)
  }

  /** Pushes `(n, node)` for every `n` of `ns`, in order, that is not visited. */
  function PushUnvisited(stack: seq<Entry>, ns: seq<nat>, visited: set<nat>, node: nat): (res: seq<Entry>)
    ensures |stack| <= |res| && res[..|stack|] == stack
    ensures forall k | |stack| <= k < |res| ::
              res[k].1 == Some(node) && res[k].0 in ns && res[k].0 !in visited
    ensures forall n | n in ns && n !in visited :: (n, Some(node)) in res
    decreases |ns|
  {
    if ns == [] then stack
    else
      var stack' := if ns[0] in visited then stack else stack + [(ns[0], Some(node))];
      var res := PushUnvisited(stack', ns[1..], visited, node);
      assert res[..|stack|] == res[..|stack'|][..|stack|];
      assert forall n | n in ns :: n == ns[0] || n in ns[1..];
      assert ns[0] !in visited ==> res[|stack|] == (ns[0], Some(node));
      res
  }

  /**
   The pushed entries follow `ns`: the `t`-th comes from position `pos[t]`,
   the positions increase, and every unvisited position is among them, so
   there is exactly one entry per unvisited position of `ns`, in its order.
   */
  lemma {:induction false} PushUnvisitedOrder(stack: seq<Entry>, ns: seq<nat>, visited: set<nat>, node: nat)
    returns (pos: seq<nat>)
    ensures NewEntries(|stack|, ns, visited, node, PushUnvisited(stack, ns, visited, node), pos)
    ensures Increasing(pos)
    ensures forall k | 0 <= k < |ns| && ns[k] !in visited :: k in pos
    decreases |ns|
  {
    if ns == [] {
      pos := [];
    } else {
      var stack' := if ns[0] in visited then stack else stack + [(ns[0], Some(node))];
      var res := PushUnvisited(stack', ns[1..], visited, node);
      assert res == PushUnvisited(stack, ns, visited, node);
      var rest := PushUnvisitedOrder(stack', ns[1..], visited, node);
      pos := PushOrderStep(stack, stack', ns, visited, node, res, rest);
    }
  }

  /** One step of `PushUnvisited`: the first cell of `ns`, if unvisited, is pushed ahead of the rest. */
  lemma PushOrderStep(stack: seq<Entry>, stack': seq<Entry>, ns: seq<nat>, visited: set<nat>, node: nat,
                      res: seq<Entry>, rest: seq<nat>) returns (pos: seq<nat>)
    requires ns != []
    requires stack' == if ns[0] in visited then stack else stack + [(ns[0], Some(node))]
    requires |stack'| <= |res| && res[..|stack'|] == stack'
    requires NewEntries(|stack'|, ns[1..], visited, node, res, rest) && Increasing(rest)
    requires forall k | 0 <= k < |ns[1..]| && ns[1..][k] !in visited :: k in rest
    ensures NewEntries(|stack|, ns, visited, node, res, pos) && Increasing(pos)
    ensures forall k | 0 <= k < |ns| && ns[k] !in visited :: k in pos
  {
    ShiftIncreasing(rest);
    if ns[0] in visited {
      pos := Shift(rest);
      NewEntriesSkip(|stack|, ns, visited, visited, node, res, rest);
    } else {
      pos := [0] + Shift(rest);
      assert res[|stack|] == res[..|stack'|][|stack|] == stack'[|stack|];
      NewEntriesKeep(|stack|, ns, visited, visited, node, res, rest);
    }
    PushCoverStep(ns, visited, rest);
  }

  /** The unvisited positions of the tail, renumbered, are the unvisited positions of `ns` after the first. */
  lemma PushCoverStep(ns: seq<nat>, visited: set<nat>, rest: seq<nat>)
    requires ns != []
    requires forall k | 0 <= k < |ns[1..]| && ns[1..][k] !in visited :: k in rest
    ensures forall k | 0 < k < |ns| && ns[k] !in visited :: k in Shift(rest) && k in [0] + Shift(rest)
  {
    forall k | 0 < k < |ns| && ns[k] !in visited ensures k in Shift(rest) && k in [0] + Shift(rest) {
      assert ns[1..][k - 1] == ns[k];
      ShiftMember(rest, k);
    }
  }

  // ---------------------------------------------------------------------------
  // The generator
  // ---------------------------------------------------------------------------

  /** The generator's local variables between two events. */
  datatype DfsState = DfsState(
    start: nat,
    goal: nat,
    stack: seq<Entry>,
    visited: set<nat>,
    cameFrom: map<nat, nat>,
    phase: Phase)

  /** The generator before its first event: only the start, without a parent, is stacked. */
  function DfsStart(start: nat, goal: nat): DfsState {
    DfsState(start, goal, [(start, None)], {}, map[], Ready)
  }

  /** The cells the generator reads from the grid are cells of the maze. */
  ghost predicate InRange(m: Maze, s: DfsState) {
    && (forall k | 0 <= k < |s.stack| :: s.stack[k].0 < |m.grid|)
    && (s.phase.Paused? ==> s.phase.node < |m.grid|)
  }

  /**
   Runs the main loop from its head: pops until an unvisited cell turns up,
   settles it and reports its visit, or reports `NotFound` once the stack is empty.
   */
  function DfsResume(s: DfsState): (r: (Event, DfsState))
    ensures r.0.Visit? || r.0.NotFound?
    ensures r.0.Visit? ==> r.0.node !in s.visited && r.1.visited == s.visited + {r.0.node}
    ensures r.0.Visit? ==> r.1.phase == Paused(r.0.node) && r.0.visited == r.1.visited
                           && r.0.cameFrom == r.1.cameFrom
    ensures r.0.NotFound? ==> r.1.phase == Done && r.1.visited == s.visited
    ensures r.0.NotFound? <==> forall k | 0 <= k < |s.stack| :: s.stack[k].0 in s.visited
    ensures r.0.Visit? ==> && |r.1.stack| < |s.stack| && r.1.stack == s.stack[..|r.1.stack|]
                           && s.stack[|r.1.stack|].0 == r.0.node
                           && forall k | |r.1.stack| < k < |s.stack| :: s.stack[k].0 in s.visited
    ensures r.1.cameFrom.Keys <= s.cameFrom.Keys + (r.1.visited - s.visited)
  {
    match TopUnvisited(s.stack, s.visited)
    case None => (NotFound, s.(stack := [], phase := Done))
    case Some(k) =>
      var (n, parent) := s.stack[k];
      var visited := s.visited + {n};
      var cameFrom := if parent.Some? then s.cameFrom[n := parent.value] else s.cameFrom;
      (Visit(n, visited, cameFrom),
       s.(stack := s.stack[..k], visited := visited, cameFrom := cameFrom, phase := Paused(n)))
  }

  /** Resumes after the visit of `x`: pushes its unvisited walkable neighbours in shuffled order. */
  function DfsExpand(m: Maze, s: DfsState, x: nat, draw: nat -> nat): DfsState
    requires WellFormed(m) && x < |m.grid|
  {
    s.(stack := PushUnvisited(s.stack, Shuffle(Walkable(m, x), draw), s.visited, x), phase := Ready)
  }

  /**
   One `next()` of the generator: the event it yields and the state it is
   suspended in afterwards. `draw` supplies the shuffle's random draws.
   */
  function DfsNext(m: Maze, s: DfsState, draw: nat -> nat): (r: (Event, DfsState))
    requires WellFormed(m) && InRange(m, s)
    ensures r.0.Stop? <==> s.phase.Done?
    ensures !r.0.Visit? ==> r.1.phase.Done?
    ensures r.0.Visit? ==> r.0.node !in s.visited && r.1.visited == s.visited + {r.0.node}
    ensures s.visited <= r.1.visited
    ensures r.1.cameFrom.Keys <= s.cameFrom.Keys + (r.1.visited - s.visited)
    ensures r.0.Found? ==> s.phase == Paused(s.goal)
    ensures s.phase == Paused(s.goal) ==> r.0 == Found(ReconstructPath(s.cameFrom, s.goal)) && r.1.phase.Done?
  {
    match s.phase
    case Done => (Stop, s)
    case Ready => DfsResume(s)
    case Paused(x) =>
      if x == s.goal then (Found(ReconstructPath(s.cameFrom, s.goal)), s.(phase := Done))
      else DfsResume(DfsExpand(m, s, x, draw))
  }

  // ---------------------------------------------------------------------------
  // The invariant
  // ---------------------------------------------------------------------------

  /** The visited cells whose walkable neighbours have been pushed. */
  function Expanded(s: DfsState): set<nat> {
    if s.phase.Paused? then s.visited - {s.phase.node} else s.visited
  }

  /** Before the first pop only the start is stacked; afterwards the start is visited. */
  ghost predicate DfsShape(m: Maze, s: DfsState) {
    && s.start < |m.grid|
    && InRange(m, s)
    && (forall v | v in s.visited :: v < |m.grid|)
    && (s.phase.Paused? ==> s.phase.node in s.visited)
    && (s.visited == {} ==> s.stack == [(s.start, None)] && s.phase.Ready?)
    && (s.visited != {} ==> s.start in s.visited)
  }

  /** The predecessor map links exactly the visited cells other than the start. */
  ghost predicate DfsTree(m: Maze, s: DfsState)
    requires WellFormed(m)
  {
    && s.cameFrom.Keys == s.visited - {s.start}
    && PredecessorTree(m, s.start, s.cameFrom)
  }

  /** After the first pop every entry was pushed from a visited cell it is walkable from. */
  ghost predicate DfsEntries(m: Maze, s: DfsState)
    requires WellFormed(m)
  {
    s.visited != {} ==>
      forall k | 0 <= k < |s.stack| ::
        s.stack[k].1.Some? && s.stack[k].1.value in s.visited && Open(m, s.stack[k].1.value, s.stack[k].0)
  }

  /** Every walkable neighbour of an expanded cell is visited or stacked. */
  ghost predicate DfsFrontier(m: Maze, s: DfsState)
    requires WellFormed(m)
  {
    forall v, w | v in Expanded(s) && Open(m, v, w) :: w in s.visited || w in Nodes(s.stack)
  }

  /** The invariant of a running depth-first search; the goal is never expanded. */
  ghost predicate DfsInv(m: Maze, s: DfsState) {
    && WellFormed(m)
    && DfsShape(m, s)
    && DfsTree(m, s)
    && DfsEntries(m, s)
    && DfsFrontier(m, s)
    && s.goal !in Expanded(s)
  }

  /** The generator starts in a state satisfying the invariant. */
  lemma DfsStartInv(m: Maze, start: nat, goal: nat)
    requires WellFormed(m) && start < |m.grid|
    ensures DfsInv(m, DfsStart(start, goal))
  {
    PredecessorTreeEmpty(m, start);
  }

  /** Expanding a visited cell other than the goal keeps the invariant. */
  lemma DfsExpandInv(m: Maze, s: DfsState, x: nat, draw: nat -> nat)
    requires DfsInv(m, s) && s.phase == Paused(x) && x != s.goal
    ensures DfsInv(m, DfsExpand(m, s, x, draw))
  {
    var ns := Shuffle(Walkable(m, x), draw);
    ShuffledWalkable(m, x, draw);
    DfsExpandEntries(m, s, x, ns);
    DfsExpandFrontier(m, s, x, ns);
    var s' := DfsExpand(m, s, x, draw);
    assert DfsTree(m, s') by {
      assert s'.cameFrom == s.cameFrom && s'.visited == s.visited && s'.start == s.start;
    }
  }

  /** The shuffled walkable neighbours are exactly the cells walkable from `x`. */
  lemma ShuffledWalkable(m: Maze, x: nat, draw: nat -> nat)
    requires WellFormed(m) && x < |m.grid|
    ensures forall n :: n in Shuffle(Walkable(m, x), draw) <==> Open(m, x, n)
  {
    var ns := Shuffle(Walkable(m, x), draw);
    forall n ensures n in ns <==> n in Walkable(m, x) {
      assert n in ns <==> n in multiset(ns);
      assert n in Walkable(m, x) <==> n in multiset(Walkable(m, x));
    }
  }

  /** The entries pushed by an expansion come from the expanded cell. */
  lemma DfsExpandEntries(m: Maze, s: DfsState, x: nat, ns: seq<nat>)
    requires WellFormed(m) && DfsShape(m, s) && DfsEntries(m, s) && s.phase == Paused(x)
    requires forall n | n in ns :: n in Walkable(m, x)
    ensures var s' := s.(stack := PushUnvisited(s.stack, ns, s.visited, x), phase := Ready);
            DfsShape(m, s') && DfsEntries(m, s')
  {
    var stack' := PushUnvisited(s.stack, ns, s.visited, x);
    forall k | |s.stack| <= k < |stack'|
      ensures stack'[k].0 < |m.grid| && Open(m, x, stack'[k].0)
    {
      assert stack'[k].0 in Walkable(m, x);
    }
    forall k | 0 <= k < |s.stack|
      ensures stack'[k] == s.stack[k]
    {
      assert stack'[..|s.stack|][k] == stack'[k];
    }
  }

  /** After an expansion every walkable neighbour of the expanded cell is visited or stacked. */
  lemma DfsExpandFrontier(m: Maze, s: DfsState, x: nat, ns: seq<nat>)
    requires WellFormed(m) && DfsFrontier(m, s) && s.phase == Paused(x)
    requires forall w | Open(m, x, w) :: w in ns
    ensures var s' := s.(stack := PushUnvisited(s.stack, ns, s.visited, x), phase := Ready);
            DfsFrontier(m, s')
  {
    var stack' := PushUnvisited(s.stack, ns, s.visited, x);
    var s' := s.(stack := stack', phase := Ready);
    assert Nodes(s.stack) <= Nodes(stack') by {
      forall e | e in s.stack ensures e in stack' {
        assert e in stack'[..|s.stack|];
      }
    }
    forall v, w | v in Expanded(s') && Open(m, v, w)
      ensures w in s'.visited || w in Nodes(s'.stack)
    {
      if v == x && w !in s.visited {
        assert (w, Some(x)) in stack';
      }
    }
  }

  /** Resuming at the loop head with a visit keeps the invariant. */
  lemma DfsResumeInv(m: Maze, s: DfsState)
    requires DfsInv(m, s) && s.phase.Ready?
    ensures var r := DfsResume(s);
            r.0.Visit? ==> DfsInv(m, r.1)
  {
    var k := TopUnvisited(s.stack, s.visited);
    if k.Some? {
      DfsPopTree(m, s, k.value);
      DfsPopEntries(m, s, k.value);
      DfsPopFrontier(m, s, k.value);
    }
  }

  /** Settling the popped cell links it to the cell it was pushed from, if any. */
  lemma DfsPopTree(m: Maze, s: DfsState, k: nat)
    requires WellFormed(m) && DfsShape(m, s) && DfsTree(m, s) && DfsEntries(m, s) && s.phase.Ready?
    requires k < |s.stack| && s.stack[k].0 !in s.visited
    ensures var (n, parent) := s.stack[k];
            DfsTree(m, s.(visited := s.visited + {n},
                          cameFrom := if parent.Some? then s.cameFrom[n := parent.value] else s.cameFrom))
  {
    var (n, parent) := s.stack[k];
    if s.visited != {} {
      assert parent.Some? && parent.value in s.visited && Open(m, parent.value, n);
      SettleKeepsTree(m, s.start, s.visited, s.cameFrom, n, parent.value);
    } else {
      assert n == s.start && parent.None?;
    }
  }

  /** Popping down to an unvisited entry keeps the remaining entries and the shape. */
  lemma DfsPopEntries(m: Maze, s: DfsState, k: nat)
    requires WellFormed(m) && DfsShape(m, s) && DfsEntries(m, s) && s.phase.Ready?
    requires k < |s.stack| && s.stack[k].0 !in s.visited
    ensures var s' := s.(stack := s.stack[..k], visited := s.visited + {s.stack[k].0},
                         phase := Paused(s.stack[k].0));
            DfsShape(m, s') && DfsEntries(m, s')
  {
  }

  /** Popping down to an unvisited entry keeps every neighbour of an expanded cell visited or stacked. */
  lemma DfsPopFrontier(m: Maze, s: DfsState, k: nat)
    requires WellFormed(m) && DfsFrontier(m, s) && s.phase.Ready?
    requires k < |s.stack| && forall t | k < t < |s.stack| :: s.stack[t].0 in s.visited
    ensures var s' := s.(stack := s.stack[..k], visited := s.visited + {s.stack[k].0},
                         phase := Paused(s.stack[k].0));
            DfsFrontier(m, s')
  {
    var n := s.stack[k].0;
    var s' := s.(stack := s.stack[..k], visited := s.visited + {n}, phase := Paused(n));
    forall v, w | v in Expanded(s') && Open(m, v, w)
      ensures w in s'.visited || w in Nodes(s'.stack)
    {
      assert v in Expanded(s);
      if w !in s.visited {
        var e :| e in s.stack && e.0 == w;
        var t :| 0 <= t < |s.stack| && s.stack[t] == e;
        if t < k {
          assert e == s'.stack[t];
        }
      }
    }
  }

  /**
   When the stack runs out at the loop head, the visited cells form a closed
   set holding the start but not the goal, so no walk leads from start to goal.
   */
  lemma DfsNotFound(m: Maze, s: DfsState)
    requires DfsInv(m, s) && s.phase.Ready? && DfsResume(s).0.NotFound?
    ensures !Reachable(m, s.start, s.goal)
  {
    assert s.visited != {};
    assert Nodes(s.stack) <= s.visited by {
      forall e | e in s.stack ensures e.0 in s.visited {
        var t :| 0 <= t < |s.stack| && s.stack[t] == e;
      }
    }
    ExhaustedMeansUnreachable(m, s.visited, s.start, s.goal);
  }

  // ---------------------------------------------------------------------------
  // Properties of whole steps
  // ---------------------------------------------------------------------------

  /** Every step keeps the invariant until the search has finished. */
  lemma DfsNextInv(m: Maze, s: DfsState, draw: nat -> nat)
    requires DfsInv(m, s)
    ensures var r := DfsNext(m, s, draw);
            r.1.phase.Done? || DfsInv(m, r.1)
  {
    match s.phase
    case Done =>
    case Ready => DfsResumeInv(m, s);
    case Paused(x) =>
      if x != s.goal {
        DfsExpandInv(m, s, x, draw);
        DfsResumeInv(m, DfsExpand(m, s, x, draw));
      }
  }

  /**
   A reported path leads from the start to the goal: preceded by the start
   it is a walk ending at the goal, and it is empty exactly when the start
   is the goal.
   */
  lemma DfsFoundPath(m: Maze, s: DfsState, draw: nat -> nat)
    requires DfsInv(m, s) && DfsNext(m, s, draw).0.Found?
    ensures var p := DfsNext(m, s, draw).0.path;
            && s.start !in p
            && (s.goal == s.start <==> p == [])
            && (s.goal != s.start ==> |p| > 0 && IsWalk(m, [s.start] + p) && p[|p| - 1] == s.goal)
  {
    FoundPathIsWalk(m, s.start, s.goal, s.cameFrom);
  }

  /** `NotFound` is reported only when no walk leads from the start to the goal. */
  lemma DfsNotFoundUnreachable(m: Maze, s: DfsState, draw: nat -> nat)
    requires DfsInv(m, s) && DfsNext(m, s, draw).0.NotFound?
    ensures !Reachable(m, s.start, s.goal)
  {
    match s.phase
    case Ready => DfsNotFound(m, s);
    case Paused(x) =>
      DfsExpandInv(m, s, x, draw);
      DfsNotFound(m, DfsExpand(m, s, x, draw));
  }

  /**
   Resuming at the loop head writes at most one predecessor: the one of the
   cell it settles, which was not linked before, to a visited cell it is
   walkable from.
   */
  lemma DfsResumeWriteOnce(m: Maze, s: DfsState)
    requires WellFormed(m) && DfsEntries(m, s) && s.cameFrom.Keys <= s.visited
    requires s.visited == {} ==> s.stack == [(s.start, None)]
    ensures var r := DfsResume(s);
            && (forall k | k in s.cameFrom :: k in r.1.cameFrom && r.1.cameFrom[k] == s.cameFrom[k])
            && (forall k | k in r.1.cameFrom && k !in s.cameFrom ::
                  r.0.Visit? && k == r.0.node && r.1.cameFrom[k] in s.visited
                  && Open(m, r.1.cameFrom[k], k))
  {
    match TopUnvisited(s.stack, s.visited)
    case None =>
    case Some(k) =>
      var (n, parent) := s.stack[k];
      assert n !in s.cameFrom;
      if parent.Some? {
        assert parent.value in s.visited && Open(m, parent.value, n);
      }
  }

  /**
   Predecessors are written once: an existing entry never changes, and the
   only new entry is the cell a `Visit` settles, linked to a visited cell it is
   walkable from.
   */
  lemma DfsCameFromWriteOnce(m: Maze, s: DfsState, draw: nat -> nat)
    requires DfsInv(m, s)
    ensures var r := DfsNext(m, s, draw);
            && (forall k | k in s.cameFrom :: k in r.1.cameFrom && r.1.cameFrom[k] == s.cameFrom[k])
            && (forall k | k in r.1.cameFrom && k !in s.cameFrom ::
                  r.0.Visit? && k == r.0.node && r.1.cameFrom[k] in s.visited
                  && Open(m, r.1.cameFrom[k], k))
  {
    match s.phase
    case Done =>
    case Ready => DfsResumeWriteOnce(m, s);
    case Paused(x) =>
      if x != s.goal {
        DfsExpandInv(m, s, x, draw);
        DfsResumeWriteOnce(m, DfsExpand(m, s, x, draw));
      }
  }

  /** A running search has visited no more cells than the maze holds, so it reports at most that many visits. */
  lemma DfsVisitsBounded(m: Maze, s: DfsState)
    requires DfsInv(m, s)
    ensures |s.visited| <= |m.grid|
  {
    IndicesBound(s.visited, |m.grid|);
  }
}
