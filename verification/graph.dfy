/**
 The walkable-graph view of a maze: two cells are adjacent when they are grid
 neighbours and the wall between them is open (`cell_neighbors_walkable`),
 together with walks, connectivity and the set of open passages.
 */
module Graph {
  import opened Wrappers
  import opened Grid

  /** Cells `a` and `b` are grid neighbours and the wall on `a`'s side facing `b` is open. */
  ghost predicate Open(m: Maze, a: nat, b: nat)
    requires WellFormed(m)
  {
    && a < |m.grid| && b < |m.grid|
    && DirectionTo(m, a, b) < Directions
    && !m.grid[a].walls[DirectionTo(m, a, b)]
  }

  /** The walkable neighbours of cell `i` through directions `d` .. 3. */
  function WalkableFrom(m: Maze, i: nat, d: nat): (res: seq<nat>)
    requires WellFormed(m) && i < |m.grid| && d <= Directions
    ensures forall k | 0 <= k < |res| ::
              res[k] < |m.grid| && Open(m, i, res[k]) && d <= DirectionTo(m, i, res[k])
    ensures forall e | d <= e < Directions && !m.grid[i].walls[e] && Neighbor(m, i, e).Some? ::
              Neighbor(m, i, e).value in res
    decreases Directions - d
  {
    if d == Directions then []
    else
      var rest := WalkableFrom(m, i, d + 1);
      if !m.grid[i].walls[d] then
        match Neighbor(m, i, d)
        case Some(j) => [j] + rest
        case None => rest
      else rest
  }

  /** The walkable neighbours come in strictly increasing direction order. */
  lemma {:induction false} WalkableFromOrdered(m: Maze, i: nat, d: nat)
    requires WellFormed(m) && i < |m.grid| && d <= Directions
    ensures TowardIncreasing(m, i, WalkableFrom(m, i, d))
    decreases Directions - d
  {
    if d < Directions {
      WalkableFromOrdered(m, i, d + 1);
      var rest := WalkableFrom(m, i, d + 1);
      var res := WalkableFrom(m, i, d);
      if !m.grid[i].walls[d] && Neighbor(m, i, d).Some? {
        var j := Neighbor(m, i, d).value;
        assert res == [j] + rest;
        ConsIncreasing(m, i, j, rest);
      }
    }
  }

  /** Prepending a cell whose direction precedes all others keeps directions increasing. */
  lemma ConsIncreasing(m: Maze, i: nat, j: nat, rest: seq<nat>)
    requires WellFormed(m) && i < |m.grid| && j < |m.grid|
    requires forall k | 0 <= k < |rest| :: rest[k] < |m.grid| && DirectionTo(m, i, j) < DirectionTo(m, i, rest[k])
    requires TowardIncreasing(m, i, rest)
    ensures TowardIncreasing(m, i, [j] + rest)
  {
    var res := [j] + rest;
    forall k, l | 0 <= k < l < |res|
      ensures DirectionTo(m, i, res[k]) < DirectionTo(m, i, res[l])
    {
      assert res[l] == rest[l - 1];
      if k > 0 {
        assert res[k] == rest[k - 1];
      }
    }
  }

  /** The directions from cell `i` to the members of `res` strictly increase. */
  ghost predicate TowardIncreasing(m: Maze, i: nat, res: seq<nat>)
    requires WellFormed(m) && i < |m.grid|
  {
    forall k, l | 0 <= k < l < |res| ::
      res[k] < |m.grid| && res[l] < |m.grid| && DirectionTo(m, i, res[k]) < DirectionTo(m, i, res[l])
  }

  /**
   The cells reachable from cell `i` in one step: for each direction in the
   order up, right, down, left, the neighbour on that side when its wall is
   open and it lies inside the grid.
   */
  function Walkable(m: Maze, i: nat): (res: seq<nat>)
    requires WellFormed(m) && i < |m.grid|
    ensures |res| <= Directions
    ensures forall k | 0 <= k < |res| :: res[k] < |m.grid|
    ensures forall j :: j in res <==> Open(m, i, j)
    ensures TowardIncreasing(m, i, res)
  {
    var res := WalkableFrom(m, i, 0);
    WalkableFromOrdered(m, i, 0);
    OrderedBoundLength(m, i, res);
    res
  }

  /** Strictly increasing directions bound the number of walkable neighbours by four. */
  lemma OrderedBoundLength(m: Maze, i: nat, res: seq<nat>)
    requires WellFormed(m) && i < |m.grid|
    requires forall k | 0 <= k < |res| :: res[k] < |m.grid| && DirectionTo(m, i, res[k]) < Directions
    requires TowardIncreasing(m, i, res)
    ensures |res| <= Directions
  {
    if |res| > 0 {
      OrderedFromIndex(m, i, res, |res| - 1);
    }
  }

  lemma OrderedFromIndex(m: Maze, i: nat, res: seq<nat>, k: nat)
    requires WellFormed(m) && i < |m.grid| && k < |res|
    requires forall k | 0 <= k < |res| :: res[k] < |m.grid|
    requires TowardIncreasing(m, i, res)
    ensures DirectionTo(m, i, res[k]) >= k
  {
    if k > 0 {
      OrderedFromIndex(m, i, res, k - 1);
    }
  }

  /** The wall flags of every pair of grid neighbours agree on the side they share. */
  ghost predicate WallsSymmetric(m: Maze)
    requires WellFormed(m)
  {
    forall i, d | 0 <= i < |m.grid| && 0 <= d < Directions && Neighbor(m, i, d).Some? ::
      m.grid[i].walls[d] == m.grid[Neighbor(m, i, d).value].walls[Opposite(d)]
  }

  /** With symmetric walls the walkable relation is symmetric. */
  lemma WalkableSymmetric(m: Maze, i: nat, j: nat)
    requires WellFormed(m) && WallsSymmetric(m)
    requires i < |m.grid| && j < |m.grid|
    ensures Open(m, i, j) <==> Open(m, j, i)
  {
    if Open(m, i, j) {
      NeighborOpposite(m, i, DirectionTo(m, i, j));
    }
    if Open(m, j, i) {
      NeighborOpposite(m, j, DirectionTo(m, j, i));
    }
  }

  // ---------------------------------------------------------------------------
  // Walks and connectivity
  // ---------------------------------------------------------------------------

  /** `p` is a non-empty sequence of cells, each walkable from the one before. */
  ghost predicate IsWalk(m: Maze, p: seq<nat>)
    requires WellFormed(m)
  {
    && |p| >= 1
    && (forall t | 0 <= t < |p| :: p[t] < |m.grid|)
    && (forall t | 0 <= t < |p| - 1 :: Open(m, p[t], p[t + 1]))
  }

  /** Some walk leads from `a` to `b`. */
  ghost predicate Reachable(m: Maze, a: nat, b: nat)
    requires WellFormed(m)
  {
    exists p :: IsWalk(m, p) && p[0] == a && p[|p| - 1] == b
  }

  /** No walk from `a` to `v` has fewer than `len` steps. */
  ghost predicate NoShorterWalk(m: Maze, a: nat, v: nat, len: nat)
    requires WellFormed(m)
  {
    forall p | IsWalk(m, p) && p[0] == a && p[|p| - 1] == v :: |p| - 1 >= len
  }

  /** Every walkable neighbour of a cell of `expanded` has a distance at most one more. */
  ghost predicate FrontierOver(m: Maze, expanded: set<nat>, g: map<nat, nat>)
    requires WellFormed(m)
  {
    forall v, w | v in expanded && Open(m, v, w) :: v in g && w in g && g[w] <= g[v] + 1
  }

  /** After relaxing, every walkable neighbour of `x` has a distance at most one above `x`'s. */
  lemma RelaxKeepsFrontier(m: Maze, closed: set<nat>, x: nat, g: map<nat, nat>,
                           ns: seq<nat>, tg: nat, g': map<nat, nat>)
    requires WellFormed(m) && FrontierOver(m, closed - {x}, g)
    requires x in closed && x in g && tg == g[x] + 1
    requires forall v | v in closed :: v in g && v in g' && g'[v] == g[v]
    requires forall n | n in g :: n in g' && g'[n] <= g[n]
    requires forall w | Open(m, x, w) :: w in ns
    requires forall n | n in ns :: n in g' && g'[n] <= tg
    ensures FrontierOver(m, closed, g')
  {
    forall v, w | v in closed && Open(m, v, w) ensures v in g' && w in g' && g'[w] <= g'[v] + 1 {
      if v != x {
        assert v in closed - {x};
      }
    }
  }

  /** A walk from `a` to `v` is at least as long as a bound no walk beats. */
  lemma WalkAtLeast(m: Maze, a: nat, v: nat, len: nat, p: seq<nat>)
    requires WellFormed(m) && NoShorterWalk(m, a, v, len)
    requires IsWalk(m, p) && p[0] == a && p[|p| - 1] == v
    ensures |p| - 1 >= len
  {
  }

  /** A walk leaving a set of cells has a step from inside the set to outside it. */
  lemma {:induction false} ExitStep(p: seq<nat>, inside: set<nat>) returns (j: nat)
    requires |p| > 0 && p[0] in inside && p[|p| - 1] !in inside
    ensures j + 1 < |p| && p[j] in inside && p[j + 1] !in inside
    decreases |p|
  {
    if p[1] !in inside {
      j := 0;
    } else {
      var j' := ExitStep(p[1..], inside);
      j := j' + 1;
      assert p[j] == p[1..][j'] && p[j + 1] == p[1..][j' + 1];
    }
  }

  /** A prefix of a walk is a walk. */
  lemma WalkPrefix(m: Maze, p: seq<nat>, j: nat)
    requires WellFormed(m) && IsWalk(m, p) && j < |p|
    ensures IsWalk(m, p[..j + 1])
  {
    var q := p[..j + 1];
    forall t | 0 <= t < |q| - 1 ensures Open(m, q[t], q[t + 1]) {
      assert q[t] == p[t] && q[t + 1] == p[t + 1];
    }
  }

  /** A suffix of a walk is a walk. */
  lemma WalkSuffix(m: Maze, p: seq<nat>, j: nat)
    requires WellFormed(m) && IsWalk(m, p) && j < |p|
    ensures IsWalk(m, p[j..])
  {
    var q := p[j..];
    forall t | 0 <= t < |q| - 1 ensures Open(m, q[t], q[t + 1]) {
      assert q[t] == p[j + t] && q[t + 1] == p[j + t + 1];
    }
  }

  /** Every cell can be reached from every other cell. */
  ghost predicate Connected(m: Maze)
    requires WellFormed(m)
  {
    forall a, b | 0 <= a < |m.grid| && 0 <= b < |m.grid| :: Reachable(m, a, b)
  }

  /** A walk extended by a walkable step is a walk. */
  lemma WalkExtend(m: Maze, p: seq<nat>, v: nat)
    requires WellFormed(m) && IsWalk(m, p)
    requires Open(m, p[|p| - 1], v)
    ensures IsWalk(m, p + [v])
  {
  }

  /** Two walks that meet join into one. */
  lemma WalkJoin(m: Maze, p: seq<nat>, q: seq<nat>)
    requires WellFormed(m) && IsWalk(m, p) && IsWalk(m, q)
    requires p[|p| - 1] == q[0]
    ensures IsWalk(m, p + q[1..])
    ensures (p + q[1..])[0] == p[0]
    ensures (p + q[1..])[|p + q[1..]| - 1] == q[|q| - 1]
  {
    var w := p + q[1..];
    forall t | 0 <= t < |w| - 1
      ensures Open(m, w[t], w[t + 1])
    {
      if t < |p| - 1 {
      } else {
        assert w[t] == q[t - |p| + 1] && w[t + 1] == q[t - |p| + 2];
      }
    }
  }

  /** The reverse of a walk in a maze with symmetric walls is a walk. */
  lemma WalkReverse(m: Maze, p: seq<nat>) returns (q: seq<nat>)
    requires WellFormed(m) && WallsSymmetric(m) && IsWalk(m, p)
    ensures IsWalk(m, q) && |q| == |p|
    ensures q[0] == p[|p| - 1] && q[|q| - 1] == p[0]
  {
    q := seq(|p|, t requires 0 <= t < |p| => p[|p| - 1 - t]);
    forall t | 0 <= t < |q| - 1
      ensures Open(m, q[t], q[t + 1])
    {
      var s := |p| - 2 - t;
      assert q[t] == p[s + 1] && q[t + 1] == p[s];
      WalkableSymmetric(m, p[s], p[s + 1]);
    }
  }

  /** If every cell is reachable from cell 0 and walls are symmetric, the maze is connected. */
  lemma {:induction false} ConnectedFromRoot(m: Maze)
    requires WellFormed(m) && WallsSymmetric(m)
    requires forall v | 0 <= v < |m.grid| :: Reachable(m, 0, v)
    ensures Connected(m)
  {
    forall a, b | 0 <= a < |m.grid| && 0 <= b < |m.grid|
      ensures Reachable(m, a, b)
    {
      assert Reachable(m, 0, a) && Reachable(m, 0, b);
      var pa :| IsWalk(m, pa) && pa[0] == 0 && pa[|pa| - 1] == a;
      var pb :| IsWalk(m, pb) && pb[0] == 0 && pb[|pb| - 1] == b;
      var ra := WalkReverse(m, pa);
      WalkJoin(m, ra, pb);
    }
  }

  // ---------------------------------------------------------------------------
  // Open passages
  // ---------------------------------------------------------------------------

  /** The open passages, each named once as the pair (lower index, higher index). */
  ghost function Passages(m: Maze): set<(nat, nat)>
    requires WellFormed(m)
  {
    set a: nat, b: nat | 0 <= a < b < |m.grid| && Open(m, a, b) :: (a, b)
  }
}
