/**
 What the step-wise searches have in common: the events a search emits and
 where its generator stands between two events.
 */
module Search {
  import opened Wrappers

  /**
   One event of a search. `Visit` reports a newly settled cell with the
   search's visited set and predecessor map at that moment; `Found` carries
   the reconstructed path; `Stop` is what a search that already reported
   `Found` or `NotFound` gives when asked again (the generator has ended).
   */
  datatype Event =
    | Visit(node: nat, visited: set<nat>, cameFrom: map<nat, nat>)
    | Found(path: seq<nat>)
    | NotFound
    | Stop

  /**
   Where the generator is suspended: at the head of its main loop (`Ready`,
   which is also where it starts), just after reporting the visit of `node`
   (`Paused`), or finished (`Done`).
   */
  datatype Phase = Ready | Paused(node: nat) | Done

  /**
   A frontier entry: a cell and the cell whose expansion added it (none for
   the start).
   */
  type Entry = (nat, Option<nat>)

  /** The cells named by the entries. */
  ghost function Nodes(entries: seq<Entry>): set<nat> {
    set e | e in entries :: e.0
  }

  /** Positions in the tail `xs[1..]` of a sequence, renumbered as positions in `xs`. */
  function Shift(pos: seq<nat>): (r: seq<nat>)
    ensures |r| == |pos|
    ensures forall t | 0 <= t < |pos| :: r[t] == pos[t] + 1
  {
    if pos == [] then [] else [pos[0] + 1] + Shift(pos[1..])
  }

  /** The positions strictly increase. */
  ghost predicate Increasing(pos: seq<nat>) {
    forall t, u | 0 <= t < u < |pos| :: pos[t] < pos[u]
  }

  /** Renumbering keeps increasing positions increasing, also behind a leading `0`. */
  lemma ShiftIncreasing(pos: seq<nat>)
    requires Increasing(pos)
    ensures Increasing(Shift(pos)) && Increasing([0] + Shift(pos))
  {
    var p := [0] + Shift(pos);
    forall t, u | 0 <= t < u < |p| ensures p[t] < p[u] {
      if t > 0 {
        assert p[t] == pos[t - 1] + 1 && p[u] == pos[u - 1] + 1;
      }
    }
  }

  /** A position of the tail, renumbered, is a position of the whole. */
  lemma ShiftMember(pos: seq<nat>, k: nat)
    requires 0 < k && k - 1 in pos
    ensures k in Shift(pos) && k in [0] + Shift(pos)
  {
    var t :| 0 <= t < |pos| && pos[t] == k - 1;
    assert Shift(pos)[t] == k;
    assert ([0] + Shift(pos))[t + 1] == k;
  }

  /**
   Past its first `base` entries, `res` holds the `t`-th new entry, for the
   cell at position `pos[t]` of `ns`, which is not in `visited`, with parent
   `node`.
   */
  ghost predicate NewEntries(base: nat, ns: seq<nat>, visited: set<nat>, node: nat, res: seq<Entry>, pos: seq<nat>) {
    && base + |pos| == |res|
    && forall t | 0 <= t < |pos| ::
         pos[t] < |ns| && ns[pos[t]] !in visited && res[base + t] == (ns[pos[t]], Some(node))
  }

  /** Past a visited first cell, the positions of the tail's entries move up by one. */
  lemma NewEntriesSkip(base: nat, ns: seq<nat>, visited: set<nat>, visited': set<nat>, node: nat,
                       res: seq<Entry>, rest: seq<nat>)
    requires ns != [] && visited <= visited'
    requires NewEntries(base, ns[1..], visited', node, res, rest)
    ensures NewEntries(base, ns, visited, node, res, Shift(rest))
  {
    var pos := Shift(rest);
    forall t | 0 <= t < |pos|
      ensures pos[t] < |ns| && ns[pos[t]] !in visited && res[base + t] == (ns[pos[t]], Some(node))
    {
      assert ns[pos[t]] == ns[1..][rest[t]];
    }
  }

  /** An added first cell takes position `0`, ahead of the tail's entries. */
  lemma NewEntriesKeep(base: nat, ns: seq<nat>, visited: set<nat>, visited': set<nat>, node: nat,
                       res: seq<Entry>, rest: seq<nat>)
    requires ns != [] && ns[0] !in visited && visited <= visited'
    requires base < |res| && res[base] == (ns[0], Some(node))
    requires NewEntries(base + 1, ns[1..], visited', node, res, rest)
    ensures NewEntries(base, ns, visited, node, res, [0] + Shift(rest))
  {
    var pos := [0] + Shift(rest);
    forall t | 1 <= t < |pos|
      ensures pos[t] < |ns| && ns[pos[t]] !in visited && res[base + t] == (ns[pos[t]], Some(node))
    {
      assert pos[t] == rest[t - 1] + 1 && ns[pos[t]] == ns[1..][rest[t - 1]];
      assert res[base + t] == res[(base + 1) + (t - 1)];
    }
  }
}
