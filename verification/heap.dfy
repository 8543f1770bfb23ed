/**
 The binary heaps of the Dijkstra and A* searches (`heapq`), modelled as a
 sequence of entries from which a pop removes an entry that no other entry
 precedes in tuple order.
 */
module Heap {
  import opened Wrappers

  /** A heap entry: priority (a tentative distance or estimate), cell, and the cell it was reached from. */
  type Item = (nat, nat, Option<nat>)

  /** `a` comes out of the heap no later than `b`: tuples compare by priority, then by cell. */
  predicate Precedes(a: Item, b: Item) {
    a.0 < b.0 || (a.0 == b.0 && a.1 <= b.1)
  }

  /** The position of an entry that `heappop` returns: one no other entry precedes. */
  function MinIndex(heap: seq<Item>): (i: nat)
    requires |heap| > 0
    ensures i < |heap|
    ensures forall j | 0 <= j < |heap| :: Precedes(heap[i], heap[j])
    ensures forall e | e in heap :: Precedes(heap[i], e)
  {
    if |heap| == 1 then 0
    else
      var j := MinIndex(heap[1..]) + 1;
      assert forall t | 1 <= t < |heap| :: heap[t] == heap[1..][t - 1];
      if Precedes(heap[0], heap[j]) then 0 else j
  }

  /** The heap without its entry at position `i`. */
  function Remove(heap: seq<Item>, i: nat): (rest: seq<Item>)
    requires i < |heap|
    ensures |rest| == |heap| - 1
    ensures forall t | 0 <= t < |heap| && t != i :: heap[t] in rest
    ensures forall e | e in rest :: e in heap
    ensures forall e | e in heap && e != heap[i] :: e in rest
    ensures multiset(rest) == multiset(heap) - multiset{heap[i]}
  {
    var rest := heap[..i] + heap[i + 1..];
    assert forall t | 0 <= t < |heap| && t != i :: heap[t] == if t < i then rest[t] else rest[t - 1];
    assert heap == heap[..i] + [heap[i]] + heap[i + 1..];
    rest
  }

  /** The heap holds an entry for `n` at distance `k`. */
  ghost predicate HasEntry(heap: seq<Item>, k: nat, n: nat) {
    exists e | e in heap :: e.0 == k && e.1 == n
  }

  /** No two entries share their distance and cell, so `heappop` never compares parents. */
  ghost predicate EntriesUnique(heap: seq<Item>) {
    forall i, j | 0 <= i < j < |heap| :: heap[i].0 != heap[j].0 || heap[i].1 != heap[j].1
  }

  /** Removing an entry keeps the remaining entries unique. */
  lemma UniqueRemove(heap: seq<Item>, i: nat)
    requires i < |heap| && EntriesUnique(heap)
    ensures EntriesUnique(Remove(heap, i))
  {
    var rest := Remove(heap, i);
    assert rest == heap[..i] + heap[i + 1..];
    forall a, b | 0 <= a < b < |rest| ensures rest[a].0 != rest[b].0 || rest[a].1 != rest[b].1 {
      var a' := if a < i then a else a + 1;
      var b' := if b < i then b else b + 1;
      assert rest[a] == heap[a'] && rest[b] == heap[b'];
    }
  }
}
