/** The part of Python's `heapq` that does not depend on the element
    order: a heap is kept as the sequence of its entries, and `heappop`
    removes the entry at the position of a least element. */
module Heap {

  /** The heap without the entry at position i. */
  function RemoveAt<T>(h: seq<T>, i: nat): (r: seq<T>)
    requires i < |h|
    ensures |r| == |h| - 1
    ensures multiset(r) == multiset(h) - multiset{h[i]}
  {
    assert h == h[..i] + [h[i]] + h[i + 1..];
    h[..i] + h[i + 1..]
  }

  /** The heap is the entries before position i, the entry at i, and
      the entries after it; removing i leaves the two outer parts. */
  lemma SplitAt<T>(h: seq<T>, i: nat)
    requires i < |h|
    ensures h == (h[..i] + [h[i]]) + h[i + 1..]
    ensures RemoveAt(h, i) == h[..i] + h[i + 1..]
  {
  }

  /** Removing one entry keeps every other entry. */
  lemma RemoveAtKeeps<T>(h: seq<T>, i: nat, d: T)
    requires i < |h| && d in h && d != h[i]
    ensures d in RemoveAt(h, i)
  {
    assert d in multiset(h);
    assert d in multiset(RemoveAt(h, i));
  }

  /** Whatever survives a removal was there before. */
  lemma RemoveAtFrom<T>(h: seq<T>, i: nat, d: T)
    requires i < |h| && d in RemoveAt(h, i)
    ensures d in h
  {
    assert d in multiset(RemoveAt(h, i));
  }

  /** The heap's entries are the entry at i and those that remain. */
  lemma RemoveAtBag<T>(h: seq<T>, i: nat)
    requires i < |h|
    ensures multiset(h) == multiset(RemoveAt(h, i)) + multiset{h[i]}
  {
    assert h[i] in multiset(h);
  }

  /** A sequence's entries are its first entry and the rest. */
  lemma ConsBag<T>(h: seq<T>)
    requires |h| > 0
    ensures multiset(h) == multiset{h[0]} + multiset(h[1..])
  {
    assert h == [h[0]] + h[1..];
  }

  /** Adding and then taking away one copy of x gives the bag back. */
  lemma AddTake<T>(m: multiset<T>, x: T)
    ensures (multiset{x} + m) - multiset{x} == m
  {
  }
}
