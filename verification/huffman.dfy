/** Huffman coding (src/huffman.py): counting character frequencies,
    building the code tree by repeatedly merging two least-frequent trees,
    reading the codes off the root-to-leaf paths, and the bit counts of the
    original and of the encoded text. */
module Huffman {
  import opened Options
  import opened Heap

  // ---------------------------------------------------------------------
  // Frequency tables

  /** A frequency table as Python's insertion-ordered dict: (character,
      count) pairs, one per character. */
  type Table = seq<(char, int)>

  /** The characters a table has an entry for. */
  function Keys(fs: Table): set<char>
  {
    set k | 0 <= k < |fs| :: fs[k].0
  }

  predicate DistinctKeys(fs: Table)
  {
    forall i, j :: 0 <= i < j < |fs| ==> fs[i].0 != fs[j].0
  }

  /** The sum of the counts. */
  function Sum(fs: Table): int
  {
    if |fs| == 0 then 0 else fs[0].1 + Sum(fs[1..])
  }

  lemma SumAppend(a: Table, b: Table)
    ensures Sum(a + b) == Sum(a) + Sum(b)
  {
    SumWeighted(a);
    SumWeighted(b);
    SumWeighted(a + b);
    WeightedAppend(a, b, One);
  }

  /** The count of c, or 0 when c has no entry (the dict's get(c, 0)). */
  function Lookup(fs: Table, c: char): int
  {
    if |fs| == 0 then 0
    else if fs[0].0 == c then fs[0].1
    else Lookup(fs[1..], c)
  }

  /** The position of c's entry, or |fs| when there is none. */
  function IndexOf(fs: Table, c: char): (k: nat)
    ensures k <= |fs|
    ensures k < |fs| ==> fs[k].0 == c
    ensures forall j :: 0 <= j < k ==> fs[j].0 != c
  {
    if |fs| == 0 then 0
    else if fs[0].0 == c then 0
    else 1 + IndexOf(fs[1..], c)
  }

  /** In a table with one entry per character, Lookup finds that entry. */
  lemma {:induction false} LookupAt(fs: Table, k: nat)
    requires DistinctKeys(fs) && k < |fs|
    ensures Lookup(fs, fs[k].0) == fs[k].1
    decreases k
  {
    if k > 0 {
      LookupAt(fs[1..], k - 1);
    }
  }

  lemma {:induction false} LookupAbsent(fs: Table, c: char)
    requires c !in Keys(fs)
    ensures Lookup(fs, c) == 0
    decreases |fs|
  {
    if |fs| > 0 {
      assert fs[0].0 == fs[0].0;
      assert Keys(fs[1..]) <= Keys(fs) by {
        forall x | x in Keys(fs[1..]) ensures x in Keys(fs) {
          var k :| 0 <= k < |fs[1..]| && fs[1..][k].0 == x;
          assert fs[k + 1].0 == x;
        }
      }
      LookupAbsent(fs[1..], c);
    }
  }

  /** Lookup of c in fs with entry k changed, when that entry is not c's. */
  lemma {:induction false} LookupUpdateOther(fs: Table, k: nat, v: (char, int), c: char)
    requires k < |fs| && fs[k].0 != c && v.0 != c
    ensures Lookup(fs[k := v], c) == Lookup(fs, c)
    decreases k
  {
    if k > 0 {
      assert fs[k := v][1..] == fs[1..][k - 1 := v];
      LookupUpdateOther(fs[1..], k - 1, v, c);
    }
  }

  lemma {:induction false} LookupSnoc(fs: Table, v: (char, int), c: char)
    ensures Lookup(fs + [v], c) == if c in Keys(fs) then Lookup(fs, c) else if v.0 == c then v.1 else 0
    decreases |fs|
  {
    if |fs| == 0 {
      assert Keys(fs) == {};
    } else {
      assert (fs + [v])[1..] == fs[1..] + [v];
      LookupSnoc(fs[1..], v, c);
      assert Keys(fs) == {fs[0].0} + Keys(fs[1..]) by {
        forall x | x in Keys(fs) ensures x in {fs[0].0} + Keys(fs[1..]) {
          var k :| 0 <= k < |fs| && fs[k].0 == x;
          if k > 0 {
            assert fs[1..][k - 1].0 == x;
          }
        }
        forall x | x in Keys(fs[1..]) ensures x in Keys(fs) {
          var k :| 0 <= k < |fs[1..]| && fs[1..][k].0 == x;
          assert fs[k + 1].0 == x;
        }
      }
    }
  }

  /** Counting one more occurrence of c (Counter's update for one
      character): c's count grows by one, or a new character goes last
      with count 1. BumpKeys and BumpLookup state the effect. */
  function Bump(fs: Table, c: char): (r: Table)
    requires DistinctKeys(fs)
    ensures DistinctKeys(r)
    ensures |r| == |fs| || |r| == |fs| + 1
    ensures (forall k :: 0 <= k < |fs| ==> fs[k].1 > 0) ==> forall k :: 0 <= k < |r| ==> r[k].1 > 0
  {
    var k := IndexOf(fs, c);
    if k < |fs| then fs[k := (c, fs[k].1 + 1)] else fs + [(c, 1)]
  }

  /** Bump adds c to the keys and no other. */
  lemma BumpKeys(fs: Table, c: char)
    requires DistinctKeys(fs)
    ensures Keys(Bump(fs, c)) == Keys(fs) + {c}
  {
    var k := IndexOf(fs, c);
    var r := Bump(fs, c);
    if k < |fs| {
      assert forall j :: 0 <= j < |fs| ==> r[j].0 == fs[j].0;
    } else {
      assert forall j :: 0 <= j < |fs| ==> r[j] == fs[j];
      assert r[|fs|].0 == c;
    }
  }

  /** Bump adds one to c's count and leaves every other count alone. */
  lemma BumpLookup(fs: Table, c: char)
    requires DistinctKeys(fs)
    ensures forall x :: Lookup(Bump(fs, c), x) == Lookup(fs, x) + (if x == c then 1 else 0)
  {
    var k := IndexOf(fs, c);
    var r := Bump(fs, c);
    if k < |fs| {
      forall x ensures Lookup(r, x) == Lookup(fs, x) + (if x == c then 1 else 0) {
        if x == c {
          LookupAt(fs, k);
          LookupAt(r, k);
        } else {
          LookupUpdateOther(fs, k, (c, fs[k].1 + 1), x);
        }
      }
    } else {
      assert c !in Keys(fs);
      forall x ensures Lookup(r, x) == Lookup(fs, x) + (if x == c then 1 else 0) {
        LookupSnoc(fs, (c, 1), x);
        if x !in Keys(fs) {
          LookupAbsent(fs, x);
        }
      }
    }
  }

  /** The table of the first n characters of text. */
  function Tally(text: string, n: nat): (r: Table)
    requires n <= |text|
    ensures DistinctKeys(r)
    ensures forall k :: 0 <= k < |r| ==> r[k].1 > 0
  {
    if n == 0 then [] else Bump(Tally(text, n - 1), text[n - 1])
  }

  /** Tally has an entry for exactly the characters of the prefix. */
  lemma {:induction false} TallyKeys(text: string, n: nat)
    requires n <= |text|
    ensures Keys(Tally(text, n)) == set i | 0 <= i < n :: text[i]
  {
    if n > 0 {
      TallyKeys(text, n - 1);
      BumpKeys(Tally(text, n - 1), text[n - 1]);
      var before := set i | 0 <= i < n - 1 :: text[i];
      var after := set i | 0 <= i < n :: text[i];
      assert after == before + {text[n - 1]} by {
        forall x | x in after ensures x in before + {text[n - 1]} {
          var i :| 0 <= i < n && text[i] == x;
          if i < n - 1 {
            assert x in before;
          }
        }
      }
    }
  }

  /** Tally counts exactly the occurrences in the prefix. */
  lemma {:induction false} TallyCounts(text: string, n: nat)
    requires n <= |text|
    ensures forall x :: Lookup(Tally(text, n), x) == multiset(text[..n])[x]
  {
    if n > 0 {
      TallyCounts(text, n - 1);
      BumpLookup(Tally(text, n - 1), text[n - 1]);
      assert text[..n] == text[..n - 1] + [text[n - 1]];
      assert multiset(text[..n]) == multiset(text[..n - 1]) + multiset{text[n - 1]};
    }
  }

  /** The counts of the prefix's table add up to its length. */
  lemma {:induction false} TallySum(text: string, n: nat)
    requires n <= |text|
    ensures Sum(Tally(text, n)) == n
  {
    SumWeighted(Tally(text, n));
    if n > 0 {
      TallySum(text, n - 1);
      SumWeighted(Tally(text, n - 1));
      WeightedBump(Tally(text, n - 1), text[n - 1], One);
    }
  }

  /** calcular_frecuencias (huffman.py:52-64): the characters of text, in
      order of first occurrence, each with its number of occurrences. */
  function Frequencies(text: string): (r: Table)
    ensures DistinctKeys(r)
    ensures forall k :: 0 <= k < |r| ==> r[k].1 > 0
  {
    Tally(text, |text|)
  }

  /** The table has an entry exactly for the characters of text, with
      their occurrence counts, and the counts add up to the length. */
  lemma FrequenciesCount(text: string)
    ensures forall c :: c in Keys(Frequencies(text)) <==> c in text
    ensures forall k :: 0 <= k < |Frequencies(text)| ==>
      Frequencies(text)[k].1 == multiset(text)[Frequencies(text)[k].0]
    ensures forall c :: Lookup(Frequencies(text), c) == multiset(text)[c]
    ensures Sum(Frequencies(text)) == |text|
  {
    TallyKeys(text, |text|);
    TallyCounts(text, |text|);
    TallySum(text, |text|);
    assert text[..|text|] == text;
    var r := Frequencies(text);
    forall k | 0 <= k < |r| ensures r[k].1 == multiset(text)[r[k].0] {
      LookupAt(r, k);
    }
    forall c ensures c in Keys(r) <==> c in text {
      if c in text {
        var i :| 0 <= i < |text| && text[i] == c;
      }
    }
  }

  /** The entries' counts, each scaled by a weight that depends on the
      character: the sum over a table that bits_comprimido computes. */
  function Weighted(fs: Table, w: char -> int): int
  {
    if |fs| == 0 then 0 else w(fs[0].0) * fs[0].1 + Weighted(fs[1..], w)
  }

  lemma {:induction false} WeightedAppend(a: Table, b: Table, w: char -> int)
    ensures Weighted(a + b, w) == Weighted(a, w) + Weighted(b, w)
    decreases |a|
  {
    if |a| > 0 {
      assert (a + b)[0] == a[0];
      assert (a + b)[1..] == a[1..] + b;
      WeightedAppend(a[1..], b, w);
    } else {
      assert a + b == b;
    }
  }

  lemma {:induction false} WeightedUpdate(fs: Table, k: nat, v: (char, int), w: char -> int)
    requires k < |fs|
    ensures Weighted(fs[k := v], w) == Weighted(fs, w) - w(fs[k].0) * fs[k].1 + w(v.0) * v.1
    decreases k
  {
    if k > 0 {
      assert fs[k := v][1..] == fs[1..][k - 1 := v];
      WeightedUpdate(fs[1..], k - 1, v, w);
    }
  }

  /** One more occurrence of c adds c's weight. */
  lemma WeightedBump(fs: Table, c: char, w: char -> int)
    requires DistinctKeys(fs)
    ensures Weighted(Bump(fs, c), w) == Weighted(fs, w) + w(c)
  {
    var k := IndexOf(fs, c);
    if k < |fs| {
      var n, wc := fs[k].1, w(c);
      assert Bump(fs, c) == fs[k := (c, n + 1)];
      WeightedUpdate(fs, k, (c, n + 1), w);
      MulSucc(wc, n);
    } else {
      assert Bump(fs, c) == fs + [(c, 1)];
      WeightedAppend(fs, [(c, 1)], w);
      assert Weighted([(c, 1)], w) == w(c);
    }
  }

  /** Tables with the same entries, in any order, have the same weighted
      sum: the order a dict hands out its items does not matter. */
  lemma {:induction false} WeightedPerm(a: Table, b: Table, w: char -> int)
    requires multiset(a) == multiset(b)
    ensures Weighted(a, w) == Weighted(b, w)
    decreases |a|
  {
    if |a| == 0 {
      assert |multiset(b)| == 0;
    } else {
      var x := a[0];
      assert x in multiset(b);
      var j :| 0 <= j < |b| && b[j] == x;
      assert a == [x] + a[1..];
      assert multiset(a[1..]) == multiset(a) - multiset{x};
      WeightedPerm(a[1..], RemoveAt(b, j), w);
      WeightedRemoveAt(b, j, w);
    }
  }

  /** Taking out one entry takes out its weighted count. */
  lemma WeightedRemoveAt(b: Table, j: nat, w: char -> int)
    requires j < |b|
    ensures Weighted(b, w) == Weighted(RemoveAt(b, j), w) + w(b[j].0) * b[j].1
  {
    var p, x, q := b[..j], b[j], b[j + 1..];
    SplitAt(b, j);
    WeightedAppend(p + [x], q, w);
    WeightedAppend(p, [x], w);
    WeightedAppend(p, q, w);
    assert [x][1..] == [];
  }

  function One(c: char): int
  {
    1
  }

  lemma {:induction false} SumWeighted(fs: Table)
    ensures Sum(fs) == Weighted(fs, One)
    decreases |fs|
  {
    if |fs| > 0 {
      SumWeighted(fs[1..]);
    }
  }

  /** Tables with the same entries, in any order, have the same sum. */
  lemma SumPerm(a: Table, b: Table)
    requires multiset(a) == multiset(b)
    ensures Sum(a) == Sum(b)
  {
    SumWeighted(a);
    SumWeighted(b);
    WeightedPerm(a, b, One);
  }

  // ---------------------------------------------------------------------
  // Code trees

  /** NodoHuffman (huffman.py:18-49). A leaf carries a character and its
      count; an internal node carries a count and two children. es_hoja,
      "both children absent", is the Leaf? test: the merge loop always
      gives an internal node both children. */
  datatype Tree = Leaf(sym: char, freq: int) | Node(freq: int, left: Tree, right: Tree)

  /** NodoHuffman.__lt__ (huffman.py:43-45): trees compare by count alone. */
  predicate Less(a: Tree, b: Tree)
  {
    a.freq < b.freq
  }

  /** The (character, count) pairs of the leaves, left to right. */
  function Leaves(t: Tree): Table
  {
    match t
    case Leaf(c, f) => [(c, f)]
    case Node(_, l, r) => Leaves(l) + Leaves(r)
  }

  /** Every internal node's count is the sum of its children's. */
  predicate WellFormed(t: Tree)
  {
    match t
    case Leaf(_, _) => true
    case Node(f, l, r) => f == l.freq + r.freq && WellFormed(l) && WellFormed(r)
  }

  /** The number of internal nodes: one per merge. */
  function Internals(t: Tree): nat
  {
    match t
    case Leaf(_, _) => 0
    case Node(_, l, r) => 1 + Internals(l) + Internals(r)
  }

  /** The sum of the internal nodes' counts: what the merges cost. */
  function MergeCost(t: Tree): int
  {
    match t
    case Leaf(_, _) => 0
    case Node(f, l, r) => f + MergeCost(l) + MergeCost(r)
  }

  /** A tree with n leaves has n - 1 internal nodes. */
  lemma {:induction false} InternalsCount(t: Tree)
    ensures Internals(t) == |Leaves(t)| - 1
  {
    match t
    case Leaf(_, _) =>
    case Node(_, l, r) =>
      InternalsCount(l);
      InternalsCount(r);
  }

  /** The root of a well-formed tree counts all its leaves. */
  lemma {:induction false} RootFreq(t: Tree)
    requires WellFormed(t)
    ensures t.freq == Sum(Leaves(t))
  {
    match t
    case Leaf(c, f) =>
      assert Leaves(t)[1..] == [];
    case Node(_, l, r) =>
      RootFreq(l);
      RootFreq(r);
      SumAppend(Leaves(l), Leaves(r));
  }

  /** The leaves of all the trees of a forest. */
  function LeafBag(h: seq<Tree>): multiset<(char, int)>
  {
    if |h| == 0 then multiset{} else multiset(Leaves(h[0])) + LeafBag(h[1..])
  }

  lemma {:induction false} LeafBagAppend(a: seq<Tree>, b: seq<Tree>)
    ensures LeafBag(a + b) == LeafBag(a) + LeafBag(b)
    decreases |a|
  {
    if |a| == 0 {
      assert a + b == b;
    } else {
      assert (a + b)[0] == a[0];
      assert (a + b)[1..] == a[1..] + b;
      LeafBagAppend(a[1..], b);
    }
  }

  lemma LeafBagRemoveAt(h: seq<Tree>, i: nat)
    requires i < |h|
    ensures LeafBag(h) == LeafBag(RemoveAt(h, i)) + multiset(Leaves(h[i]))
  {
    var p, x, q := h[..i], h[i], h[i + 1..];
    SplitAt(h, i);
    LeafBagAppend(p + [x], q);
    LeafBagAppend(p, [x]);
    LeafBagAppend(p, q);
    assert [x][1..] == [];
    assert LeafBag([x]) == multiset(Leaves(x));
    BagRearrange(LeafBag(p), multiset(Leaves(x)), LeafBag(q));
  }

  /** The forest of one leaf per table entry (huffman.py:84). */
  function InitialForest(fs: Table): (h: seq<Tree>)
    ensures |h| == |fs|
    ensures forall k :: 0 <= k < |h| ==> h[k] == Leaf(fs[k].0, fs[k].1)
    ensures LeafBag(h) == multiset(fs)
  {
    if |fs| == 0 then []
    else
      var rest := InitialForest(fs[1..]);
      var h := [Leaf(fs[0].0, fs[0].1)] + rest;
      ForestCons(fs, rest);
      h
  }

  lemma ForestCons(fs: Table, rest: seq<Tree>)
    requires |fs| > 0 && LeafBag(rest) == multiset(fs[1..])
    ensures LeafBag([Leaf(fs[0].0, fs[0].1)] + rest) == multiset(fs)
  {
    var h := [Leaf(fs[0].0, fs[0].1)] + rest;
    assert h[0] == Leaf(fs[0].0, fs[0].1) && h[1..] == rest;
    assert multiset(Leaves(h[0])) == multiset{fs[0]};
    assert multiset(fs) == multiset{fs[0]} + multiset(fs[1..]) by {
      assert fs == [fs[0]] + fs[1..];
    }
  }

  /** A position holding a least tree: no tree is Less than it. */
  function LeastIndex(h: seq<Tree>): (i: nat)
    requires |h| > 0
    ensures i < |h|
    ensures forall k :: 0 <= k < |h| ==> !Less(h[k], h[i])
  {
    if |h| == 1 then 0
    else
      var j := 1 + LeastIndex(h[1..]);
      assert forall k :: 1 <= k < |h| ==> h[k] == h[1..][k - 1];
      if Less(h[j], h[0]) then j else 0
  }

  /** heapq.heappop under __lt__ (huffman.py:90-91): the popped tree has
      no tree in the heap Less than it. Which of several trees of equal
      count comes out depends on the heap's layout; any of them may. */
  method PopMin(h: seq<Tree>) returns (i: nat, m: Tree, rest: seq<Tree>)
    requires |h| > 0
    ensures LeastAt(h, i) && m == h[i] && rest == RemoveAt(h, i)
    ensures m in h && forall t :: t in h ==> !Less(t, m)
    ensures multiset(rest) + multiset{m} == multiset(h)
    ensures forall t :: t in rest ==> t in h
    ensures LeafBag(rest) + multiset(Leaves(m)) == LeafBag(h)
    ensures |rest| == |h| - 1
  {
    var w := LeastIndex(h);
    i :| 0 <= i < |h| && forall k :: 0 <= k < |h| ==> !Less(h[k], h[i]);
    m, rest := h[i], RemoveAt(h, i);
    LeafBagRemoveAt(h, i);
    forall t | t in rest ensures t in h {
      RemoveAtFrom(h, i, t);
    }
  }

  /** construir_arbol_huffman (huffman.py:67-97): None for an empty table;
      otherwise one leaf per entry, then while two or more trees remain,
      pop the least two and push their parent, whose count is their sum.
      Besides the tree, the method hands back the run it made: the forest
      before each pass and the positions popped in it. */
  method BuildTree(fs: Table) returns (r: Option<Tree>, forests: seq<seq<Tree>>, picks: seq<(nat, nat)>)
    ensures r.None? <==> |fs| == 0
    ensures r.Some? ==>
      && WellFormed(r.value)
      && multiset(Leaves(r.value)) == multiset(fs)
      && r.value.freq == Sum(fs)
      && Internals(r.value) == |fs| - 1
    ensures r.Some? ==>
      && MergeRun(forests, picks)
      && forests[0] == InitialForest(fs)
      && forests[|picks|] == [r.value]
    ensures r.Some? ==>
      forall s :: WellFormed(s) && multiset(Leaves(s)) == multiset(fs) ==> MergeCost(r.value) <= MergeCost(s)
  {
    if |fs| == 0 {
      return None, [], [];
    }
    var heap := InitialForest(fs);
    forests, picks := [heap], [];
    while |heap| > 1
      invariant |heap| >= 1
      invariant forall t :: t in heap ==> WellFormed(t)
      invariant LeafBag(heap) == multiset(fs)
      invariant PartialRun(forests, picks)
      invariant forests[0] == InitialForest(fs) && forests[|picks|] == heap
    {
      var i, j, heap' := MergePass(heap);
      RunSnoc(forests, picks, i, j, heap');
      forests, picks := forests + [heap'], picks + [(i, j)];
      heap := heap';
    }
    var t := heap[0];
    assert heap == [t] && heap[1..] == [];
    r := Some(t);
    TreeOfTable(t, fs);
    RunOptimalAll(fs, forests, picks);
  }

  /** One pass of the loop (huffman.py:89-95): pop the least tree, pop
      the least of the rest, push their parent. The positions popped are
      returned with the new forest. */
  method MergePass(heap: seq<Tree>) returns (i: nat, j: nat, heap': seq<Tree>)
    requires |heap| > 1 && forall t :: t in heap ==> WellFormed(t)
    ensures |heap'| == |heap| - 1
    ensures forall t :: t in heap' ==> WellFormed(t)
    ensures LeafBag(heap') == LeafBag(heap)
    ensures MergeStep(heap, i, j, heap')
  {
    var izq, rest, der, rest2;
    i, izq, rest := PopMin(heap);
    j, der, rest2 := PopMin(rest);
    var padre := Parent(izq, der);
    heap' := rest2 + [padre];
    MergedKeeps(heap, i, j);
  }

  /** Taking out the trees at i and then at j and pushing their parent
      keeps every tree well-formed ... */
  lemma MergedKeeps(heap: seq<Tree>, i: nat, j: nat)
    requires i < |heap| && j + 1 < |heap| && forall t :: t in heap ==> WellFormed(t)
    ensures forall t :: t in Merged(heap, i, j) ==> WellFormed(t)
    ensures LeafBag(Merged(heap, i, j)) == LeafBag(heap)
  {
    MergedWellFormed(heap, i, j);
    MergedLeaves(heap, i, j);
  }

  lemma MergedWellFormed(heap: seq<Tree>, i: nat, j: nat)
    requires i < |heap| && j + 1 < |heap| && forall t :: t in heap ==> WellFormed(t)
    ensures forall t :: t in Merged(heap, i, j) ==> WellFormed(t)
  {
    var rest := RemoveAt(heap, i);
    var rest2 := RemoveAt(rest, j);
    assert heap[i] in heap && rest[j] in rest;
    forall t | t in rest ensures t in heap {
      RemoveAtFrom(heap, i, t);
    }
    forall t | t in rest2 ensures t in rest {
      RemoveAtFrom(rest, j, t);
    }
    MergeWellFormed(heap, heap[i], rest, rest[j], rest2);
  }

  /** ... and keeps the forest's leaves. */
  lemma MergedLeaves(heap: seq<Tree>, i: nat, j: nat)
    requires i < |heap| && j + 1 < |heap|
    ensures LeafBag(Merged(heap, i, j)) == LeafBag(heap)
  {
    var rest := RemoveAt(heap, i);
    LeafBagRemoveAt(heap, i);
    LeafBagRemoveAt(rest, j);
    MergeLeaves(heap, heap[i], rest, rest[j], RemoveAt(rest, j));
  }

  /** Pushing the parent of the two popped trees keeps every tree
      well-formed. */
  lemma MergeWellFormed(heap: seq<Tree>, izq: Tree, rest: seq<Tree>, der: Tree, rest2: seq<Tree>)
    requires forall t :: t in heap ==> WellFormed(t)
    requires izq in heap && der in rest
    requires forall t :: t in rest ==> t in heap
    requires forall t :: t in rest2 ==> t in rest
    ensures forall t :: t in rest2 + [Parent(izq, der)] ==> WellFormed(t)
  {
  }

  /** ... and keeps the forest's leaves. */
  lemma MergeLeaves(heap: seq<Tree>, izq: Tree, rest: seq<Tree>, der: Tree, rest2: seq<Tree>)
    requires LeafBag(rest) + multiset(Leaves(izq)) == LeafBag(heap)
    requires LeafBag(rest2) + multiset(Leaves(der)) == LeafBag(rest)
    ensures LeafBag(rest2 + [Parent(izq, der)]) == LeafBag(heap)
  {
    var padre := Parent(izq, der);
    LeafBagAppend(rest2, [padre]);
    assert [padre][1..] == [];
    assert LeafBag([padre]) == multiset(Leaves(izq)) + multiset(Leaves(der));
    BagRearrange(LeafBag(rest2), multiset(Leaves(izq)), multiset(Leaves(der)));
  }

  /** Multiset union, regrouped; kept apart from the recursive LeafBag so
      that the solver sees only the three bags. */
  lemma BagRearrange(a: multiset<(char, int)>, b: multiset<(char, int)>, c: multiset<(char, int)>)
    ensures a + (b + c) == (a + c) + b
    ensures (a + b) + c == (a + c) + b
  {
  }

  /** A well-formed tree whose leaves are the table's entries counts the
      whole table at its root and has one internal node fewer than the
      table has entries. */
  lemma TreeOfTable(t: Tree, fs: Table)
    requires WellFormed(t) && multiset(Leaves(t)) == multiset(fs)
    ensures t.freq == Sum(fs)
    ensures Internals(t) == |fs| - 1
  {
    RootFreq(t);
    SumPerm(Leaves(t), fs);
    InternalsCount(t);
    assert |Leaves(t)| == |multiset(Leaves(t))| == |multiset(fs)| == |fs|;
  }

  // ---------------------------------------------------------------------
  // Optimality of the merge order

  /** The counts of a table, in order. */
  function Counts(fs: Table): seq<int>
  {
    seq(|fs|, k requires 0 <= k < |fs| => fs[k].1)
  }

  lemma CountsAppend(a: Table, b: Table)
    ensures Counts(a + b) == Counts(a) + Counts(b)
  {
  }

  /** Tables with the same entries have the same counts, in some order. */
  lemma {:induction false} CountsPerm(a: Table, b: Table)
    requires multiset(a) == multiset(b)
    ensures multiset(Counts(a)) == multiset(Counts(b))
    decreases |a|
  {
    if |a| == 0 {
      assert |b| == |multiset(b)| == 0;
    } else {
      assert a[0] in multiset(b);
      var j :| 0 <= j < |b| && b[j] == a[0];
      ConsBag(a);
      AddTake(multiset(a[1..]), a[0]);
      assert multiset(a[1..]) == multiset(RemoveAt(b, j));
      CountsPerm(a[1..], RemoveAt(b, j));
      CountsCons(a);
      CountsRemoveAt(b, j);
      RemoveAtBag(Counts(b), j);
    }
  }

  lemma CountsCons(a: Table)
    requires |a| > 0
    ensures multiset(Counts(a)) == multiset{a[0].1} + multiset(Counts(a[1..]))
  {
    assert Counts(a) == [a[0].1] + Counts(a[1..]);
    ConsBag(Counts(a));
  }

  lemma CountsRemoveAt(b: Table, j: nat)
    requires j < |b|
    ensures Counts(RemoveAt(b, j)) == RemoveAt(Counts(b), j)
  {
    SplitAt(b, j);
    SplitAt(Counts(b), j);
    assert |Counts(RemoveAt(b, j))| == |RemoveAt(Counts(b), j)|;
    forall p | 0 <= p < |b| - 1 ensures Counts(RemoveAt(b, j))[p] == RemoveAt(Counts(b), j)[p] {
      if p < j {
        assert RemoveAt(b, j)[p] == b[p];
      } else {
        assert RemoveAt(b, j)[p] == b[p + 1];
      }
    }
  }

  /** The leaf counts of a tree, left to right. */
  function Weights(t: Tree): (ws: seq<int>)
    ensures |ws| >= 1
    ensures t.Node? ==> |ws| >= 2
  {
    match t
    case Leaf(_, f) => [f]
    case Node(_, l, r) => Weights(l) + Weights(r)
  }

  lemma {:induction false} WeightsLeaves(t: Tree)
    ensures Weights(t) == Counts(Leaves(t))
  {
    match t
    case Leaf(_, _) =>
    case Node(_, l, r) =>
      WeightsLeaves(l);
      WeightsLeaves(r);
      CountsAppend(Leaves(l), Leaves(r));
  }

  /** The depth of each leaf, left to right, in a tree whose root is at
      depth d: the length of the leaf's code. */
  function Depths(t: Tree, d: nat): (ds: seq<int>)
    ensures |ds| == |Weights(t)|
  {
    match t
    case Leaf(_, _) => [d]
    case Node(_, l, r) => Depths(l, d + 1) + Depths(r, d + 1)
  }

  function Height(t: Tree): nat
  {
    match t
    case Leaf(_, _) => 0
    case Node(_, l, r) => 1 + if Height(l) >= Height(r) then Height(l) else Height(r)
  }

  /** No leaf lies deeper than the height below the root. */
  lemma {:induction false} DepthsBound(t: Tree, d: nat)
    ensures forall p :: 0 <= p < |Depths(t, d)| ==> Depths(t, d)[p] <= d + Height(t)
  {
    match t
    case Leaf(_, _) =>
    case Node(_, l, r) =>
      DepthsBound(l, d + 1);
      DepthsBound(r, d + 1);
      var dl, dr := Depths(l, d + 1), Depths(r, d + 1);
      forall p | 0 <= p < |dl + dr| ensures (dl + dr)[p] <= d + Height(t) {
        if p < |dl| {
          assert (dl + dr)[p] == dl[p];
        } else {
          assert (dl + dr)[p] == dr[p - |dl|];
        }
      }
  }

  /** The sum of count times depth over the leaves. */
  function Dot(ws: seq<int>, ds: seq<int>): int
    requires |ws| == |ds|
  {
    if |ws| == 0 then 0 else ws[0] * ds[0] + Dot(ws[1..], ds[1..])
  }

  lemma {:induction false} DotAppend(a: seq<int>, b: seq<int>, c: seq<int>, d: seq<int>)
    requires |a| == |c| && |b| == |d|
    ensures Dot(a + b, c + d) == Dot(a, c) + Dot(b, d)
    decreases |a|
  {
    if |a| == 0 {
      assert a + b == b && c + d == d;
    } else {
      assert (a + b)[1..] == a[1..] + b && (c + d)[1..] == c[1..] + d;
      DotAppend(a[1..], b, c[1..], d);
    }
  }

  /** Changing one count changes the sum by the difference times that
      leaf's depth. */
  lemma {:induction false} DotUpdate(ws: seq<int>, ds: seq<int>, i: nat, v: int)
    requires |ws| == |ds| && i < |ws|
    ensures Dot(ws[i := v], ds) == Dot(ws, ds) + (v - ws[i]) * ds[i]
    decreases i
  {
    if i == 0 {
      assert ws[i := v][1..] == ws[1..];
      MulSub(v, ws[0], ds[0]);
    } else {
      assert ws[i := v][1..] == ws[1..][i - 1 := v];
      DotUpdate(ws[1..], ds[1..], i - 1, v);
    }
  }

  lemma MulSub(a: int, b: int, c: int)
    ensures a * c - b * c == (a - b) * c
  {
  }

  /** In a well-formed tree, count times depth summed over the leaves is
      the merge cost plus the root's count times the root's depth. */
  lemma {:induction false} CostDot(t: Tree, d: nat)
    requires WellFormed(t)
    ensures Dot(Weights(t), Depths(t, d)) == MergeCost(t) + d * t.freq
  {
    match t
    case Leaf(_, f) =>
      assert Dot(Weights(t), Depths(t, d)) == f * d + Dot([], []);
    case Node(_, l, r) =>
      CostDot(l, d + 1);
      CostDot(r, d + 1);
      DotAppend(Weights(l), Weights(r), Depths(l, d + 1), Depths(r, d + 1));
      Distribute(d, l.freq, r.freq);
  }

  /** Swapping the counts at positions i and j. */
  function Swap(ws: seq<int>, i: nat, j: nat): seq<int>
    requires i < |ws| && j < |ws|
  {
    ws[i := ws[j]][j := ws[i]]
  }

  lemma SwapFacts(ws: seq<int>, ds: seq<int>, i: nat, j: nat)
    requires |ws| == |ds| && i < |ws| && j < |ws|
    ensures multiset(Swap(ws, i, j)) == multiset(ws)
    ensures Dot(Swap(ws, i, j), ds) == Dot(ws, ds) + (ws[j] - ws[i]) * (ds[i] - ds[j])
  {
    SwapBag(ws, i, j);
    if i == j {
      assert Swap(ws, i, j) == ws;
    } else {
      SwapDot(ws, ds, i, j);
    }
  }

  /** Two updates change the sum at both positions; stated on the updates
      themselves, which the solver handles better than on Swap. */
  lemma SwapDot(ws: seq<int>, ds: seq<int>, i: nat, j: nat)
    requires |ws| == |ds| && i < |ws| && j < |ws| && i != j
    ensures Dot(ws[i := ws[j]][j := ws[i]], ds) == Dot(ws, ds) + (ws[j] - ws[i]) * (ds[i] - ds[j])
  {
    var a, b := ws[i], ws[j];
    var w1 := ws[i := b];
    DotUpdate(ws, ds, i, b);
    assert w1[j] == b;
    DotUpdate(w1, ds, j, a);
    SwapArith(Dot(ws, ds), Dot(w1, ds), Dot(w1[j := a], ds), a, b, ds[i], ds[j]);
  }

  lemma SwapBag(ws: seq<int>, i: nat, j: nat)
    requires i < |ws| && j < |ws|
    ensures multiset(Swap(ws, i, j)) == multiset(ws)
  {
    if i != j {
      var w1 := ws[i := ws[j]];
      assert multiset(w1) == multiset(ws) - multiset{ws[i]} + multiset{ws[j]};
      assert multiset(Swap(ws, i, j)) == multiset(w1) - multiset{ws[j]} + multiset{ws[i]};
      assert ws[i] in multiset(ws);
      ExchangeBack(multiset(ws), ws[i], ws[j]);
    }
  }

  /** Trading one a for a b and then the b back for the a. */
  lemma ExchangeBack(m: multiset<int>, a: int, b: int)
    requires a in m
    ensures m - multiset{a} + multiset{b} - multiset{b} + multiset{a} == m
  {
  }

  lemma SwapArith(d0: int, d1: int, d2: int, a: int, b: int, c: int, d: int)
    requires d1 == d0 + (b - a) * c
    requires d2 == d1 + (a - b) * d
    ensures d2 == d0 + (b - a) * (c - d)
  {
  }

  /** Moving a smaller count to a position at least as deep never raises
      the sum: the exchange step of the optimality argument. */
  lemma SwapDeeper(ws: seq<int>, ds: seq<int>, i: nat, k: nat)
    requires |ws| == |ds| && i < |ws| && k < |ws|
    requires ws[i] <= ws[k] && ds[i] <= ds[k]
    ensures multiset(Swap(ws, i, k)) == multiset(ws)
    ensures Dot(Swap(ws, i, k), ds) <= Dot(ws, ds)
  {
    SwapFacts(ws, ds, i, k);
    MulSign(ws[k] - ws[i], ds[i] - ds[k]);
  }

  lemma MulSign(a: int, b: int)
    requires a >= 0 && b <= 0
    ensures a * b <= 0
  {
  }

  /** The leaves at k and k + 1 are the two children of one node. */
  predicate SibAt(t: Tree, k: nat)
  {
    match t
    case Leaf(_, _) => false
    case Node(_, l, r) =>
      if l.Leaf? && r.Leaf? then k == 0
      else if k < |Weights(l)| then SibAt(l, k)
      else SibAt(r, k - |Weights(l)|)
  }

  /** A pair of sibling leaves, both as deep as any leaf. */
  function DeepSib(t: Tree): (k: nat)
    requires t.Node?
    ensures k + 1 < |Weights(t)| && SibAt(t, k)
  {
    var l, r := t.left, t.right;
    if l.Leaf? && r.Leaf? then 0
    else if l.Node? && (r.Leaf? || Height(l) >= Height(r)) then DeepSib(l)
    else |Weights(l)| + DeepSib(r)
  }

  lemma {:induction false} DeepSibDepth(t: Tree, d: nat)
    requires t.Node?
    ensures Depths(t, d)[DeepSib(t)] == d + Height(t)
    ensures Depths(t, d)[DeepSib(t) + 1] == d + Height(t)
  {
    var l, r := t.left, t.right;
    var k := DeepSib(t);
    if l.Leaf? && r.Leaf? {
    } else if l.Node? && (r.Leaf? || Height(l) >= Height(r)) {
      DeepSibDepth(l, d + 1);
      assert Depths(t, d)[k] == Depths(l, d + 1)[k];
      assert Depths(t, d)[k + 1] == Depths(l, d + 1)[k + 1];
    } else {
      DeepSibDepth(r, d + 1);
      var n := |Weights(l)|;
      assert Depths(t, d)[k] == Depths(r, d + 1)[k - n];
      assert Depths(t, d)[k + 1] == Depths(r, d + 1)[k + 1 - n];
    }
  }

  /** The same shape with the counts ws at the leaves, left to right, and
      the internal counts recomputed. */
  function Relabel(t: Tree, ws: seq<int>): (u: Tree)
    requires |ws| == |Weights(t)|
    ensures WellFormed(u) && Weights(u) == ws
  {
    match t
    case Leaf(c, _) => Leaf(c, ws[0])
    case Node(_, l, r) =>
      var n := |Weights(l)|;
      var l', r' := Relabel(l, ws[..n]), Relabel(r, ws[n..]);
      assert ws == ws[..n] + ws[n..];
      Node(l'.freq + r'.freq, l', r')
  }

  lemma {:induction false} RelabelShape(t: Tree, ws: seq<int>, d: nat, k: nat)
    requires |ws| == |Weights(t)|
    ensures Depths(Relabel(t, ws), d) == Depths(t, d)
    ensures SibAt(Relabel(t, ws), k) == SibAt(t, k)
  {
    match t
    case Leaf(_, _) =>
    case Node(_, l, r) =>
      var n := |Weights(l)|;
      RelabelShape(l, ws[..n], d + 1, if k < n then k else 0);
      RelabelShape(r, ws[n..], d + 1, if k < n then 0 else k - n);
  }

  /** The tree with the sibling leaves at k and k + 1 merged into one leaf
      carrying their parent's count. */
  function Collapse(t: Tree, k: nat): Tree
    requires SibAt(t, k)
  {
    match t
    case Node(f, l, r) =>
      if l.Leaf? && r.Leaf? then Leaf(l.sym, f)
      else if k < |Weights(l)| then Node(f, Collapse(l, k), r)
      else Node(f, l, Collapse(r, k - |Weights(l)|))
  }

  /** Collapsing two sibling leaves keeps the tree well-formed and its
      root count. */
  lemma {:induction false} CollapseShape(t: Tree, k: nat)
    requires WellFormed(t) && SibAt(t, k)
    ensures k + 1 < |Weights(t)|
    ensures WellFormed(Collapse(t, k)) && Collapse(t, k).freq == t.freq
  {
    match t
    case Node(f, l, r) =>
      if l.Leaf? && r.Leaf? {
      } else if k < |Weights(l)| {
        CollapseShape(l, k);
      } else {
        CollapseShape(r, k - |Weights(l)|);
      }
  }

  /** Collapsing the sibling leaves of counts a and b at k and k + 1
      saves exactly a + b of merge cost ... */
  lemma {:induction false} CollapseCost(t: Tree, k: nat)
    requires WellFormed(t) && SibAt(t, k)
    ensures k + 1 < |Weights(t)|
    ensures MergeCost(Collapse(t, k)) == MergeCost(t) - Weights(t)[k] - Weights(t)[k + 1]
  {
    CollapseShape(t, k);
    match t
    case Node(f, l, r) =>
      var n := |Weights(l)|;
      if l.Leaf? && r.Leaf? {
      } else if k < n {
        CollapseCost(l, k);
        assert Weights(t)[k] == Weights(l)[k] && Weights(t)[k + 1] == Weights(l)[k + 1];
      } else {
        CollapseCost(r, k - n);
        assert Weights(t)[k] == Weights(r)[k - n] && Weights(t)[k + 1] == Weights(r)[k + 1 - n];
      }
  }

  /** The counts w with those at k and k + 1 replaced by their sum. */
  function MergeAt(w: seq<int>, k: nat): seq<int>
    requires k + 1 < |w|
  {
    w[..k] + [w[k] + w[k + 1]] + w[k + 2..]
  }

  /** ... and replaces them by one leaf of count a + b. */
  lemma {:induction false} CollapseWeights(t: Tree, k: nat)
    requires WellFormed(t) && SibAt(t, k)
    ensures k + 1 < |Weights(t)|
    ensures Weights(Collapse(t, k)) == MergeAt(Weights(t), k)
  {
    CollapseShape(t, k);
    match t
    case Node(f, l, r) =>
      var n := |Weights(l)|;
      var wl, wr := Weights(l), Weights(r);
      if l.Leaf? && r.Leaf? {
      } else if k < n {
        CollapseWeights(l, k);
        MergeAtLeft(wl, wr, k);
      } else {
        CollapseWeights(r, k - n);
        MergeAtRight(wl, wr, k);
      }
  }

  lemma MergeAtLeft(wl: seq<int>, wr: seq<int>, k: nat)
    requires k + 1 < |wl|
    ensures MergeAt(wl + wr, k) == MergeAt(wl, k) + wr
  {
    assert (wl + wr)[..k] == wl[..k];
    assert (wl + wr)[k + 2..] == wl[k + 2..] + wr;
  }

  lemma MergeAtRight(wl: seq<int>, wr: seq<int>, k: nat)
    requires |wl| <= k && k + 1 < |wl| + |wr|
    ensures MergeAt(wl + wr, k) == wl + MergeAt(wr, k - |wl|)
  {
    assert (wl + wr)[..k] == wl + wr[..k - |wl|];
    assert (wl + wr)[k + 2..] == wr[k - |wl| + 2..];
  }

  /** Merging two counts in place, as multisets: take both away, add
      their sum. */
  lemma MergeAtBag(w: seq<int>, k: nat)
    requires k + 1 < |w|
    ensures multiset(MergeAt(w, k)) + multiset{w[k], w[k + 1]} == multiset(w) + multiset{w[k] + w[k + 1]}
  {
    assert w == w[..k] + [w[k]] + [w[k + 1]] + w[k + 2..];
  }

  /** When x and y are the two least counts of w (x the least), every
      count is at least x, and every count but the x at position q is at
      least y. */
  lemma LeastTwo(w: seq<int>, q: nat, x: int, y: int, rest: multiset<int>)
    requires multiset(w) == multiset{x, y} + rest
    requires x <= y && forall z :: z in rest ==> y <= z
    requires q < |w| && w[q] == x
    ensures forall p :: 0 <= p < |w| ==> x <= w[p]
    ensures forall p :: 0 <= p < |w| && p != q ==> y <= w[p]
  {
    forall p | 0 <= p < |w| ensures x <= w[p] {
      assert w[p] in multiset(w);
    }
    var r := RemoveAt(w, q);
    TakeLeast(x, y, rest);
    assert multiset(r) == multiset{y} + rest;
    forall p | 0 <= p < |w| && p != q ensures y <= w[p] {
      assert w[p] == if p < q then r[p] else r[p - 1];
      assert w[p] in multiset(r);
    }
  }

  lemma TakeLeast(x: int, y: int, rest: multiset<int>)
    ensures (multiset{x, y} + rest) - multiset{x} == multiset{y} + rest
  {
  }

  /** A second position holding y, when y is in w besides position i. */
  lemma OtherIndex(w: seq<int>, i: nat, y: int) returns (j: nat)
    requires i < |w| && y in multiset(w) - multiset{w[i]}
    ensures j < |w| && j != i && w[j] == y
  {
    var r := RemoveAt(w, i);
    assert y in r;
    var j0 :| 0 <= j0 < |r| && r[j0] == y;
    j := if j0 < i then j0 else j0 + 1;
  }

  /** The exchange on counts alone: with k and k + 1 as deep as any
      position, two swaps put the two least counts x and y there without
      raising the weighted depth sum. */
  lemma PlaceLeast(ws: seq<int>, ds: seq<int>, k: nat, x: int, y: int, rest: multiset<int>)
    returns (ws2: seq<int>)
    requires |ws| == |ds| && k + 1 < |ws|
    requires forall p :: 0 <= p < |ds| ==> ds[p] <= ds[k]
    requires ds[k + 1] == ds[k]
    requires multiset(ws) == multiset{x, y} + rest
    requires x <= y && forall z :: z in rest ==> y <= z
    ensures |ws2| == |ws| && multiset(ws2) == multiset(ws)
    ensures ws2[k] == x && ws2[k + 1] == y
    ensures Dot(ws2, ds) <= Dot(ws, ds)
  {
    var ws1 := PlaceFirst(ws, ds, k, x, y, rest);
    ws2 := PlaceSecond(ws1, ds, k, x, y, rest);
    LessChain(Dot(ws2, ds), Dot(ws1, ds), Dot(ws, ds));
  }

  /** The first swap: the least count x goes to position k. */
  lemma PlaceFirst(ws: seq<int>, ds: seq<int>, k: nat, x: int, y: int, rest: multiset<int>)
    returns (ws1: seq<int>)
    requires |ws| == |ds| && k < |ws|
    requires forall p :: 0 <= p < |ds| ==> ds[p] <= ds[k]
    requires multiset(ws) == multiset{x, y} + rest
    requires x <= y && forall z :: z in rest ==> y <= z
    ensures |ws1| == |ws| && multiset(ws1) == multiset(ws)
    ensures ws1[k] == x
    ensures Dot(ws1, ds) <= Dot(ws, ds)
  {
    assert x in multiset(ws);
    var i :| 0 <= i < |ws| && ws[i] == x;
    LeastTwo(ws, i, x, y, rest);
    SwapDeeper(ws, ds, i, k);
    ws1 := Swap(ws, i, k);
  }

  /** The second swap: with x already at k, the next least count y goes
      to position k + 1. */
  lemma PlaceSecond(ws1: seq<int>, ds: seq<int>, k: nat, x: int, y: int, rest: multiset<int>)
    returns (ws2: seq<int>)
    requires |ws1| == |ds| && k + 1 < |ws1|
    requires forall p :: 0 <= p < |ds| ==> ds[p] <= ds[k]
    requires ds[k + 1] == ds[k]
    requires multiset(ws1) == multiset{x, y} + rest && ws1[k] == x
    requires x <= y && forall z :: z in rest ==> y <= z
    ensures |ws2| == |ws1| && multiset(ws2) == multiset(ws1)
    ensures ws2[k] == x && ws2[k + 1] == y
    ensures Dot(ws2, ds) <= Dot(ws1, ds)
  {
    TakeLeast(x, y, rest);
    var j1 := OtherIndex(ws1, k, y);
    LeastTwo(ws1, k, x, y, rest);
    SwapDeeper(ws1, ds, j1, k + 1);
    ws2 := Swap(ws1, j1, k + 1);
  }

  lemma LessChain(a: int, b: int, c: int)
    requires a <= b && b <= c
    ensures a <= c
  {
  }

  /** Taking the pair x, y out of a bag and putting x + y in, written
      as a cancellation. */
  lemma CancelPair(m: multiset<int>, w: multiset<int>, rest: multiset<int>, x: int, y: int)
    requires m + multiset{x, y} == w + multiset{x + y}
    requires w == multiset{x, y} + rest
    ensures m == rest + multiset{x + y}
  {
    forall e ensures m[e] == (rest + multiset{x + y})[e] {
      assert (m + multiset{x, y})[e] == (w + multiset{x + y})[e];
    }
  }

  /** The exchange argument: in any well-formed tree whose leaf counts are
      the two least counts x <= y plus rest, the two can be made sibling
      leaves at the greatest depth without raising the cost; merging them
      into one leaf of count x + y then saves exactly x + y. */
  lemma Exchange(s: Tree, x: int, y: int, rest: multiset<int>) returns (s': Tree)
    requires WellFormed(s)
    requires multiset(Weights(s)) == multiset{x, y} + rest
    requires x <= y && forall z :: z in rest ==> y <= z
    ensures WellFormed(s')
    ensures multiset(Weights(s')) == rest + multiset{x + y}
    ensures MergeCost(s') + x + y <= MergeCost(s)
  {
    var ws, ds := Weights(s), Depths(s, 0);
    assert |ws| == |multiset(ws)| >= 2;
    var k := DeepPair(s);
    var ws2 := PlaceLeast(ws, ds, k, x, y, rest);
    var s2 := Relabel(s, ws2);
    RelabelShape(s, ws2, 0, k);
    RelabelCost(s, ws2);
    s' := CollapseLeast(s2, k, x, y, rest);
  }

  /** In a tree of two or more leaves, sibling leaves at k and k + 1
      that lie as deep as any leaf. */
  lemma DeepPair(s: Tree) returns (k: nat)
    requires |Weights(s)| >= 2
    ensures k + 1 < |Weights(s)| && SibAt(s, k)
    ensures forall p :: 0 <= p < |Depths(s, 0)| ==> Depths(s, 0)[p] <= Depths(s, 0)[k]
    ensures Depths(s, 0)[k + 1] == Depths(s, 0)[k]
  {
    k := DeepSib(s);
    DeepSibDepth(s, 0);
    DepthsBound(s, 0);
  }

  /** Relabelling changes the cost by exactly the change in the weighted
      depth sum, since the depths stay put. */
  lemma RelabelCost(s: Tree, ws: seq<int>)
    requires WellFormed(s) && |ws| == |Weights(s)|
    ensures MergeCost(Relabel(s, ws)) - MergeCost(s) == Dot(ws, Depths(s, 0)) - Dot(Weights(s), Depths(s, 0))
  {
    RelabelShape(s, ws, 0, 0);
    CostDot(s, 0);
    CostDot(Relabel(s, ws), 0);
  }

  /** Collapsing sibling leaves of counts x and y yields a tree over the
      remaining counts plus x + y, cheaper by x + y. */
  lemma CollapseLeast(s2: Tree, k: nat, x: int, y: int, rest: multiset<int>) returns (s': Tree)
    requires WellFormed(s2) && SibAt(s2, k) && k + 1 < |Weights(s2)|
    requires Weights(s2)[k] == x && Weights(s2)[k + 1] == y
    requires multiset(Weights(s2)) == multiset{x, y} + rest
    ensures WellFormed(s')
    ensures multiset(Weights(s')) == rest + multiset{x + y}
    ensures MergeCost(s') + x + y == MergeCost(s2)
  {
    s' := Collapse(s2, k);
    CollapseShape(s2, k);
    CollapseCost(s2, k);
    CollapseWeights(s2, k);
    MergeAtLeast(Weights(s2), k, x, y, rest);
  }

  lemma MergeAtLeast(w: seq<int>, k: nat, x: int, y: int, rest: multiset<int>)
    requires k + 1 < |w| && w[k] == x && w[k + 1] == y
    requires multiset(w) == multiset{x, y} + rest
    ensures multiset(MergeAt(w, k)) == rest + multiset{x + y}
  {
    MergeAtBag(w, k);
    CancelPair(multiset(MergeAt(w, k)), multiset(w), rest, x, y);
  }

  /** The counts at the roots of a forest. */
  function FreqBag(h: seq<Tree>): multiset<int>
  {
    if |h| == 0 then multiset{} else multiset{h[0].freq} + FreqBag(h[1..])
  }

  /** The merge costs of a forest's trees, summed. */
  function CostSum(h: seq<Tree>): int
  {
    if |h| == 0 then 0 else MergeCost(h[0]) + CostSum(h[1..])
  }

  lemma {:induction false} ForestAppend(a: seq<Tree>, b: seq<Tree>)
    ensures FreqBag(a + b) == FreqBag(a) + FreqBag(b)
    ensures CostSum(a + b) == CostSum(a) + CostSum(b)
    decreases |a|
  {
    if |a| == 0 {
      assert a + b == b;
    } else {
      assert (a + b)[0] == a[0];
      assert (a + b)[1..] == a[1..] + b;
      ForestAppend(a[1..], b);
    }
  }

  lemma ForestSingle(t: Tree)
    ensures FreqBag([t]) == multiset{t.freq}
    ensures CostSum([t]) == MergeCost(t)
  {
    assert [t][1..] == [];
  }

  lemma ForestPush(h: seq<Tree>, t: Tree)
    ensures FreqBag(h + [t]) == FreqBag(h) + multiset{t.freq}
    ensures CostSum(h + [t]) == CostSum(h) + MergeCost(t)
  {
    ForestAppend(h, [t]);
    ForestSingle(t);
  }

  lemma ForestRemoveAt(h: seq<Tree>, i: nat)
    requires i < |h|
    ensures FreqBag(h) == FreqBag(RemoveAt(h, i)) + multiset{h[i].freq}
    ensures CostSum(h) == CostSum(RemoveAt(h, i)) + MergeCost(h[i])
  {
    var p, x, q := h[..i], h[i], h[i + 1..];
    SplitAt(h, i);
    ForestAppend(p + [x], q);
    ForestAppend(p, [x]);
    ForestAppend(p, q);
    ForestSingle(x);
  }

  /** Every root count of a forest is at least y when every tree is. */
  lemma {:induction false} FreqBagAbove(h: seq<Tree>, y: int)
    requires forall t :: t in h ==> y <= t.freq
    ensures forall z :: z in FreqBag(h) ==> y <= z
  {
    if |h| > 0 {
      assert h[0] in h;
      assert forall t :: t in h[1..] ==> t in h;
      FreqBagAbove(h[1..], y);
    }
  }

  /** The one-leaf-per-entry forest has the table's counts at its roots
      and costs nothing. */
  lemma {:induction false} InitialForestBag(fs: Table)
    ensures FreqBag(InitialForest(fs)) == multiset(Counts(fs))
    ensures CostSum(InitialForest(fs)) == 0
  {
    if |fs| > 0 {
      var h := InitialForest(fs);
      assert h[1..] == InitialForest(fs[1..]);
      InitialForestBag(fs[1..]);
      CountsCons(fs);
      assert h[0].freq == fs[0].1 && MergeCost(h[0]) == 0;
    }
  }

  /** One pass of the merge loop (huffman.py:89-95): the tree at i is a
      least tree of h, the tree at j is a least tree of what remains, and
      their parent, counting both, replaces the two. */
  predicate MergeStep(h: seq<Tree>, i: nat, j: nat, h': seq<Tree>)
  {
    && LeastAt(h, i) && j + 1 < |h|
    && LeastAt(RemoveAt(h, i), j)
    && h' == Merged(h, i, j)
  }

  /** No tree of h is Less than the one at i. */
  predicate LeastAt(h: seq<Tree>, i: nat)
  {
    i < |h| && forall t :: t in h ==> !Less(t, h[i])
  }

  /** The forest after the trees at i and then at j are taken out and
      their parent is pushed. */
  function Merged(h: seq<Tree>, i: nat, j: nat): seq<Tree>
    requires i < |h| && j + 1 < |h|
  {
    RemoveAt(RemoveAt(h, i), j) + [Parent(h[i], RemoveAt(h, i)[j])]
  }

  /** The tree the loop builds over two popped trees. */
  function Parent(a: Tree, b: Tree): Tree
  {
    Node(a.freq + b.freq, a, b)
  }

  /** The loop so far: each forest follows from the one before by a
      MergeStep at the recorded pair of positions. */
  predicate PartialRun(forests: seq<seq<Tree>>, picks: seq<(nat, nat)>)
  {
    && |forests| == |picks| + 1
    && forall k :: 0 <= k < |picks| ==> StepAt(forests, picks, k)
  }

  /** The k-th pass of a run. */
  predicate StepAt(forests: seq<seq<Tree>>, picks: seq<(nat, nat)>, k: nat)
  {
    k < |picks| && |forests| == |picks| + 1
    && MergeStep(forests[k], picks[k].0, picks[k].1, forests[k + 1])
  }

  /** A whole run of the loop, which stops at a single tree. */
  predicate MergeRun(forests: seq<seq<Tree>>, picks: seq<(nat, nat)>)
  {
    PartialRun(forests, picks) && |forests[|picks|]| == 1
  }

  lemma RunSnoc(forests: seq<seq<Tree>>, picks: seq<(nat, nat)>, i: nat, j: nat, h': seq<Tree>)
    requires PartialRun(forests, picks)
    requires MergeStep(forests[|picks|], i, j, h')
    ensures PartialRun(forests + [h'], picks + [(i, j)])
  {
    var fs', ps' := forests + [h'], picks + [(i, j)];
    forall k | 0 <= k < |ps'| ensures StepAt(fs', ps', k) {
      assert fs'[k] == forests[k];
      if k < |picks| {
        assert StepAt(forests, picks, k);
        assert ps'[k] == picks[k] && fs'[k + 1] == forests[k + 1];
      }
    }
  }

  /** What one merge does to the forest's root counts: the two merged
      counts a and b leave, the other counts stay, and the parent's count
      a + b joins them. */
  lemma MergedBag(h: seq<Tree>, i: nat, j: nat)
    requires i < |h| && j + 1 < |h|
    ensures FreqBag(h) == multiset{h[i].freq, RemoveAt(h, i)[j].freq} + FreqBag(RemoveAt(RemoveAt(h, i), j))
    ensures FreqBag(Merged(h, i, j)) == FreqBag(RemoveAt(RemoveAt(h, i), j)) + multiset{h[i].freq + RemoveAt(h, i)[j].freq}
  {
    var h1 := RemoveAt(h, i);
    var h2 := RemoveAt(h1, j);
    var a, b := h[i], h1[j];
    ForestRemoveAt(h, i);
    ForestRemoveAt(h1, j);
    ForestPush(h2, Parent(a, b));
    assert Parent(a, b).freq == a.freq + b.freq;
    PairBag(FreqBag(h), FreqBag(h1), FreqBag(h2), a.freq, b.freq);
  }

  lemma PairBag(m: multiset<int>, m1: multiset<int>, m2: multiset<int>, a: int, b: int)
    requires m == m1 + multiset{a} && m1 == m2 + multiset{b}
    ensures m == multiset{a, b} + m2
  {
    forall e ensures m[e] == (multiset{a, b} + m2)[e] {
    }
  }

  /** ... the summed cost grows by the parent's count ... */
  lemma MergedCost(h: seq<Tree>, i: nat, j: nat)
    requires i < |h| && j + 1 < |h|
    ensures CostSum(Merged(h, i, j)) == CostSum(h) + h[i].freq + RemoveAt(h, i)[j].freq
  {
    var h1 := RemoveAt(h, i);
    var h2 := RemoveAt(h1, j);
    var a, b := h[i], h1[j];
    var n := Parent(a, b);
    ForestRemoveAt(h, i);
    ForestRemoveAt(h1, j);
    ForestPush(h2, n);
    assert MergeCost(n) == a.freq + b.freq + MergeCost(a) + MergeCost(b);
  }

  /** ... and no remaining count is below either merged one. */
  lemma MergeStepLeast(h: seq<Tree>, i: nat, j: nat, h': seq<Tree>)
    requires MergeStep(h, i, j, h')
    ensures h[i].freq <= RemoveAt(h, i)[j].freq
    ensures forall z :: z in FreqBag(RemoveAt(RemoveAt(h, i), j)) ==> RemoveAt(h, i)[j].freq <= z
  {
    var h1 := RemoveAt(h, i);
    var h2 := RemoveAt(h1, j);
    var b := h1[j];
    assert b in h1;
    RemoveAtFrom(h, i, b);
    forall t | t in h2 ensures b.freq <= t.freq {
      RemoveAtFrom(h1, j, t);
    }
    FreqBagAbove(h2, b.freq);
  }

  /** Induction along a run: from the forest at step k, the run's tree
      costs no more than the forest's own cost plus the cost of any
      well-formed tree over the forest's root counts. */
  lemma {:induction false} RunOptimalFrom(forests: seq<seq<Tree>>, picks: seq<(nat, nat)>, k: nat, s: Tree)
    requires MergeRun(forests, picks) && k <= |picks|
    requires WellFormed(s) && multiset(Weights(s)) == FreqBag(forests[k])
    ensures MergeCost(forests[|picks|][0]) <= CostSum(forests[k]) + MergeCost(s)
    decreases |picks| - k
  {
    var h := forests[k];
    if k == |picks| {
      assert h == [h[0]];
      ForestSingle(h[0]);
      assert |Weights(s)| == |multiset(Weights(s))| == 1;
    } else {
      assert StepAt(forests, picks, k);
      var s' := RunStep(h, picks[k].0, picks[k].1, forests[k + 1], s);
      RunOptimalFrom(forests, picks, k + 1, s');
    }
  }

  /** One merge against any competing tree s over the forest's root
      counts: there is a competitor s' over the new forest's root counts,
      and forest cost plus competitor cost does not grow. */
  lemma RunStep(h: seq<Tree>, i: nat, j: nat, h': seq<Tree>, s: Tree) returns (s': Tree)
    requires MergeStep(h, i, j, h')
    requires WellFormed(s) && multiset(Weights(s)) == FreqBag(h)
    ensures WellFormed(s') && multiset(Weights(s')) == FreqBag(h')
    ensures CostSum(h') + MergeCost(s') <= CostSum(h) + MergeCost(s)
  {
    var a, b, rest := StepFacts(h, i, j, h');
    s' := Exchange(s, a, b, rest);
  }

  /** One merge in terms of root counts: the merged counts a <= b are
      the two least, the others (rest) stay, a + b joins them, and the
      summed cost grows by a + b. */
  lemma StepFacts(h: seq<Tree>, i: nat, j: nat, h': seq<Tree>) returns (a: int, b: int, rest: multiset<int>)
    requires MergeStep(h, i, j, h')
    ensures FreqBag(h) == multiset{a, b} + rest
    ensures FreqBag(h') == rest + multiset{a + b}
    ensures CostSum(h') == CostSum(h) + a + b
    ensures a <= b && forall z :: z in rest ==> b <= z
  {
    MergedBag(h, i, j);
    MergedCost(h, i, j);
    MergeStepLeast(h, i, j, h');
    a, b := h[i].freq, RemoveAt(h, i)[j].freq;
    rest := FreqBag(RemoveAt(RemoveAt(h, i), j));
    assert h' == Merged(h, i, j);
    assert FreqBag(h') == FreqBag(Merged(h, i, j));
  }

  /** The tree a run of the merge loop builds from a table costs no more
      than any well-formed tree with the same leaves. */
  lemma RunOptimal(fs: Table, forests: seq<seq<Tree>>, picks: seq<(nat, nat)>, s: Tree)
    requires MergeRun(forests, picks) && forests[0] == InitialForest(fs)
    requires WellFormed(s) && multiset(Leaves(s)) == multiset(fs)
    ensures MergeCost(forests[|picks|][0]) <= MergeCost(s)
  {
    WeightsLeaves(s);
    CountsPerm(Leaves(s), fs);
    InitialForestBag(fs);
    RunOptimalFrom(forests, picks, 0, s);
  }

  lemma RunOptimalAll(fs: Table, forests: seq<seq<Tree>>, picks: seq<(nat, nat)>)
    requires MergeRun(forests, picks) && forests[0] == InitialForest(fs)
    ensures forall s :: WellFormed(s) && multiset(Leaves(s)) == multiset(fs) ==>
      MergeCost(forests[|picks|][0]) <= MergeCost(s)
  {
    forall s | WellFormed(s) && multiset(Leaves(s)) == multiset(fs)
      ensures MergeCost(forests[|picks|][0]) <= MergeCost(s)
    {
      RunOptimal(fs, forests, picks, s);
    }
  }

  // ---------------------------------------------------------------------
  // Codes

  lemma KeysAppend(a: Table, b: Table)
    ensures Keys(a + b) == Keys(a) + Keys(b)
  {
    forall x | x in Keys(a + b) ensures x in Keys(a) + Keys(b) {
      var k :| 0 <= k < |a + b| && (a + b)[k].0 == x;
      if k >= |a| {
        assert b[k - |a|].0 == x;
      }
    }
    forall x | x in Keys(b) ensures x in Keys(a + b) {
      var k :| 0 <= k < |b| && b[k].0 == x;
      assert (a + b)[|a| + k].0 == x;
    }
    forall x | x in Keys(a) ensures x in Keys(a + b) {
      var k :| 0 <= k < |a| && a[k].0 == x;
      assert (a + b)[k].0 == x;
    }
  }

  /** One entry per character in a + b means one in each part, and no
      character in both. */
  lemma DistinctSplit(a: Table, b: Table)
    requires DistinctKeys(a + b)
    ensures DistinctKeys(a) && DistinctKeys(b)
    ensures Keys(a) !! Keys(b)
  {
    assert forall i :: 0 <= i < |a| ==> (a + b)[i] == a[i];
    assert forall j :: 0 <= j < |b| ==> (a + b)[|a| + j] == b[j];
    forall i, j | 0 <= i < |a| && 0 <= j < |b| ensures a[i].0 != b[j].0 {
      assert (a + b)[i].0 != (a + b)[|a| + j].0;
    }
  }

  /** The characters of a tree's leaves. */
  function Symbols(t: Tree): (s: set<char>)
  {
    match t
    case Leaf(c, _) => {c}
    case Node(_, l, r) => Symbols(l) + Symbols(r)
  }

  lemma {:induction false} SymbolsAreKeys(t: Tree)
    ensures Symbols(t) == Keys(Leaves(t))
  {
    match t
    case Leaf(c, _) =>
      assert Leaves(t)[0].0 == c;
    case Node(_, l, r) =>
      SymbolsAreKeys(l);
      SymbolsAreKeys(r);
      KeysAppend(Leaves(l), Leaves(r));
  }

  /** No character labels two leaves. */
  predicate UniqueSymbols(t: Tree)
  {
    match t
    case Leaf(_, _) => true
    case Node(_, l, r) => UniqueSymbols(l) && UniqueSymbols(r) && Symbols(l) !! Symbols(r)
  }

  lemma {:induction false} DistinctUnique(t: Tree)
    requires DistinctKeys(Leaves(t))
    ensures UniqueSymbols(t)
  {
    match t
    case Leaf(_, _) =>
    case Node(_, l, r) =>
      DistinctSplit(Leaves(l), Leaves(r));
      DistinctUnique(l);
      DistinctUnique(r);
      SymbolsAreKeys(l);
      SymbolsAreKeys(r);
  }

  /** The route from the root to c's leaf, '0' for left and '1' for
      right, taking the left subtree when c is there. */
  function PathTo(t: Tree, c: char): (p: string)
    requires c in Symbols(t)
    ensures forall i :: 0 <= i < |p| ==> p[i] == '0' || p[i] == '1'
    ensures t.Node? <==> |p| > 0
  {
    match t
    case Leaf(_, _) => ""
    case Node(_, l, r) =>
      if c in Symbols(l) then "0" + PathTo(l, c) else "1" + PathTo(r, c)
  }

  /** The code a leaf reached by prefix gets: the prefix, or "0" when it
      is empty, that is when the whole tree is one leaf. */
  function LeafCode(prefix: string): string
  {
    if prefix == "" then "0" else prefix
  }

  /** generar_codigos below a subtree reached by prefix (huffman.py:115-132):
      a leaf records its code in the table; an internal node walks left
      with '0' appended, then right with '1' appended. */
  function CodesFrom(t: Tree, prefix: string, acc: map<char, string>): map<char, string>
  {
    match t
    case Leaf(c, _) => acc[c := LeafCode(prefix)]
    case Node(_, l, r) => CodesFrom(r, prefix + "1", CodesFrom(l, prefix + "0", acc))
  }

  lemma {:induction false} CodesFromKeys(t: Tree, prefix: string, acc: map<char, string>)
    ensures CodesFrom(t, prefix, acc).Keys == acc.Keys + Symbols(t)
  {
    match t
    case Leaf(c, _) =>
    case Node(_, l, r) =>
      CodesFromKeys(l, prefix + "0", acc);
      CodesFromKeys(r, prefix + "1", CodesFrom(l, prefix + "0", acc));
  }

  /** With one leaf per character, each leaf's code is the prefix followed
      by its path, and the entries of other characters stay as they were. */
  lemma {:induction false} CodesFromPaths(t: Tree, prefix: string, acc: map<char, string>)
    requires UniqueSymbols(t)
    ensures CodesFrom(t, prefix, acc).Keys == acc.Keys + Symbols(t)
    ensures forall c :: c in Symbols(t) ==> CodesFrom(t, prefix, acc)[c] == LeafCode(prefix + PathTo(t, c))
    ensures forall c :: c in acc && c !in Symbols(t) ==> CodesFrom(t, prefix, acc)[c] == acc[c]
  {
    CodesFromKeys(t, prefix, acc);
    match t
    case Leaf(c, _) =>
    case Node(_, l, r) =>
      var m := CodesFrom(l, prefix + "0", acc);
      CodesFromPaths(l, prefix + "0", acc);
      CodesFromPaths(r, prefix + "1", m);
      forall c | c in Symbols(t) ensures CodesFrom(t, prefix, acc)[c] == LeafCode(prefix + PathTo(t, c)) {
        PathExtend(t, prefix, c);
      }
  }

  /** The prefix plus the path from a node is the prefix extended by the
      branch taken plus the path from that child. */
  lemma PathExtend(t: Tree, prefix: string, c: char)
    requires t.Node? && c in Symbols(t)
    ensures c in Symbols(t.left) ==> prefix + PathTo(t, c) == (prefix + "0") + PathTo(t.left, c)
    ensures c !in Symbols(t.left) ==> prefix + PathTo(t, c) == (prefix + "1") + PathTo(t.right, c)
  {
    if c in Symbols(t.left) {
      AppendAssoc(prefix, "0", PathTo(t.left, c));
    } else {
      AppendAssoc(prefix, "1", PathTo(t.right, c));
    }
  }

  lemma AppendAssoc(a: string, b: string, c: string)
    ensures a + (b + c) == (a + b) + c
  {
  }

  /** generar_codigos (huffman.py:100-132): no tree gives an empty table;
      a tree gives one code per leaf character, "0" for a lone leaf. */
  function GenerateCodes(root: Option<Tree>): (codes: map<char, string>)
    ensures root.None? ==> codes == map[]
    ensures root.Some? ==> codes.Keys == Symbols(root.value)
    ensures root.Some? && root.value.Leaf? ==> codes == map[root.value.sym := "0"]
  {
    match root
    case None => map[]
    case Some(t) =>
      CodesFromKeys(t, "", map[]);
      CodesFrom(t, "", map[])
  }

  /** In a tree of two or more leaves, one per character, every code is
      the non-empty 0/1 path from the root to the character's leaf. */
  lemma CodesArePaths(t: Tree)
    requires t.Node? && UniqueSymbols(t)
    ensures forall c :: c in Symbols(t) ==>
      && GenerateCodes(Some(t))[c] == PathTo(t, c)
      && |GenerateCodes(Some(t))[c]| > 0
      && forall i :: 0 <= i < |GenerateCodes(Some(t))[c]| ==> GenerateCodes(Some(t))[c][i] in {'0', '1'}
  {
    CodesFromPaths(t, "", map[]);
    forall c | c in Symbols(t) ensures GenerateCodes(Some(t))[c] == PathTo(t, c) {
      assert "" + PathTo(t, c) == PathTo(t, c);
    }
  }

  lemma PrefixCons(b: char, x: string, y: string)
    ensures [b] + x <= [b] + y ==> x <= y
  {
    if [b] + x <= [b] + y {
      assert x == ([b] + x)[1..];
      assert y[..|x|] == ([b] + y)[1..|x| + 1];
    }
  }

  /** No character's path is a prefix of another character's path. */
  lemma {:induction false} PrefixFree(t: Tree, c: char, d: char)
    requires UniqueSymbols(t)
    requires c in Symbols(t) && d in Symbols(t) && c != d
    ensures !(PathTo(t, c) <= PathTo(t, d))
  {
    match t
    case Leaf(_, _) =>
    case Node(_, l, r) =>
      if c in Symbols(l) && d in Symbols(l) {
        PrefixFree(l, c, d);
        PrefixCons('0', PathTo(l, c), PathTo(l, d));
      } else if c !in Symbols(l) && d !in Symbols(l) {
        PrefixFree(r, c, d);
        PrefixCons('1', PathTo(r, c), PathTo(r, d));
      } else {
        assert PathTo(t, c)[0] != PathTo(t, d)[0];
      }
  }

  // ---------------------------------------------------------------------
  // Reading codes back

  /** Reads one character off the front of bits, walking down from t:
      '0' goes left and '1' right until a leaf. Gives the leaf's
      character and the bits left over, or None when the bits run out at
      an internal node or hold something other than '0' and '1'. */
  function Walk(t: Tree, bits: string): (r: Option<(char, string)>)
    ensures r.Some? ==> r.value.0 in Symbols(t)
    ensures r.Some? ==> |r.value.1| <= |bits|
    ensures r.Some? && t.Node? ==> |r.value.1| < |bits|
  {
    match t
    case Leaf(c, _) => Some((c, bits))
    case Node(_, l, r) =>
      if bits == "" then None
      else if bits[0] == '0' then Walk(l, bits[1..])
      else if bits[0] == '1' then Walk(r, bits[1..])
      else None
  }

  /** Walking a character's path, whatever follows it, reads that
      character and leaves what follows. */
  lemma {:induction false} WalkPath(t: Tree, c: char, rest: string)
    requires c in Symbols(t)
    ensures Walk(t, PathTo(t, c) + rest) == Some((c, rest))
  {
    match t
    case Leaf(_, _) =>
      assert PathTo(t, c) + rest == rest;
    case Node(_, l, r) =>
      var below := if c in Symbols(l) then l else r;
      WalkPath(below, c, rest);
      WalkPathStep(t, c, rest);
  }

  /** The step of WalkPath at an internal node: the first bit of the path
      leads to the child holding c. */
  lemma WalkPathStep(t: Tree, c: char, rest: string)
    requires t.Node? && c in Symbols(t)
    requires var below := if c in Symbols(t.left) then t.left else t.right;
      Walk(below, PathTo(below, c) + rest) == Some((c, rest))
    ensures Walk(t, PathTo(t, c) + rest) == Some((c, rest))
  {
    var b := if c in Symbols(t.left) then '0' else '1';
    var below := if c in Symbols(t.left) then t.left else t.right;
    var tail := PathTo(below, c) + rest;
    assert PathTo(t, c) == [b] + PathTo(below, c);
    AppendAssoc([b], PathTo(below, c), rest);
    assert PathTo(t, c) + rest == [b] + tail;
    assert ([b] + tail)[0] == b && ([b] + tail)[1..] == tail;
  }

  /** With one leaf per character, a walk that reads c consumed exactly
      c's path: no other bits lead to c's leaf. */
  lemma {:induction false} WalkOnlyPath(t: Tree, bits: string)
    requires UniqueSymbols(t)
    ensures Walk(t, bits).Some? ==> bits == PathTo(t, Walk(t, bits).value.0) + Walk(t, bits).value.1
  {
    match t
    case Leaf(_, _) =>
    case Node(_, l, r) =>
      if bits != "" && (bits[0] == '0' || bits[0] == '1') {
        WalkOnlyPath(if bits[0] == '0' then l else r, bits[1..]);
        WalkOnlyPathStep(t, bits[0], bits[1..]);
      }
  }

  /** The step of WalkOnlyPath at an internal node, from the fact about
      the child the first bit leads to. */
  lemma WalkOnlyPathStep(t: Tree, b: char, tail: string)
    requires t.Node? && UniqueSymbols(t) && (b == '0' || b == '1')
    requires var below := if b == '0' then t.left else t.right;
      Walk(below, tail).Some? ==> tail == PathTo(below, Walk(below, tail).value.0) + Walk(below, tail).value.1
    ensures Walk(t, [b] + tail).Some? ==> [b] + tail == PathTo(t, Walk(t, [b] + tail).value.0) + Walk(t, [b] + tail).value.1
  {
    var below := if b == '0' then t.left else t.right;
    assert ([b] + tail)[1..] == tail;
    assert Walk(t, [b] + tail) == Walk(below, tail);
    if Walk(below, tail).Some? {
      var c, rest := Walk(below, tail).value.0, Walk(below, tail).value.1;
      assert c in Symbols(t.left) <==> b == '0';
      assert PathTo(t, c) == [b] + PathTo(below, c);
      AppendAssoc([b], PathTo(below, c), rest);
    }
  }

  /** Reads a whole bit string as a sequence of codes of a tree of two or
      more leaves; None when some code is cut short or malformed. */
  function DecodeAll(t: Tree, bits: string): (r: Option<string>)
    requires t.Node?
    ensures r.Some? ==> |r.value| <= |bits|
    decreases |bits|
  {
    if bits == "" then Some("")
    else
      match Walk(t, bits)
      case None => None
      case Some((c, rest)) =>
        match DecodeAll(t, rest)
        case None => None
        case Some(more) => Some([c] + more)
  }

  // ---------------------------------------------------------------------
  // Encoding and bit counts

  /** The text with each character replaced by its code. */
  function Encode(codes: map<char, string>, text: string): string
    requires forall c :: c in text ==> c in codes
  {
    if |text| == 0 then "" else codes[text[0]] + Encode(codes, text[1..])
  }

  lemma {:induction false} EncodeAppend(codes: map<char, string>, a: string, b: string)
    requires forall c :: c in a + b ==> c in codes
    ensures Encode(codes, a + b) == Encode(codes, a) + Encode(codes, b)
    decreases |a|
  {
    if |a| == 0 {
      assert a + b == b;
    } else {
      assert (a + b)[0] == a[0];
      assert (a + b)[1..] == a[1..] + b;
      EncodeAppend(codes, a[1..], b);
    }
  }

  /** With codes from a tree of two or more leaves, decoding the encoded
      text gives the text back. */
  lemma {:induction false} DecodeEncode(t: Tree, codes: map<char, string>, text: string)
    requires t.Node?
    requires forall c :: c in text ==> c in Symbols(t) && c in codes && codes[c] == PathTo(t, c)
    ensures DecodeAll(t, Encode(codes, text)) == Some(text)
    decreases |text|
  {
    if |text| > 0 {
      var rest := Encode(codes, text[1..]);
      assert text[0] in text;
      WalkPath(t, text[0], rest);
      DecodeEncode(t, codes, text[1..]);
      assert [text[0]] + text[1..] == text;
    }
  }

  /** The length of each character's code, 0 for a character without one. */
  function CodeLength(codes: map<char, string>): char -> int
  {
    c => if c in codes then |codes[c]| else 0
  }

  /** bits_comprimido (huffman.py:336): each character's count times the
      length of its code, summed over the table. A character without a
      code would raise KeyError; callers pass codes for every entry. */
  function CompressedBits(codes: map<char, string>, fs: Table): int
    requires Keys(fs) <= codes.Keys
  {
    Weighted(fs, CodeLength(codes))
  }

  /** bits_original (huffman.py:335): eight bits per character. */
  function OriginalBits(text: string): int
  {
    |text| * 8
  }

  /** Counting the text's characters and weighing them by code length
      gives the length of the encoded text. */
  lemma {:induction false} TallyEncode(codes: map<char, string>, text: string, n: nat)
    requires n <= |text|
    requires forall c :: c in text ==> c in codes
    ensures Weighted(Tally(text, n), CodeLength(codes)) == |Encode(codes, text[..n])|
  {
    if n > 0 {
      TallyEncode(codes, text, n - 1);
      WeightedBump(Tally(text, n - 1), text[n - 1], CodeLength(codes));
      assert text[..n] == text[..n - 1] + [text[n - 1]];
      EncodeAppend(codes, text[..n - 1], [text[n - 1]]);
      assert [text[n - 1]][1..] == "";
    }
  }

  /** One-bit codes make the encoded text as long as the text. */
  lemma {:induction false} EncodeUnitLength(codes: map<char, string>, text: string)
    requires forall c :: c in text ==> c in codes && |codes[c]| == 1
    ensures |Encode(codes, text)| == |text|
    decreases |text|
  {
    if |text| > 0 {
      assert text[0] in text;
      EncodeUnitLength(codes, text[1..]);
    }
  }

  /** Leaves at depth n below the root of the code tree, weighed by their
      code lengths, cost n times the subtree's count plus the subtree's
      merge cost: every internal node's count is paid once per bit it adds
      below it. */
  lemma {:induction false} PathBits(t: Tree, n: nat, codes: map<char, string>)
    requires WellFormed(t) && UniqueSymbols(t)
    requires forall c :: c in Symbols(t) ==> c in codes && |codes[c]| == n + |PathTo(t, c)|
    ensures Weighted(Leaves(t), CodeLength(codes)) == n * t.freq + MergeCost(t)
  {
    match t
    case Leaf(c, f) =>
      assert Leaves(t)[1..] == [];
    case Node(f, l, r) =>
      CodesBelow(t, n, codes);
      PathBits(l, n + 1, codes);
      PathBits(r, n + 1, codes);
      WeightedAppend(Leaves(l), Leaves(r), CodeLength(codes));
      Distribute(n, l.freq, r.freq);
  }

  /** A code n bits longer than the path at a node is n + 1 bits longer
      than the path in the subtree below. */
  lemma CodesBelow(t: Tree, n: nat, codes: map<char, string>)
    requires t.Node? && Symbols(t.left) !! Symbols(t.right)
    requires forall c :: c in Symbols(t) ==> c in codes && |codes[c]| == n + |PathTo(t, c)|
    ensures forall c :: c in Symbols(t.left) ==> c in codes && |codes[c]| == n + 1 + |PathTo(t.left, c)|
    ensures forall c :: c in Symbols(t.right) ==> c in codes && |codes[c]| == n + 1 + |PathTo(t.right, c)|
  {
  }

  lemma MulSucc(a: int, b: int)
    ensures a * (b + 1) == a * b + a
  {
  }

  lemma Distribute(n: int, a: int, b: int)
    ensures (n + 1) * a + (n + 1) * b == n * (a + b) + a + b
  {
  }

  // ---------------------------------------------------------------------
  // Tables with the same entries

  lemma KeysPerm(a: Table, b: Table)
    requires multiset(a) == multiset(b)
    ensures Keys(a) == Keys(b)
  {
    forall x | x in Keys(a) ensures x in Keys(b) {
      var k :| 0 <= k < |a| && a[k].0 == x;
      assert a[k] in multiset(b);
      var j :| 0 <= j < |b| && b[j] == a[k];
    }
    forall x | x in Keys(b) ensures x in Keys(a) {
      var k :| 0 <= k < |b| && b[k].0 == x;
      assert b[k] in multiset(a);
      var j :| 0 <= j < |a| && a[j] == b[k];
    }
  }

  /** Two positions holding the same value count twice in the multiset. */
  lemma CountTwo<T>(s: seq<T>, i: nat, j: nat)
    requires i < j < |s| && s[i] == s[j]
    ensures multiset(s)[s[i]] >= 2
  {
    assert s == s[..j] + s[j..];
    assert s[i] == s[..j][i];
    assert s[j] == s[j..][0];
  }

  /** A value counted twice sits at two positions. */
  lemma TwoPositions<T>(s: seq<T>, x: T)
    requires multiset(s)[x] >= 2
    ensures exists i, j :: 0 <= i < |s| && 0 <= j < |s| && i != j && s[i] == x && s[j] == x
  {
    var i :| 0 <= i < |s| && s[i] == x;
    var t := RemoveAt(s, i);
    assert x in multiset(t);
    var k :| 0 <= k < |t| && t[k] == x;
    if k < i {
      assert s[k] == t[k];
    } else {
      assert s[k + 1] == t[k];
    }
  }

  /** A key repeated in b is repeated in any table with the same entries. */
  lemma SameKeyPositions(a: Table, b: Table, i: nat, j: nat)
    requires multiset(a) == multiset(b)
    requires i < j < |b|
    ensures b[i].0 == b[j].0 ==>
      exists p, q :: 0 <= p < |a| && 0 <= q < |a| && p != q && a[p].0 == a[q].0
  {
    if b[i].0 == b[j].0 {
      if b[i] == b[j] {
        CountTwo(b, i, j);
        TwoPositions(a, b[i]);
      } else {
        assert b[i] in multiset(a) && b[j] in multiset(a);
        var p :| 0 <= p < |a| && a[p] == b[i];
        var q :| 0 <= q < |a| && a[q] == b[j];
      }
    }
  }

  /** Reordering a table keeps its keys distinct. */
  lemma DistinctPerm(a: Table, b: Table)
    requires DistinctKeys(a) && multiset(a) == multiset(b)
    ensures DistinctKeys(b)
  {
    forall i, j | 0 <= i < j < |b| ensures b[i].0 != b[j].0 {
      SameKeyPositions(a, b, i, j);
    }
  }

  // ---------------------------------------------------------------------
  // The whole run

  /** The Huffman part of ejecutar_huffman (huffman.py:302-336), without
      reading the file, printing and drawing: count the characters, build
      the tree, generate the codes, and compute the original and the
      compressed sizes in bits. The compressed size is the length of the
      text written with the codes; with two or more distinct characters
      that writing decodes back to the text, and its length is the sum of
      the tree's internal counts. */
  method Compress(text: string) returns (tree: Option<Tree>, codes: map<char, string>, original: int, compressed: int)
    ensures original == 8 * |text|
    ensures tree.None? <==> |text| == 0
    ensures forall c :: c in codes <==> c in text
    ensures compressed == |Encode(codes, text)|
    ensures tree.Some? ==> WellFormed(tree.value) && tree.value.freq == |text| && codes.Keys == Symbols(tree.value)
    ensures tree.Some? && tree.value.Leaf? ==> codes == map[tree.value.sym := "0"] && compressed == |text|
    ensures tree.Some? && tree.value.Node? ==>
      && (forall c :: c in codes ==> codes[c] == PathTo(tree.value, c))
      && DecodeAll(tree.value, Encode(codes, text)) == Some(text)
      && compressed == MergeCost(tree.value)
    ensures tree.Some? && tree.value.Node? ==>
      forall s :: WellFormed(s) && multiset(Leaves(s)) == multiset(Frequencies(text)) ==> compressed <= MergeCost(s)
  {
    var fs := Frequencies(text);
    FrequenciesCount(text);
    var forests, picks;
    tree, forests, picks := BuildTree(fs);
    codes := GenerateCodes(tree);
    original := OriginalBits(text);
    if tree.Some? {
      var t := tree.value;
      SymbolsAreKeys(t);
      KeysPerm(Leaves(t), fs);
    }
    compressed := CompressedBits(codes, fs);
    TallyEncode(codes, text, |text|);
    assert text[..|text|] == text;
    if tree.Some? {
      var t := tree.value;
      DistinctPerm(fs, Leaves(t));
      DistinctUnique(t);
      if t.Leaf? {
        EncodeUnitLength(codes, text);
      } else {
        NodeRun(t, fs, text);
      }
    }
  }

  /** With two or more distinct characters: every code is the path to its
      character's leaf, the encoded text decodes back to the text, and the
      compressed size in bits is the tree's merge cost. */
  lemma NodeRun(t: Tree, fs: Table, text: string)
    requires t.Node? && WellFormed(t) && DistinctKeys(Leaves(t))
    requires multiset(Leaves(t)) == multiset(fs)
    requires forall c :: c in text ==> c in Symbols(t)
    ensures forall c :: c in GenerateCodes(Some(t)) ==> GenerateCodes(Some(t))[c] == PathTo(t, c)
    ensures DecodeAll(t, Encode(GenerateCodes(Some(t)), text)) == Some(text)
    ensures Weighted(fs, CodeLength(GenerateCodes(Some(t)))) == MergeCost(t)
  {
    var codes := GenerateCodes(Some(t));
    DistinctUnique(t);
    CodesArePaths(t);
    DecodeEncode(t, codes, text);
    WeightedPerm(fs, Leaves(t), CodeLength(codes));
    PathBits(t, 0, codes);
  }
}
