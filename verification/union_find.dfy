/** The disjoint-set structure of kruskal.py:14-79: a parent dictionary
    (`padre`) and a rank dictionary (`rango`), with path compression in
    `encontrar` and union by rank in `unir`. */
module UnionFind {
  import opened Graph

  /** Both dictionaries have the same keys, the registered nodes; the
      contracts below speak of registration as membership in `rank`. */
  datatype UnionFind = UnionFind(parent: map<Node, Node>, rank: map<Node, nat>)

  /** Both dictionaries cover the same nodes, parents are registered nodes,
      and rank strictly grows from a non-root to its parent, so parent
      chains cannot cycle. */
  predicate Valid(uf: UnionFind)
  {
    && (forall x {:trigger x in uf.parent} :: x in uf.parent ==> x in uf.rank)
    && (forall x {:trigger uf.parent[x]} {:trigger x in uf.parent} :: x in uf.rank ==>
          && x in uf.parent
          && uf.parent[x] in uf.rank
          && (uf.parent[x] != x ==> uf.rank[x] < uf.rank[uf.parent[x]]))
  }

  /** Nodes of strictly higher rank than x: shrinks along a parent chain. */
  function Above(uf: UnionFind, x: Node): set<Node>
    requires x in uf.rank
  {
    set y | y in uf.rank && uf.rank[y] > uf.rank[x]
  }

  lemma AboveShrinks(uf: UnionFind, x: Node)
    requires Valid(uf) && x in uf.rank && uf.parent[x] != x
    ensures |Above(uf, uf.parent[x])| < |Above(uf, x)|
  {
    var p := uf.parent[x];
    var a, b := Above(uf, p), Above(uf, x);
    assert a <= b;
    assert p in b - a;
    assert b == a + (b - a);
    assert |b| == |a| + |b - a|;
  }

  /** The representative of x: the root reached by following parents,
      without changing anything. */
  function Root(uf: UnionFind, x: Node): (r: Node)
    requires Valid(uf) && x in uf.rank
    ensures r in uf.rank && uf.parent[r] == r
    ensures r != x ==> uf.rank[x] < uf.rank[r]
    decreases |Above(uf, x)|
  {
    if uf.parent[x] == x then x
    else
      AboveShrinks(uf, x);
      Root(uf, uf.parent[x])
  }

  /** The nodes that are their own parent, one per disjoint set. */
  function Roots(uf: UnionFind): set<Node>
  {
    set x | x in uf.parent && uf.parent[x] == x
  }

  /** `UnionFind(nodos)` (kruskal.py:32-33): every node its own parent with
      rank 0, so each node is alone in its set. */
  function Init(nodes: seq<Node>): (uf: UnionFind)
    ensures Valid(uf)
    ensures forall x {:trigger x in uf.rank} :: x in uf.rank <==> x in nodes
    ensures forall x {:trigger uf.parent[x]} :: x in uf.rank ==> uf.parent[x] == x && uf.rank[x] == 0
    ensures forall x, y {:trigger Root(uf, x), Root(uf, y)} ::
      x in uf.rank && y in uf.rank ==> (Root(uf, x) == Root(uf, y) <==> x == y)
    ensures Roots(uf) == uf.rank.Keys
  {
    UnionFind(map x | x in nodes :: x, map x | x in nodes :: 0)
  }

  /** Re-pointing x at a root r of higher rank keeps the structure valid. */
  lemma LinkValid(uf: UnionFind, x: Node, r: Node)
    requires Valid(uf) && x in uf.rank && r in uf.rank && uf.parent[r] == r
    requires r != x ==> uf.rank[x] < uf.rank[r]
    ensures Valid(uf.(parent := uf.parent[x := r]))
  {
  }

  function Compress(uf: UnionFind, x: Node): UnionFind
    requires Valid(uf) && x in uf.rank
  {
    uf.(parent := uf.parent[x := Root(uf, x)])
  }

  /** Pointing x straight at its root keeps every node's representative. */
  lemma CompressPreservesRoots(uf: UnionFind, x: Node)
    requires Valid(uf) && x in uf.rank
    ensures Valid(Compress(uf, x))
    ensures forall y {:trigger Root(Compress(uf, x), y)} :: y in uf.rank ==> Root(Compress(uf, x), y) == Root(uf, y)
  {
    LinkValid(uf, x, Root(uf, x));
    forall y | y in uf.rank
      ensures Root(Compress(uf, x), y) == Root(uf, y)
    {
      CompressedRoot(uf, x, y);
    }
  }

  lemma {:induction false} CompressedRoot(uf: UnionFind, x: Node, y: Node)
    requires Valid(uf) && x in uf.rank && y in uf.rank
    requires Valid(Compress(uf, x))
    ensures Root(Compress(uf, x), y) == Root(uf, y)
    decreases |Above(uf, y)|
  {
    var uf' := Compress(uf, x);
    var r := Root(uf, x);
    if y == x {
      if r != x {
        assert uf'.parent[x] == r && uf'.parent[r] == r;
      }
    } else if uf.parent[y] != y {
      AboveShrinks(uf, y);
      CompressedRoot(uf, x, uf.parent[y]);
      assert uf'.parent[y] == uf.parent[y];
    }
  }

  /** The nodes on the parent chain from x up to its representative,
      both ends included. */
  function Chain(uf: UnionFind, x: Node): (c: set<Node>)
    requires Valid(uf) && x in uf.rank
    ensures x in c && Root(uf, x) in c
    ensures forall y {:trigger y in c} :: y in c ==> y in uf.rank && Root(uf, y) == Root(uf, x)
    decreases |Above(uf, x)|
  {
    if uf.parent[x] == x then {x}
    else
      AboveShrinks(uf, x);
      {x} + Chain(uf, uf.parent[x])
  }

  /** `encontrar` (kruskal.py:47-49): returns the representative of x and
      the structure after path compression: every node on x's parent chain
      points directly at the representative, and every other node keeps
      its parent. Ranks, the set of roots and every node's representative
      are left as they were. */
  function Find(uf: UnionFind, x: Node): (res: (Node, UnionFind))
    requires Valid(uf) && x in uf.rank
    ensures res.0 == Root(uf, x)
    ensures Valid(res.1) && res.1.rank == uf.rank
    ensures forall y {:trigger y in Chain(uf, x)} :: y in Chain(uf, x) ==> y in uf.rank && res.1.parent[y] == res.0
    ensures forall y {:trigger res.1.parent[y]} :: y in uf.rank && y !in Chain(uf, x) ==> res.1.parent[y] == uf.parent[y]
    ensures forall y {:trigger Root(res.1, y)} :: y in uf.rank ==> Root(res.1, y) == Root(uf, y)
    ensures forall y {:trigger res.1.parent[y]} :: y in uf.rank ==> (res.1.parent[y] == y <==> uf.parent[y] == y)
    decreases |Above(uf, x)|
  {
    if uf.parent[x] == x then (x, uf)
    else
      AboveShrinks(uf, x);
      var (r, uf1) := Find(uf, uf.parent[x]);
      FindStep(uf, x, r, uf1);
      (r, Compress(uf1, x))
  }

  lemma FindStep(uf: UnionFind, x: Node, r: Node, uf1: UnionFind)
    requires Valid(uf) && x in uf.rank && uf.parent[x] != x
    requires r == Root(uf, uf.parent[x])
    requires Valid(uf1) && uf1.rank == uf.rank
    requires forall y {:trigger y in Chain(uf, uf.parent[x])} :: y in Chain(uf, uf.parent[x]) ==> y in uf.rank && uf1.parent[y] == r
    requires forall y {:trigger uf1.parent[y]} :: y in uf.rank && y !in Chain(uf, uf.parent[x]) ==> uf1.parent[y] == uf.parent[y]
    requires forall y {:trigger Root(uf1, y)} :: y in uf.rank ==> Root(uf1, y) == Root(uf, y)
    requires forall y {:trigger uf1.parent[y]} :: y in uf.rank ==> (uf1.parent[y] == y <==> uf.parent[y] == y)
    ensures Root(uf1, x) == r == Root(uf, x)
    ensures Valid(Compress(uf1, x)) && Compress(uf1, x).rank == uf.rank
    ensures forall y {:trigger y in Chain(uf, x)} :: y in Chain(uf, x) ==> y in uf.rank && Compress(uf1, x).parent[y] == r
    ensures forall y {:trigger Compress(uf1, x).parent[y]} :: y in uf.rank && y !in Chain(uf, x) ==> Compress(uf1, x).parent[y] == uf.parent[y]
    ensures forall y {:trigger Root(Compress(uf1, x), y)} :: y in uf.rank ==> Root(Compress(uf1, x), y) == Root(uf, y)
    ensures forall y {:trigger Compress(uf1, x).parent[y]} :: y in uf.rank ==> (Compress(uf1, x).parent[y] == y <==> uf.parent[y] == y)
  {
    CompressPreservesRoots(uf1, x);
    assert Chain(uf, x) == {x} + Chain(uf, uf.parent[x]);
  }

  /** Two valid structures over the same nodes with the same self-parented
      nodes have the same root set. */
  lemma RootsAgree(uf: UnionFind, uf': UnionFind)
    requires Valid(uf) && Valid(uf')
    requires forall y {:trigger y in uf'.rank} :: y in uf'.rank <==> y in uf.rank
    requires forall y {:trigger uf'.parent[y]} :: y in uf.rank ==> (uf'.parent[y] == y <==> uf.parent[y] == y)
    ensures Roots(uf') == Roots(uf)
  {
    forall y | y in Roots(uf') ensures y in Roots(uf) {
      assert y in uf'.parent && y in uf'.rank;
    }
    forall y | y in Roots(uf) ensures y in Roots(uf') {
      assert y in uf.parent && y in uf.rank;
    }
  }

  /** Raising the rank of a root keeps the structure valid and changes no
      representative. */
  lemma {:induction false} BumpRoot(uf: UnionFind, r: Node, y: Node)
    requires Valid(uf) && r in uf.rank && uf.parent[r] == r && y in uf.rank
    ensures Valid(uf.(rank := uf.rank[r := uf.rank[r] + 1]))
    ensures Root(uf.(rank := uf.rank[r := uf.rank[r] + 1]), y) == Root(uf, y)
    decreases |Above(uf, y)|
  {
    var uf' := uf.(rank := uf.rank[r := uf.rank[r] + 1]);
    assert Valid(uf') by {
      forall x | x in uf'.rank
        ensures uf'.parent[x] != x ==> uf'.rank[x] < uf'.rank[uf'.parent[x]]
      {
        assert x in uf.rank;
      }
    }
    if uf.parent[y] != y {
      AboveShrinks(uf, y);
      BumpRoot(uf, r, uf.parent[y]);
    }
  }

  /** Hangs root l under root w. */
  function Link(uf: UnionFind, l: Node, w: Node): UnionFind
  {
    uf.(parent := uf.parent[l := w])
  }

  /** The representative a node of l's set gets once l hangs under w. */
  function Moved(r: Node, l: Node, w: Node): Node
  {
    if r == l then w else r
  }

  /** Hanging root l under a root w of higher rank sends exactly the
      members of l's set to w. */
  lemma {:induction false} LinkRoot(uf: UnionFind, l: Node, w: Node, y: Node)
    requires Valid(uf) && l in uf.rank && w in uf.rank && y in uf.rank
    requires uf.parent[l] == l && uf.parent[w] == w && uf.rank[l] < uf.rank[w]
    requires Valid(Link(uf, l, w))
    ensures Root(Link(uf, l, w), y) == Moved(Root(uf, y), l, w)
    decreases |Above(uf, y)|
  {
    var uf' := Link(uf, l, w);
    if y == l {
      assert uf'.parent[l] == w && uf'.parent[w] == w;
    } else if uf.parent[y] != y {
      AboveShrinks(uf, y);
      LinkRoot(uf, l, w, uf.parent[y]);
      assert uf'.parent[y] == uf.parent[y];
    }
  }

  lemma LinkRoots(uf: UnionFind, l: Node, w: Node)
    requires Valid(uf) && l in uf.rank && w in uf.rank
    requires uf.parent[l] == l && uf.parent[w] == w && uf.rank[l] < uf.rank[w]
    ensures Valid(Link(uf, l, w))
    ensures forall y {:trigger Root(Link(uf, l, w), y)} :: y in uf.rank ==>
      Root(Link(uf, l, w), y) == Moved(Root(uf, y), l, w)
    ensures Roots(Link(uf, l, w)) == Roots(uf) - {l}
    ensures |Roots(Link(uf, l, w))| == |Roots(uf)| - 1
  {
    LinkValid(uf, l, w);
    LinkRootSet(uf, l, w);
    forall y | y in uf.rank
      ensures Root(Link(uf, l, w), y) == Moved(Root(uf, y), l, w)
    {
      LinkRoot(uf, l, w, y);
    }
  }

  lemma LinkRootSet(uf: UnionFind, l: Node, w: Node)
    requires Valid(uf) && l in uf.rank && w in uf.rank
    requires uf.parent[l] == l && uf.parent[w] == w && l != w
    ensures Roots(Link(uf, l, w)) == Roots(uf) - {l}
    ensures |Roots(Link(uf, l, w))| == |Roots(uf)| - 1
  {
    var p' := uf.parent[l := w];
    var a, b := Roots(uf.(parent := p')), Roots(uf);
    forall y | y in a ensures y in b - {l} {
      assert p'[y] == y;
    }
    forall y | y in b - {l} ensures y in a {
      assert p'[y] == uf.parent[y];
    }
    assert l in b;
  }

  lemma BumpRoots(uf: UnionFind, r: Node)
    requires Valid(uf) && r in uf.rank && uf.parent[r] == r
    ensures Valid(uf.(rank := uf.rank[r := uf.rank[r] + 1]))
    ensures forall y {:trigger Root(uf.(rank := uf.rank[r := uf.rank[r] + 1]), y)} :: y in uf.rank ==>
      Root(uf.(rank := uf.rank[r := uf.rank[r] + 1]), y) == Root(uf, y)
  {
    BumpRoot(uf, r, r);
    forall y | y in uf.rank
      ensures Root(uf.(rank := uf.rank[r := uf.rank[r] + 1]), y) == Root(uf, y)
    {
      BumpRoot(uf, r, y);
    }
  }

  /** The root that survives when roots r1 and r2 are united: the one of
      higher rank, and r1 on a tie. */
  function Winner(uf: UnionFind, r1: Node, r2: Node): Node
    requires r1 in uf.rank && r2 in uf.rank
  {
    if uf.rank[r1] < uf.rank[r2] then r2 else r1
  }

  /** The union-by-rank step of `unir` (kruskal.py:71-77) on two distinct
      roots. */
  function LinkByRank(uf: UnionFind, r1: Node, r2: Node): (res: UnionFind)
    requires Valid(uf) && r1 in uf.rank && r2 in uf.rank && r1 != r2
    requires uf.parent[r1] == r1 && uf.parent[r2] == r2
    ensures Valid(res)
    ensures forall x {:trigger x in res.rank} :: x in res.rank <==> x in uf.rank
    ensures forall y {:trigger Root(res, y)} :: y in uf.rank && (Root(uf, y) == r1 || Root(uf, y) == r2) ==>
      Root(res, y) == Winner(uf, r1, r2)
    ensures forall y {:trigger Root(res, y)} :: y in uf.rank && Root(uf, y) != r1 && Root(uf, y) != r2 ==>
      Root(res, y) == Root(uf, y)
    ensures |Roots(res)| == |Roots(uf)| - 1
    ensures res.rank == (if uf.rank[r1] == uf.rank[r2] then uf.rank[r1 := uf.rank[r1] + 1] else uf.rank)
  {
    if uf.rank[r1] < uf.rank[r2] then
      LinkRoots(uf, r1, r2);
      Link(uf, r1, r2)
    else if uf.rank[r1] > uf.rank[r2] then
      LinkRoots(uf, r2, r1);
      Link(uf, r2, r1)
    else
      var uf1 := uf.(rank := uf.rank[r1 := uf.rank[r1] + 1]);
      BumpRoots(uf, r1);
      RootsAgree(uf, uf1);
      LinkRoots(uf1, r2, r1);
      Link(uf1, r2, r1)
  }

  /** `unir` (kruskal.py:64-79): false, changing no set, when a and b
      already share a representative; otherwise true, merging exactly the
      two sets under the representative `Winner` picks by rank. */
  function Union(uf: UnionFind, a: Node, b: Node): (res: (bool, UnionFind))
    requires Valid(uf) && a in uf.rank && b in uf.rank
    ensures Valid(res.1)
    ensures forall x {:trigger x in res.1.rank} :: x in res.1.rank <==> x in uf.rank
    ensures res.0 <==> Root(uf, a) != Root(uf, b)
    ensures Root(res.1, a) == Root(res.1, b)
    ensures forall y {:trigger Root(res.1, y)} :: y in uf.rank && (Root(uf, y) == Root(uf, a) || Root(uf, y) == Root(uf, b)) ==>
      Root(res.1, y) == Root(res.1, a)
    ensures forall y {:trigger Root(res.1, y)} :: y in uf.rank && Root(uf, y) != Root(uf, a) && Root(uf, y) != Root(uf, b) ==>
      Root(res.1, y) == Root(uf, y)
    ensures !res.0 ==> res.1.rank == uf.rank && Roots(res.1) == Roots(uf)
    ensures res.0 ==> |Roots(res.1)| == |Roots(uf)| - 1
    ensures res.0 ==> Root(res.1, a) == Winner(uf, Root(uf, a), Root(uf, b))
    ensures res.0 ==>
      res.1.rank == (if uf.rank[Root(uf, a)] == uf.rank[Root(uf, b)] then uf.rank[Root(uf, a) := uf.rank[Root(uf, a)] + 1] else uf.rank)
  {
    var (r1, uf1) := Find(uf, a);
    var (r2, uf2) := Find(uf1, b);
    RootsAgree(uf, uf1);
    RootsAgree(uf1, uf2);
    if r1 == r2 then (false, uf2)
    else
      UnionLink(uf, uf2, a, b);
      (true, LinkByRank(uf2, r1, r2))
  }

  /** After the two finds, linking the two distinct representatives merges
      exactly a's and b's sets, as seen from the structure before the finds. */
  lemma UnionLink(uf: UnionFind, uf2: UnionFind, a: Node, b: Node)
    requires Valid(uf) && Valid(uf2) && a in uf.rank && b in uf.rank
    requires uf2.rank == uf.rank && Roots(uf2) == Roots(uf)
    requires forall y {:trigger Root(uf2, y)} :: y in uf.rank ==> Root(uf2, y) == Root(uf, y)
    requires Root(uf, a) != Root(uf, b)
    requires uf2.parent[Root(uf, a)] == Root(uf, a) && uf2.parent[Root(uf, b)] == Root(uf, b)
    ensures var r1, r2 := Root(uf, a), Root(uf, b);
      var res := LinkByRank(uf2, r1, r2);
      && Root(res, a) == Root(res, b) == Winner(uf, r1, r2)
      && (forall y {:trigger Root(res, y)} :: y in uf.rank && (Root(uf, y) == r1 || Root(uf, y) == r2) ==>
            Root(res, y) == Root(res, a))
      && (forall y {:trigger Root(res, y)} :: y in uf.rank && Root(uf, y) != r1 && Root(uf, y) != r2 ==>
            Root(res, y) == Root(uf, y))
      && |Roots(res)| == |Roots(uf)| - 1
  {
    var r1, r2 := Root(uf, a), Root(uf, b);
    var res := LinkByRank(uf2, r1, r2);
    assert Root(res, a) == Winner(uf2, r1, r2);
    assert Root(res, b) == Winner(uf2, r1, r2);
  }
}
