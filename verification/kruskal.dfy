/** Kruskal's minimum-spanning-tree engine (kruskal.py:82-126): sort the
    edges by weight, then keep each edge whose endpoints the union-find
    structure still places in different sets. */
module Kruskal {
  import opened Graph
  import opened UnionFind

  // ---------------------------------------------------------------------
  // Sorting by weight

  predicate SortedByWeight(s: seq<Edge>)
  {
    forall i, j :: 0 <= i < j < |s| ==> s[i].w <= s[j].w
  }

  /** The edges of weight w, in their order in s. */
  function WithWeight(s: seq<Edge>, w: int): seq<Edge>
  {
    if |s| == 0 then [] else (if s[0].w == w then [s[0]] else []) + WithWeight(s[1..], w)
  }

  /** Places e in front of the first edge of s that weighs at least as much. */
  function Insert(e: Edge, s: seq<Edge>): (r: seq<Edge>)
    ensures multiset(r) == multiset(s) + multiset{e}
  {
    if |s| == 0 || e.w <= s[0].w then [e] + s
    else
      assert s == [s[0]] + s[1..];
      [s[0]] + Insert(e, s[1..])
  }

  lemma {:induction false} InsertSorted(e: Edge, s: seq<Edge>)
    requires SortedByWeight(s)
    ensures SortedByWeight(Insert(e, s))
    decreases |s|
  {
    if |s| > 0 && e.w > s[0].w {
      InsertSorted(e, s[1..]);
      var t := Insert(e, s[1..]);
      forall f | f in t ensures s[0].w <= f.w {
        assert f in multiset(t);
        if f != e {
          assert f in multiset(s[1..]);
          var j :| 0 <= j < |s[1..]| && s[1..][j] == f;
          assert f == s[j + 1];
        }
      }
    }
  }

  lemma {:induction false} InsertWithWeight(e: Edge, s: seq<Edge>, w: int)
    ensures WithWeight(Insert(e, s), w) == (if e.w == w then [e] else []) + WithWeight(s, w)
    decreases |s|
  {
    var ew: seq<Edge> := if e.w == w then [e] else [];
    if |s| == 0 || e.w <= s[0].w {
      assert ([e] + s)[0] == e && ([e] + s)[1..] == s;
    } else {
      InsertWithWeight(e, s[1..], w);
      var t := Insert(e, s[1..]);
      var a: seq<Edge> := if s[0].w == w then [s[0]] else [];
      var rest := WithWeight(s[1..], w);
      assert ([s[0]] + t)[0] == s[0] && ([s[0]] + t)[1..] == t;
      assert WithWeight(Insert(e, s), w) == a + (ew + rest);
      assert WithWeight(s, w) == a + rest;
      if e.w == w {
        assert a == [];
        assert a + (ew + rest) == ew + rest;
      } else {
        assert ew == [];
        assert a + (ew + rest) == a + rest;
      }
    }
  }

  /** `sorted(aristas, key=lambda x: x[2])` (kruskal.py:106): Python's
      sort is stable, so edges of equal weight keep their input order. */
  function SortByWeight(s: seq<Edge>): (r: seq<Edge>)
    ensures multiset(r) == multiset(s)
    ensures SortedByWeight(r)
  {
    if |s| == 0 then []
    else
      assert s == [s[0]] + s[1..];
      InsertSorted(s[0], SortByWeight(s[1..]));
      Insert(s[0], SortByWeight(s[1..]))
  }

  /** The sort is stable: for every weight, the edges of that weight appear
      in the result in exactly their input order. Together with the
      contract of SortByWeight this determines the result completely. */
  lemma {:induction false} SortByWeightStable(s: seq<Edge>, w: int)
    ensures WithWeight(SortByWeight(s), w) == WithWeight(s, w)
    decreases |s|
  {
    if |s| > 0 {
      SortByWeightStable(s[1..], w);
      InsertWithWeight(s[0], SortByWeight(s[1..]), w);
    }
  }

  // ---------------------------------------------------------------------
  // The greedy selection Kruskal performs, as a reference definition

  /** Scanning s in order, keep each edge whose endpoints the edges kept so
      far do not already connect. */
  ghost function Greedy(s: seq<Edge>): seq<Edge>
  {
    if |s| == 0 then []
    else
      var g := Greedy(s[..|s| - 1]);
      var e := s[|s| - 1];
      if Connected(g, e.u, e.v) then g else g + [e]
  }

  lemma {:induction false} GreedyForest(s: seq<Edge>)
    ensures IsForest(Greedy(s))
    decreases |s|
  {
    if |s| > 0 {
      var g := Greedy(s[..|s| - 1]);
      var e := s[|s| - 1];
      GreedyForest(s[..|s| - 1]);
      if !Connected(g, e.u, e.v) {
        var g' := g + [e];
        forall i | 0 <= i < |g'| ensures !Connected(g'[..i], g'[i].u, g'[i].v) {
          if i < |g| {
            assert g'[..i] == g[..i];
          } else {
            assert g'[..i] == g;
          }
        }
      }
    }
  }

  lemma {:induction false} GreedySubset(s: seq<Edge>)
    ensures multiset(Greedy(s)) <= multiset(s)
    decreases |s|
  {
    if |s| > 0 {
      GreedySubset(s[..|s| - 1]);
      assert s == s[..|s| - 1] + [s[|s| - 1]];
    }
  }

  /** Kept edges come out in scan order, so sorted input gives sorted output. */
  lemma {:induction false} GreedySorted(s: seq<Edge>)
    requires SortedByWeight(s)
    ensures SortedByWeight(Greedy(s))
    decreases |s|
  {
    if |s| > 0 {
      var p := s[..|s| - 1];
      var g := Greedy(p);
      var e := s[|s| - 1];
      GreedySorted(p);
      GreedySubset(p);
      forall f | f in g ensures f.w <= e.w {
        assert f in multiset(p);
        var j :| 0 <= j < |p| && p[j] == f;
      }
    }
  }

  /** Every scanned edge ends up with its endpoints connected by the kept
      edges: the selection has the same components as the input. */
  lemma {:induction false} GreedyConnects(s: seq<Edge>)
    ensures forall j :: 0 <= j < |s| ==> Connected(Greedy(s), s[j].u, s[j].v)
    decreases |s|
  {
    if |s| > 0 {
      var p := s[..|s| - 1];
      var g := Greedy(p);
      var e := s[|s| - 1];
      GreedyConnects(p);
      var g' := Greedy(s);
      assert forall f :: f in g ==> f in g';
      forall j | 0 <= j < |s| ensures Connected(g', s[j].u, s[j].v) {
        if j < |s| - 1 {
          assert s[j] == p[j];
          ConnectedMono(g, g', s[j].u, s[j].v);
        } else if !Connected(g, e.u, e.v) {
          assert g'[|g|] == e;
          ConnectedByEdge(g', |g|);
        }
      }
    }
  }

  /** One more scanned edge: kept exactly when the edges kept so far do not
      connect its endpoints. */
  lemma GreedyStep(s: seq<Edge>, k: nat)
    requires k < |s|
    ensures !Connected(Greedy(s[..k]), s[k].u, s[k].v) ==> Greedy(s[..k + 1]) == Greedy(s[..k]) + [s[k]]
    ensures Connected(Greedy(s[..k]), s[k].u, s[k].v) ==> Greedy(s[..k + 1]) == Greedy(s[..k])
  {
    assert s[..k + 1][..k] == s[..k];
  }

  /** Once the kept edges connect the endpoints of every remaining edge,
      scanning the rest keeps nothing more. */
  lemma {:induction false} GreedyRest(s: seq<Edge>, i: nat)
    requires i <= |s|
    requires forall j :: i <= j < |s| ==> Connected(Greedy(s[..i]), s[j].u, s[j].v)
    ensures Greedy(s) == Greedy(s[..i])
    decreases |s| - i
  {
    if i == |s| {
      assert s[..i] == s;
    } else {
      var g := Greedy(s[..i]);
      assert Connected(g, s[i].u, s[i].v);
      GreedyStep(s, i);
      assert Greedy(s[..i + 1]) == g;
      GreedyRest(s, i + 1);
    }
  }

  // ---------------------------------------------------------------------
  // Union-find sets versus connectivity

  /** The sets of uf are exactly the connected components of the kept
      edges, over the node set `nodes`. */
  ghost predicate Tracks(uf: UnionFind, mst: seq<Edge>, nodes: set<Node>)
  {
    && Valid(uf)
    && (forall x {:trigger x in uf.rank} :: x in uf.rank <==> x in nodes)
    && (forall x, y {:trigger Connected(mst, x, y)} :: x in nodes && y in nodes ==>
          (Root(uf, x) == Root(uf, y) <==> Connected(mst, x, y)))
  }

  lemma TracksInit(es: seq<Edge>)
    ensures Tracks(Init(NodeOrder(es)), [], Endpoints(es))
    ensures |Roots(Init(NodeOrder(es)))| == |Endpoints(es)|
  {
    var uf := Init(NodeOrder(es));
    var s := Endpoints(es);
    forall x, y | x in s && y in s ensures Root(uf, x) == Root(uf, y) <==> Connected([], x, y) {
      if x == y {
        ConnectedRefl([], x);
      } else if Connected([], x, y) {
        ConnectedStaysIn([], {x}, x, y);
      }
    }
    assert uf.rank.Keys == s;
  }

  /** Uniting the sets of an edge's endpoints keeps the sets equal to the
      components once the edge is kept. */
  lemma TracksUnion(uf: UnionFind, mst: seq<Edge>, nodes: set<Node>, e: Edge)
    requires Tracks(uf, mst, nodes) && e.u in nodes && e.v in nodes
    requires Root(uf, e.u) != Root(uf, e.v)
    ensures Tracks(Union(uf, e.u, e.v).1, mst + [e], nodes)
  {
    var uf' := Union(uf, e.u, e.v).1;
    var A, B := Root(uf, e.u), Root(uf, e.v);
    forall x, y | x in nodes && y in nodes
      ensures Root(uf', x) == Root(uf', y) <==> Connected(mst + [e], x, y)
    {
      ConnectedSnoc(mst, e, x, y);
      TracksPair(uf, mst, nodes, e, x, y);
    }
  }

  lemma TracksPair(uf: UnionFind, mst: seq<Edge>, nodes: set<Node>, e: Edge, x: Node, y: Node)
    requires Tracks(uf, mst, nodes) && e.u in nodes && e.v in nodes
    requires Root(uf, e.u) != Root(uf, e.v)
    requires x in nodes && y in nodes
    ensures Root(Union(uf, e.u, e.v).1, x) == Root(Union(uf, e.u, e.v).1, y) <==> ReachVia(mst, e, x, y)
  {
    var uf' := Union(uf, e.u, e.v).1;
    var A, B := Root(uf, e.u), Root(uf, e.v);
    var inX := Root(uf, x) == A || Root(uf, x) == B;
    var inY := Root(uf, y) == A || Root(uf, y) == B;
    assert Root(uf, x) == A <==> Connected(mst, x, e.u);
    assert Root(uf, x) == B <==> Connected(mst, x, e.v);
    assert Root(uf, y) == A <==> Connected(mst, e.u, y);
    assert Root(uf, y) == B <==> Connected(mst, e.v, y);
    assert Root(uf, x) == Root(uf, y) <==> Connected(mst, x, y);
    assert Root(uf', x) == Root(uf', y) <==> (inX && inY) || (!inX && !inY && Root(uf, x) == Root(uf, y)) by {
      assert Root(uf', e.u) == A || Root(uf', e.u) == B;
      assert Root(uf, Root(uf, x)) == Root(uf, x);
    }
  }

  /** Every node's root is a root, so a non-empty structure has a root. */
  lemma RootInRoots(uf: UnionFind, x: Node)
    requires Valid(uf) && x in uf.rank
    ensures Root(uf, x) in Roots(uf)
  {
  }

  /** With a single root, the kept edges connect every pair of nodes. */
  lemma OneRootSpans(uf: UnionFind, mst: seq<Edge>, nodes: set<Node>)
    requires Tracks(uf, mst, nodes) && |Roots(uf)| == 1
    ensures Spans(mst, nodes)
  {
    forall x, y | x in nodes && y in nodes ensures Connected(mst, x, y) {
      RootInRoots(uf, x);
      RootInRoots(uf, y);
      var r :| r in Roots(uf);
      assert Roots(uf) == {r} by {
        forall r' | r' in Roots(uf) ensures r' == r {
          assert |Roots(uf) - {r}| == 0;
        }
      }
    }
  }

  /** If the kept edges connect every pair of nodes, one root is left. */
  lemma SpansOneRoot(uf: UnionFind, mst: seq<Edge>, nodes: set<Node>, x0: Node)
    requires Tracks(uf, mst, nodes) && x0 in nodes && Spans(mst, nodes)
    ensures |Roots(uf)| == 1
  {
    var r0 := Root(uf, x0);
    RootInRoots(uf, x0);
    forall r | r in Roots(uf) ensures r == r0 {
      assert r in uf.rank;
      assert Root(uf, r) == r;
      assert Connected(mst, r, x0);
    }
    assert Roots(uf) == {r0};
  }

  // ---------------------------------------------------------------------
  // The algorithm

  /** `kruskal` (kruskal.py:94-126). Returns the kept edges and their total
      weight. The kept edges are exactly the greedy selection over the
      stably weight-sorted input; they form a forest with the components of
      the input and at most |V| - 1 edges, and on a connected graph a
      spanning tree with exactly |V| - 1 edges. */
  method Kruskal(es: seq<Edge>) returns (mst: seq<Edge>, total: int)
    ensures |es| == 0 ==> mst == [] && total == 0
    ensures mst == Greedy(SortByWeight(es))
    ensures total == TotalWeight(mst)
    ensures IsForest(mst) && SortedByWeight(mst)
    ensures multiset(mst) <= multiset(es)
    ensures |es| > 0 ==> |mst| <= |Endpoints(es)| - 1
    ensures forall i :: 0 <= i < |es| ==> Connected(mst, es[i].u, es[i].v)
    ensures |es| > 0 && ConnectedGraph(es) ==> |mst| == |Endpoints(es)| - 1 && Spans(mst, Endpoints(es))
  {
    if |es| == 0 {
      return [], 0;
    }
    ghost var uf;
    mst, total, uf := Scan(es);
    KruskalFacts(es, SortByWeight(es), mst, uf, Endpoints(es));
  }

  /** What the main loop of `kruskal` knows after scanning sorted[..i]. */
  ghost predicate ScanInv(es: seq<Edge>, sorted: seq<Edge>, i: nat, uf: UnionFind, mst: seq<Edge>, total: int)
  {
    && sorted == SortByWeight(es)
    && i <= |sorted|
    && Tracks(uf, mst, Endpoints(es))
    && mst == Greedy(sorted[..i])
    && total == TotalWeight(mst)
    && |Roots(uf)| == |Endpoints(es)| - |mst|
  }

  /** One pass of the loop body (kruskal.py:118-120): unite the endpoints'
      sets and, when they were different, keep the edge and add its weight.
      The flag says whether the edge was kept. */
  function Consider(uf: UnionFind, mst: seq<Edge>, total: int, e: Edge): (bool, UnionFind, seq<Edge>, int)
    requires Valid(uf) && e.u in uf.rank && e.v in uf.rank
  {
    var res := Union(uf, e.u, e.v);
    if res.0 then (true, res.1, mst + [e], total + e.w) else (false, res.1, mst, total)
  }

  /** The main loop of `kruskal` (kruskal.py:99-124) on a non-empty edge
      list, together with the union-find structure it leaves behind. */
  method Scan(es: seq<Edge>) returns (mst: seq<Edge>, total: int, ghost uf: UnionFind)
    requires |es| > 0
    ensures mst == Greedy(SortByWeight(es))
    ensures total == TotalWeight(mst)
    ensures Tracks(uf, mst, Endpoints(es)) && |Roots(uf)| == |Endpoints(es)| - |mst|
  {
    var V := |Endpoints(es)|;
    var sorted := SortByWeight(es);
    var u := Init(NodeOrder(es));
    TracksInit(es);
    mst, total := [], 0;
    var i := 0;
    while i < |sorted|
      invariant ScanInv(es, sorted, i, u, mst, total)
    {
      KruskalStep(es, sorted, i, u, mst, total);
      var step := Consider(u, mst, total, sorted[i]);
      u, mst, total := step.1, step.2, step.3;
      i := i + 1;
      if step.0 && |mst| == V - 1 {
        ScanFinish(es, sorted, i, u, mst, total);
        uf := u;
        return;
      }
    }
    ScanFinish(es, sorted, i, u, mst, total);
    uf := u;
  }

  lemma KruskalStep(es: seq<Edge>, sorted: seq<Edge>, i: nat, uf: UnionFind, mst: seq<Edge>, total: int)
    requires ScanInv(es, sorted, i, uf, mst, total) && i < |sorted|
    ensures Valid(uf) && sorted[i].u in uf.rank && sorted[i].v in uf.rank
    ensures
      var step := Consider(uf, mst, total, sorted[i]);
      && ScanInv(es, sorted, i + 1, step.1, step.2, step.3)
      && (step.0 ==> |step.2| == |mst| + 1)
  {
    var e := sorted[i];
    SortedEndpoints(es, sorted, i);
    var uf' := Union(uf, e.u, e.v).1;
    var step := Consider(uf, mst, total, e);
    if Root(uf, e.u) != Root(uf, e.v) {
      KeepStep(es, sorted, i, uf, mst, total);
      assert step.0 && step.1 == uf' && step.2 == mst + [e] && step.3 == total + e.w;
    } else {
      SkipStep(es, sorted, i, uf, mst, total);
      assert !step.0 && step.1 == uf' && step.2 == mst && step.3 == total;
    }
  }

  /** Every edge of the sorted list joins two nodes of the graph. */
  lemma SortedEndpoints(es: seq<Edge>, sorted: seq<Edge>, i: nat)
    requires sorted == SortByWeight(es) && i < |sorted|
    ensures sorted[i].u in Endpoints(es) && sorted[i].v in Endpoints(es)
  {
    assert sorted[i] in multiset(es);
    assert sorted[i] in es;
  }

  /** An edge across two sets is kept: the greedy selection takes it too. */
  lemma KeepStep(es: seq<Edge>, sorted: seq<Edge>, i: nat, uf: UnionFind, mst: seq<Edge>, total: int)
    requires ScanInv(es, sorted, i, uf, mst, total) && i < |sorted|
    requires sorted[i].u in Endpoints(es) && sorted[i].v in Endpoints(es)
    requires Root(uf, sorted[i].u) != Root(uf, sorted[i].v)
    ensures
      var uf' := Union(uf, sorted[i].u, sorted[i].v).1;
      ScanInv(es, sorted, i + 1, uf', mst + [sorted[i]], total + sorted[i].w)
  {
    var e := sorted[i];
    GreedyStep(sorted, i);
    TracksUnion(uf, mst, Endpoints(es), e);
    TotalWeightAppend(mst, e);
  }

  /** An edge inside one set is skipped: the greedy selection skips it too. */
  lemma SkipStep(es: seq<Edge>, sorted: seq<Edge>, i: nat, uf: UnionFind, mst: seq<Edge>, total: int)
    requires ScanInv(es, sorted, i, uf, mst, total) && i < |sorted|
    requires sorted[i].u in Endpoints(es) && sorted[i].v in Endpoints(es)
    requires Root(uf, sorted[i].u) == Root(uf, sorted[i].v)
    ensures
      var uf' := Union(uf, sorted[i].u, sorted[i].v).1;
      ScanInv(es, sorted, i + 1, uf', mst, total)
  {
    var e := sorted[i];
    GreedyStep(sorted, i);
  }

  /** The loop ends with the greedy selection over the whole sorted list:
      either every edge was scanned, or |V| - 1 edges were kept, in which
      case the rest of the scan would have kept nothing. */
  lemma ScanFinish(es: seq<Edge>, sorted: seq<Edge>, i: nat, uf: UnionFind, mst: seq<Edge>, total: int)
    requires ScanInv(es, sorted, i, uf, mst, total)
    requires i == |sorted| || |mst| == |Endpoints(es)| - 1
    ensures mst == Greedy(SortByWeight(es))
    ensures total == TotalWeight(mst)
    ensures Tracks(uf, mst, Endpoints(es)) && |Roots(uf)| == |Endpoints(es)| - |mst|
  {
    if i == |sorted| {
      assert sorted[..i] == sorted;
    } else {
      OneRootSpans(uf, mst, Endpoints(es));
      forall j | i <= j < |sorted| ensures Connected(mst, sorted[j].u, sorted[j].v) {
        assert sorted[j] in multiset(es);
        assert sorted[j] in es;
      }
      GreedyRest(sorted, i);
    }
  }

  lemma KruskalFacts(es: seq<Edge>, sorted: seq<Edge>, mst: seq<Edge>, uf: UnionFind, E: set<Node>)
    requires |es| > 0 && E == Endpoints(es) && sorted == SortByWeight(es)
    requires mst == Greedy(sorted) && Tracks(uf, mst, E) && |Roots(uf)| == |E| - |mst|
    ensures IsForest(mst) && SortedByWeight(mst)
    ensures multiset(mst) <= multiset(es)
    ensures |mst| <= |E| - 1
    ensures forall i :: 0 <= i < |es| ==> Connected(mst, es[i].u, es[i].v)
    ensures ConnectedGraph(es) ==> |mst| == |E| - 1 && Spans(mst, E)
  {
    GreedyForest(sorted);
    GreedySorted(sorted);
    GreedySubset(sorted);
    GreedyConnects(sorted);
    RootInRoots(uf, es[0].u);
    forall i | 0 <= i < |es| ensures Connected(mst, es[i].u, es[i].v) {
      assert es[i] in multiset(sorted);
    }
    if ConnectedGraph(es) {
      forall x, y | x in E && y in E ensures Connected(mst, x, y) {
        ConnectedThrough(es, mst, x, y);
      }
      SpansOneRoot(uf, mst, E, es[0].u);
    }
  }
}
