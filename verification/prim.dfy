/** Prim's minimum-spanning-tree engine (prim.py:15-75): grow a tree from
    a start node, always taking the smallest candidate edge from the tree
    to a node outside it, with candidates kept in a binary heap. */
module Prim {
  import opened Options
  import opened Order
  import opened Graph
  import opened Heap

  // ---------------------------------------------------------------------
  // The candidate heap

  /** Python's order on the heap tuples (peso, nodo1, nodo2): by weight,
      then by the two node names. A candidate (peso, nodo1, nodo2) is kept
      as the edge Edge(nodo1, nodo2, peso) it would add. */
  predicate CandLess(a: Edge, b: Edge)
  {
    || a.w < b.w
    || (a.w == b.w && LexLess(a.u, b.u))
    || (a.w == b.w && a.u == b.u && LexLess(a.v, b.v))
  }

  lemma CandLessTransitive(a: Edge, b: Edge, c: Edge)
    requires CandLess(a, b) && CandLess(b, c)
    ensures CandLess(a, c)
  {
    if a.w == b.w == c.w {
      if LexLess(a.u, b.u) && LexLess(b.u, c.u) {
        LexLessTransitive(a.u, b.u, c.u);
      } else if a.u == b.u == c.u {
        LexLessTransitive(a.v, b.v, c.v);
      }
    }
  }

  lemma CandLessTotal(a: Edge, b: Edge)
    ensures a == b || CandLess(a, b) || CandLess(b, a)
  {
    LexLessTotal(a.u, b.u);
    LexLessTotal(a.v, b.v);
  }

  /** Position of the entry `heappop` removes: the least under CandLess.
      Equal entries are identical tuples, so which copy goes does not
      matter. */
  function MinIndex(h: seq<Edge>): (i: nat)
    requires |h| > 0
    ensures i < |h|
    ensures forall j :: 0 <= j < |h| ==> h[j] == h[i] || CandLess(h[i], h[j])
  {
    if |h| == 1 then 0
    else
      var k := MinIndex(h[1..]) + 1;
      assert forall j :: 1 <= j < |h| ==> h[j] == h[1..][j - 1];
      CandLessTotal(h[0], h[k]);
      if CandLess(h[0], h[k]) then
        assert forall j :: 1 <= j < |h| ==> h[j] == h[k] || CandLess(h[k], h[j]);
        MinLessAll(h, k);
        0
      else k
  }

  lemma MinLessAll(h: seq<Edge>, k: nat)
    requires 0 < k < |h| && CandLess(h[0], h[k])
    requires forall j :: 1 <= j < |h| ==> h[j] == h[k] || CandLess(h[k], h[j])
    ensures forall j :: 0 <= j < |h| ==> h[j] == h[0] || CandLess(h[0], h[j])
  {
    forall j | 1 <= j < |h| && h[j] != h[k]
      ensures CandLess(h[0], h[j])
    {
      CandLessTransitive(h[0], h[k], h[j]);
    }
  }

  // ---------------------------------------------------------------------
  // Growing the tree

  /** The candidates pushed for node x: one (peso, x, vecino) for each
      entry of x's adjacency list whose neighbour is not yet visited, in
      list order. */
  function Candidates(x: Node, nbrs: seq<Neighbor>, visited: set<Node>): (r: seq<Edge>)
    ensures forall c :: c in r <==> c.u == x && (c.v, c.w) in nbrs && c.v !in visited
  {
    if |nbrs| == 0 then []
    else
      var rest := Candidates(x, nbrs[1..], visited);
      assert forall n :: n in nbrs <==> n == nbrs[0] || n in nbrs[1..];
      (if nbrs[0].0 !in visited then [Edge(x, nbrs[0].0, nbrs[0].1)] else []) + rest
  }

  /** The nodes a tree grown from `start` by the edges t has reached: the
      start and the far end of every edge. */
  function Reached(start: Node, t: seq<Edge>): set<Node>
  {
    if |t| == 0 then {start} else Reached(start, t[..|t| - 1]) + {t[|t| - 1].v}
  }

  /** Every edge leaves the part of the tree built before it for a node not
      reached yet. */
  ghost predicate Grows(start: Node, t: seq<Edge>)
  {
    forall k :: 0 <= k < |t| ==> t[k].u in Reached(start, t[..k]) && t[k].v !in Reached(start, t[..k])
  }

  /** Edge e has exactly one endpoint in s. */
  predicate Crosses(e: Edge, s: set<Node>)
  {
    (e.u in s) != (e.v in s)
  }

  /** The cut property Prim's choices satisfy: each tree edge weighs no
      more than any input edge crossing between the tree built so far and
      the rest of the graph. */
  ghost predicate LightCut(es: seq<Edge>, start: Node, t: seq<Edge>)
  {
    forall k, i :: 0 <= k < |t| && 0 <= i < |es| && Crosses(es[i], Reached(start, t[..k])) ==> t[k].w <= es[i].w
  }

  /** The state of the main loop: visitados, mst_aristas, peso_total, heap. */
  datatype PrimState = PrimState(visited: set<Node>, mst: seq<Edge>, total: int, heap: seq<Edge>)

  /** Visiting the target of the candidate at position i: mark it, keep
      the edge, add its weight, and push candidates to the target's
      unvisited neighbours (prim.py:65-73). */
  function Visit(g: Adjacency, st: PrimState, i: nat): PrimState
    requires i < |st.heap| && st.heap[i].v in g
  {
    var c := st.heap[i];
    var visited := st.visited + {c.v};
    PrimState(visited, st.mst + [c], st.total + c.w, RemoveAt(st.heap, i) + Candidates(c.v, g[c.v], visited))
  }

  /** One pass of the main loop (prim.py:59-73): pop the least candidate;
      skip it if its target is visited, otherwise visit it. */
  function Step(g: Adjacency, st: PrimState): PrimState
    requires |st.heap| > 0
    requires forall c :: c in st.heap ==> c.v in g
  {
    var i := MinIndex(st.heap);
    if st.heap[i].v in st.visited then st.(heap := RemoveAt(st.heap, i))
    else Visit(g, st, i)
  }

  /** Everything the main loop keeps true. */
  ghost predicate Inv(es: seq<Edge>, start: Node, st: PrimState)
  {
    TreeInv(es, start, st.visited, st.mst, st.total) && QueueInv(es, st.visited, st.heap)
  }

  /** The tree half: the selected edges grow a tree from the start node
      over the visited nodes, obey the cut property and sum to the total. */
  ghost predicate TreeInv(es: seq<Edge>, start: Node, visited: set<Node>, mst: seq<Edge>, total: int)
  {
    && start in Endpoints(es)
    && visited == Reached(start, mst)
    && visited <= Endpoints(es)
    && |visited| == |mst| + 1
    && Grows(start, mst)
    && LightCut(es, start, mst)
    && total == TotalWeight(mst)
    && (forall e :: e in mst ==> HasEdge(es, e.u, e.v, e.w))
  }

  /** The queue half: every candidate is an input edge leaving the visited
      set, and every input edge leaving it has its candidate queued. */
  ghost predicate QueueInv(es: seq<Edge>, visited: set<Node>, heap: seq<Edge>)
  {
    && (forall c :: c in heap ==> c.u in visited && HasEdge(es, c.u, c.v, c.w))
    && (forall i :: 0 <= i < |es| && es[i].u in visited && es[i].v !in visited ==>
          Edge(es[i].u, es[i].v, es[i].w) in heap)
    && (forall i :: 0 <= i < |es| && es[i].v in visited && es[i].u !in visited ==>
          Edge(es[i].v, es[i].u, es[i].w) in heap)
  }

  lemma InvHeapTargets(es: seq<Edge>, start: Node, st: PrimState)
    requires Inv(es, start, st)
    ensures forall c :: c in st.heap ==> c.v in BuildAdjacency(es)
  {
    forall c | c in st.heap ensures c.v in BuildAdjacency(es) {
      HasEdgeEndpoints(es, c.u, c.v, c.w);
    }
  }

  /** The loop starts from the start node alone, with a candidate for every
      entry of its adjacency list. */
  lemma InvInit(es: seq<Edge>, start: Node)
    requires start in BuildAdjacency(es)
    ensures Inv(es, start, PrimState({start}, [], 0, Candidates(start, BuildAdjacency(es)[start], {})))
  {
    HeapInit(es, start);
    TreeInit(es, start);
  }

  /** The first candidates are the start node's edges, all of them. */
  lemma HeapInit(es: seq<Edge>, start: Node)
    requires start in BuildAdjacency(es)
    ensures QueueInv(es, {start}, Candidates(start, BuildAdjacency(es)[start], {}))
  {
    var g := BuildAdjacency(es);
    var h := Candidates(start, g[start], {});
    forall c | c in h ensures HasEdge(es, c.u, c.v, c.w) {
      AdjacencyEntries(es, c.u, c.v, c.w);
    }
    forall i | 0 <= i < |es| && es[i].u == start && es[i].v != start
      ensures Edge(es[i].u, es[i].v, es[i].w) in h
    {
      AdjacencyEntries(es, start, es[i].v, es[i].w);
    }
    forall i | 0 <= i < |es| && es[i].v == start && es[i].u != start
      ensures Edge(es[i].v, es[i].u, es[i].w) in h
    {
      AdjacencyEntries(es, start, es[i].u, es[i].w);
    }
  }

  /** The empty tree over the start node alone. */
  lemma TreeInit(es: seq<Edge>, start: Node)
    requires start in BuildAdjacency(es)
    ensures TreeInv(es, start, {start}, [], 0)
  {
    assert Grows(start, []);
    assert LightCut(es, start, []);
  }

  lemma ReachedSnoc(start: Node, t: seq<Edge>, c: Edge)
    ensures Reached(start, t + [c]) == Reached(start, t) + {c.v}
  {
    assert (t + [c])[..|t|] == t;
  }

  /** A popped candidate whose target is already visited is dropped and
      nothing else changes. */
  lemma InvSkip(es: seq<Edge>, start: Node, st: PrimState)
    requires Inv(es, start, st) && |st.heap| > 0
    requires st.heap[MinIndex(st.heap)].v in st.visited
    ensures Inv(es, start, st.(heap := RemoveAt(st.heap, MinIndex(st.heap))))
  {
    var i := MinIndex(st.heap);
    var c := st.heap[i];
    var rest := RemoveAt(st.heap, i);
    forall d: Edge | d in rest ensures d in st.heap {
      assert d in multiset(rest);
    }
    forall j | 0 <= j < |es| && es[j].u in st.visited && es[j].v !in st.visited
      ensures Edge(es[j].u, es[j].v, es[j].w) in rest
    {
      RemoveAtKeeps(st.heap, i, Edge(es[j].u, es[j].v, es[j].w));
    }
    forall j | 0 <= j < |es| && es[j].v in st.visited && es[j].u !in st.visited
      ensures Edge(es[j].v, es[j].u, es[j].w) in rest
    {
      RemoveAtKeeps(st.heap, i, Edge(es[j].v, es[j].u, es[j].w));
    }
  }

  lemma GrowsSnoc(start: Node, t: seq<Edge>, c: Edge)
    requires Grows(start, t) && c.u in Reached(start, t) && c.v !in Reached(start, t)
    ensures Grows(start, t + [c])
  {
    var t' := t + [c];
    forall k | 0 <= k < |t'| ensures t'[k].u in Reached(start, t'[..k]) && t'[k].v !in Reached(start, t'[..k]) {
      if k < |t| {
        assert t'[..k] == t[..k];
      } else {
        assert t'[..k] == t;
      }
    }
  }

  /** Adding the least candidate c keeps the cut property, given that every
      edge crossing the current cut has a queued candidate of its weight. */
  lemma LightCutSnoc(es: seq<Edge>, start: Node, t: seq<Edge>, heap: seq<Edge>, c: Edge)
    requires LightCut(es, start, t)
    requires forall d :: d in heap ==> d == c || CandLess(c, d)
    requires forall i :: 0 <= i < |es| && es[i].u in Reached(start, t) && es[i].v !in Reached(start, t) ==>
      Edge(es[i].u, es[i].v, es[i].w) in heap
    requires forall i :: 0 <= i < |es| && es[i].v in Reached(start, t) && es[i].u !in Reached(start, t) ==>
      Edge(es[i].v, es[i].u, es[i].w) in heap
    ensures LightCut(es, start, t + [c])
  {
    var t' := t + [c];
    forall k, j | 0 <= k < |t'| && 0 <= j < |es| && Crosses(es[j], Reached(start, t'[..k]))
      ensures t'[k].w <= es[j].w
    {
      if k < |t| {
        assert t'[..k] == t[..k];
      } else {
        assert t'[..k] == t;
        var d := if es[j].u in Reached(start, t) then Edge(es[j].u, es[j].v, es[j].w) else Edge(es[j].v, es[j].u, es[j].w);
        assert d in heap;
      }
    }
  }

  lemma HeapAfterAdd(es: seq<Edge>, visited: set<Node>, heap: seq<Edge>, i: nat)
    requires i < |heap| && heap[i].v in BuildAdjacency(es)
    requires QueueInv(es, visited, heap)
    ensures
      var x := heap[i].v;
      var visited' := visited + {x};
      QueueInv(es, visited', RemoveAt(heap, i) + Candidates(x, BuildAdjacency(es)[x], visited'))
  {
    var x := heap[i].v;
    var visited' := visited + {x};
    var rest := RemoveAt(heap, i);
    var pushed := Candidates(x, BuildAdjacency(es)[x], visited');
    var heap' := rest + pushed;
    forall d: Edge | d in heap' ensures d.u in visited' && HasEdge(es, d.u, d.v, d.w) {
      if d in rest {
        assert d in multiset(rest);
      } else {
        AdjacencyEntries(es, d.u, d.v, d.w);
      }
    }
    forall j | 0 <= j < |es| && es[j].u in visited' && es[j].v !in visited'
      ensures Edge(es[j].u, es[j].v, es[j].w) in heap'
    {
      if es[j].u == x {
        assert HasEdge(es, x, es[j].v, es[j].w);
        AdjacencyEntries(es, x, es[j].v, es[j].w);
      } else {
        RemoveAtKeeps(heap, i, Edge(es[j].u, es[j].v, es[j].w));
      }
    }
    forall j | 0 <= j < |es| && es[j].v in visited' && es[j].u !in visited'
      ensures Edge(es[j].v, es[j].u, es[j].w) in heap'
    {
      if es[j].v == x {
        assert HasEdge(es, x, es[j].u, es[j].w);
        AdjacencyEntries(es, x, es[j].u, es[j].w);
      } else {
        RemoveAtKeeps(heap, i, Edge(es[j].v, es[j].u, es[j].w));
      }
    }
  }

  /** The candidate MinIndex picks is no greater than any queued one. */
  lemma MinLeast(h: seq<Edge>)
    requires |h| > 0
    ensures forall d :: d in h ==> d == h[MinIndex(h)] || CandLess(h[MinIndex(h)], d)
  {
    forall d | d in h ensures d == h[MinIndex(h)] || CandLess(h[MinIndex(h)], d) {
      var n :| 0 <= n < |h| && h[n] == d;
    }
  }

  /** The tree half of the invariant survives a visit: the new edge
      leaves the tree for a new node and is a lightest crossing edge. */
  lemma TreeSnoc(es: seq<Edge>, start: Node, st: PrimState, i: nat)
    requires TreeInv(es, start, st.visited, st.mst, st.total) && QueueInv(es, st.visited, st.heap)
    requires |st.heap| > 0 && i == MinIndex(st.heap)
    requires st.heap[i].v !in st.visited
    ensures var c := st.heap[i];
      TreeInv(es, start, st.visited + {c.v}, st.mst + [c], st.total + c.w)
  {
    var c := st.heap[i];
    assert c in st.heap;
    HasEdgeEndpoints(es, c.u, c.v, c.w);
    ReachedSnoc(start, st.mst, c);
    GrowsSnoc(start, st.mst, c);
    MinLeast(st.heap);
    LightCutSnoc(es, start, st.mst, st.heap, c);
    TotalWeightAppend(st.mst, c);
  }

  /** A popped candidate to an unvisited node joins the tree; it is the
      least candidate, hence no heavier than any edge crossing the cut. */
  lemma InvAdd(es: seq<Edge>, start: Node, st: PrimState)
    requires Inv(es, start, st) && |st.heap| > 0
    requires st.heap[MinIndex(st.heap)].v !in st.visited
    requires st.heap[MinIndex(st.heap)].v in BuildAdjacency(es)
    ensures Inv(es, start, Visit(BuildAdjacency(es), st, MinIndex(st.heap)))
  {
    var i := MinIndex(st.heap);
    TreeSnoc(es, start, st, i);
    HeapAfterAdd(es, st.visited, st.heap, i);
    InvOfVisit(es, start, st, i);
  }

  /** The two halves, stated on the visited state's components, make up
      the invariant of that state. */
  lemma InvOfVisit(es: seq<Edge>, start: Node, st: PrimState, i: nat)
    requires i < |st.heap| && st.heap[i].v in BuildAdjacency(es)
    requires var c := st.heap[i];
      TreeInv(es, start, st.visited + {c.v}, st.mst + [c], st.total + c.w)
    requires
      var x := st.heap[i].v;
      var visited' := st.visited + {x};
      QueueInv(es, visited', RemoveAt(st.heap, i) + Candidates(x, BuildAdjacency(es)[x], visited'))
    ensures Inv(es, start, Visit(BuildAdjacency(es), st, i))
  {
  }

  /** The pass keeps the invariant and makes progress: a skip shrinks the
      heap, a visit adds one node. */
  lemma InvStep(es: seq<Edge>, start: Node, st: PrimState)
    requires Inv(es, start, st) && |st.heap| > 0
    ensures forall c :: c in st.heap ==> c.v in BuildAdjacency(es)
    ensures Inv(es, start, Step(BuildAdjacency(es), st))
    ensures || (Step(BuildAdjacency(es), st).visited == st.visited && |Step(BuildAdjacency(es), st).heap| < |st.heap|)
            || |Step(BuildAdjacency(es), st).visited| == |st.visited| + 1
  {
    InvHeapTargets(es, start, st);
    var i := MinIndex(st.heap);
    if st.heap[i].v in st.visited {
      InvSkip(es, start, st);
    } else {
      assert st.heap[i] in st.heap;
      InvAdd(es, start, st);
    }
  }

  lemma GrowsPrefix(start: Node, t: seq<Edge>, n: nat)
    requires Grows(start, t) && n <= |t|
    ensures Grows(start, t[..n])
  {
    forall k | 0 <= k < n
      ensures t[..n][k].u in Reached(start, t[..n][..k]) && t[..n][k].v !in Reached(start, t[..n][..k])
    {
      assert t[..n][..k] == t[..k];
    }
  }

  /** Every node a growing tree has reached is joined to the start by tree
      edges, and no tree edge leaves the reached set. */
  lemma {:induction false} ReachedFacts(start: Node, t: seq<Edge>)
    requires Grows(start, t)
    ensures start in Reached(start, t)
    ensures forall i :: 0 <= i < |t| ==> t[i].u in Reached(start, t) && t[i].v in Reached(start, t)
    ensures ClosedUnder(t, Reached(start, t))
    ensures forall x :: x in Reached(start, t) ==> Connected(t, start, x)
    decreases |t|
  {
    if |t| == 0 {
      ConnectedRefl(t, start);
    } else {
      var p := t[..|t| - 1];
      var e := t[|t| - 1];
      assert t == p + [e];
      GrowsPrefix(start, t, |t| - 1);
      ReachedFacts(start, p);
      var r := Reached(start, t);
      assert e.u in Reached(start, p);
      forall i | 0 <= i < |t| ensures t[i].u in r && t[i].v in r {
        if i < |p| {
          assert t[i] == p[i];
        }
      }
      assert forall f :: f in p ==> f in t;
      ConnectedByEdge(t, |t| - 1);
      forall x | x in r ensures Connected(t, start, x) {
        if x in Reached(start, p) {
          ConnectedMono(p, t, start, x);
        } else {
          ConnectedMono(p, t, start, e.u);
          ConnectedTransitive(t, start, e.u, e.v);
        }
      }
    }
  }

  /** The tree edges form a forest: each one reaches a node the earlier
      edges had not. */
  lemma GrowsForest(start: Node, t: seq<Edge>)
    requires Grows(start, t)
    ensures IsForest(t)
  {
    forall k | 0 <= k < |t| ensures !Connected(t[..k], t[k].u, t[k].v) {
      GrowsPrefix(start, t, k);
      ReachedFacts(start, t[..k]);
      ConnectedLeaves(t[..k], Reached(start, t[..k]), t[k].u, t[k].v);
    }
  }

  /** Edges that are all input edges connect only what the input connects. */
  lemma InputEdgesConnect(es: seq<Edge>, t: seq<Edge>, x: Node, y: Node)
    requires forall e :: e in t ==> HasEdge(es, e.u, e.v, e.w)
    requires Connected(t, x, y)
    ensures Connected(es, x, y)
  {
    forall i | 0 <= i < |t| ensures Connected(es, t[i].u, t[i].v) {
      assert t[i] in t;
      var j :| 0 <= j < |es| && (es[j] == Edge(t[i].u, t[i].v, t[i].w) || es[j] == Edge(t[i].v, t[i].u, t[i].w));
      ConnectedByEdge(es, j);
    }
    ConnectedThrough(t, es, x, y);
  }

  /** With no candidate left, no input edge leaves the visited set. */
  lemma EmptyHeapClosed(es: seq<Edge>, start: Node, st: PrimState)
    requires Inv(es, start, st) && |st.heap| == 0
    ensures ClosedUnder(es, st.visited)
  {
    forall i | 0 <= i < |es| ensures es[i].u in st.visited <==> es[i].v in st.visited {
      assert Edge(es[i].u, es[i].v, es[i].w) !in st.heap;
      assert Edge(es[i].v, es[i].u, es[i].w) !in st.heap;
    }
  }

  /** When the loop stops, the visited nodes are exactly the start's
      connected component and the tree spans them. */
  lemma PrimFinish(es: seq<Edge>, start: Node, st: PrimState)
    requires Inv(es, start, st)
    requires |st.heap| == 0 || |st.visited| >= |Endpoints(es)|
    ensures IsForest(st.mst)
    ensures Spans(st.mst, st.visited)
    ensures forall x :: x in Endpoints(es) ==> (x in st.visited <==> Connected(es, start, x))
    ensures |st.mst| + 1 <= |Endpoints(es)|
    ensures ConnectedGraph(es) ==> st.visited == Endpoints(es) && |st.mst| + 1 == |Endpoints(es)|
  {
    GrowsForest(start, st.mst);
    ReachedFacts(start, st.mst);
    forall a, b | a in st.visited && b in st.visited ensures Connected(st.mst, a, b) {
      ConnectedSymmetric(st.mst, start, a);
      ConnectedTransitive(st.mst, a, start, b);
    }
    SubsetCard(st.visited, Endpoints(es));
    forall x | x in Endpoints(es) ensures x in st.visited <==> Connected(es, start, x) {
      if x in st.visited {
        InputEdgesConnect(es, st.mst, start, x);
      }
      if |st.heap| == 0 {
        EmptyHeapClosed(es, start, st);
        ConnectedLeaves(es, st.visited, start, x);
      }
    }
  }

  // ---------------------------------------------------------------------
  // The engine

  /** What prim produces: the tree edges with their total weight, or the
      KeyError raised when an explicit start node is not a key of the
      adjacency dictionary (prim.py:53). */
  datatype PrimResult = Tree(mst: seq<Edge>, total: int) | MissingStart(node: Node)

  /** The start node: the one given, or else the first key of the
      dictionary (prim.py:43-44), which is the first triple's nodo1. */
  function StartNode(es: seq<Edge>, start: Option<Node>): (s: Node)
    requires |es| > 0
    ensures start.None? ==> s == es[0].u
    ensures start.Some? ==> s == start.value
  {
    if start.Some? then start.value else NodeOrder(es)[0]
  }

  /** prim.py:15-75. */
  method Prim(es: seq<Edge>, start: Option<Node>) returns (r: PrimResult)
    ensures |es| == 0 ==> r == Tree([], 0)
    ensures r.MissingStart? <==> |es| > 0 && start.Some? && start.value !in Endpoints(es)
    ensures r.MissingStart? ==> r == MissingStart(StartNode(es, start))
    ensures r.Tree? && |es| > 0 ==> r.total == TotalWeight(r.mst)
    ensures r.Tree? && |es| > 0 ==> forall e :: e in r.mst ==> HasEdge(es, e.u, e.v, e.w)
    ensures r.Tree? && |es| > 0 ==> Grows(StartNode(es, start), r.mst) && IsForest(r.mst)
    ensures r.Tree? && |es| > 0 ==> |r.mst| + 1 <= |Endpoints(es)|
    ensures r.Tree? && |es| > 0 ==> LightCut(es, StartNode(es, start), r.mst)
    ensures r.Tree? && |es| > 0 ==> Spans(r.mst, Reached(StartNode(es, start), r.mst))
    ensures r.Tree? && |es| > 0 ==>
      forall x :: x in Endpoints(es) ==>
        (x in Reached(StartNode(es, start), r.mst) <==> Connected(es, StartNode(es, start), x))
    ensures r.Tree? && |es| > 0 && ConnectedGraph(es) ==>
      |r.mst| + 1 == |Endpoints(es)| && Spans(r.mst, Endpoints(es))
  {
    if |es| == 0 {
      return Tree([], 0);
    }
    var g := BuildAdjacency(es);
    var s := StartNode(es, start);
    if s !in g {
      return MissingStart(s);
    }
    InvInit(es, s);
    var st := PrimState({s}, [], 0, Candidates(s, g[s], {}));
    while |st.heap| > 0 && |st.visited| < |g|
      invariant Inv(es, s, st)
      decreases |g| - |st.visited|, |st.heap|
    {
      InvStep(es, s, st);
      st := Step(g, st);
    }
    PrimFinish(es, s, st);
    return Tree(st.mst, st.total);
  }
}
