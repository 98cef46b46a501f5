/** Dijkstra's single-source shortest paths (dijkstra.py:15-79) and the
    route reconstruction that follows its predecessor links
    (dijkstra.py:82-110). */
module Dijkstra {
  import opened Options
  import opened Order
  import opened Graph
  import opened Heap

  // ---------------------------------------------------------------------
  // Distances and the heap

  /** A tentative distance: an integer, or float('inf') for a node not
      reached yet. */
  datatype Dist = Fin(d: int) | Inf

  /** Python's `n < d` between an integer and a tentative distance:
      infinity exceeds every integer. */
  predicate Below(n: int, d: Dist)
  {
    d.Inf? || n < d.d
  }

  /** A heap tuple (distancia, nodo). */
  datatype Entry = Entry(d: int, n: Node)

  /** Python's order on (distancia, nodo) tuples. */
  predicate EntryLess(a: Entry, b: Entry)
  {
    a.d < b.d || (a.d == b.d && LexLess(a.n, b.n))
  }

  lemma EntryLessTransitive(a: Entry, b: Entry, c: Entry)
    requires EntryLess(a, b) && EntryLess(b, c)
    ensures EntryLess(a, c)
  {
    if a.d == b.d == c.d {
      LexLessTransitive(a.n, b.n, c.n);
    }
  }

  lemma EntryLessTotal(a: Entry, b: Entry)
    ensures a == b || EntryLess(a, b) || EntryLess(b, a)
  {
    LexLessTotal(a.n, b.n);
  }

  /** Position of the entry `heappop` removes: the least tuple. Equal
      tuples are identical, so which copy goes does not matter. */
  function MinEntry(h: seq<Entry>): (i: nat)
    requires |h| > 0
    ensures i < |h|
    ensures forall j :: 0 <= j < |h| ==> h[j] == h[i] || EntryLess(h[i], h[j])
  {
    if |h| == 1 then 0
    else
      var k := MinEntry(h[1..]) + 1;
      assert forall j :: 1 <= j < |h| ==> h[j] == h[1..][j - 1];
      EntryLessTotal(h[0], h[k]);
      if EntryLess(h[0], h[k]) then
        assert forall j :: 1 <= j < |h| ==> h[j] == h[k] || EntryLess(h[k], h[j]);
        MinEntryFirst(h, k);
        0
      else k
  }

  lemma MinEntryFirst(h: seq<Entry>, k: nat)
    requires 0 < k < |h| && EntryLess(h[0], h[k])
    requires forall j :: 1 <= j < |h| ==> h[j] == h[k] || EntryLess(h[k], h[j])
    ensures forall j :: 0 <= j < |h| ==> h[j] == h[0] || EntryLess(h[0], h[j])
  {
    forall j | 1 <= j < |h| && h[j] != h[k]
      ensures EntryLess(h[0], h[j])
    {
      EntryLessTransitive(h[0], h[k], h[j]);
    }
  }

  /** The popped distance is no larger than that of any entry left. */
  lemma MinEntryBelow(h: seq<Entry>, e: Entry)
    requires |h| > 0 && e in h
    ensures h[MinEntry(h)].d <= e.d
  {
    var j :| 0 <= j < |h| && h[j] == e;
  }

  // ---------------------------------------------------------------------
  // One pass of the main loop

  /** distancias, predecesores, visitados and the heap. */
  datatype DState = DState(dist: map<Node, Dist>, pred: map<Node, Node>, visited: set<Node>, heap: seq<Entry>)

  /** The state before the loop (dijkstra.py:45-52): every node at
      infinity but the source at 0, no predecessors, nothing visited, and
      the single entry (0, source). */
  function Initial(g: Adjacency, src: Node): DState
  {
    DState((map x | x in g :: Inf)[src := Fin(0)], map[], {}, [Entry(0, src)])
  }

  /** The relaxation loop over nbrs[i..] for the node x popped at
      distance dx (dijkstra.py:66-77): a visited neighbour is skipped; an
      unvisited one whose distance dx + peso is strictly smaller gets that
      distance, x as predecessor and a new heap entry. */
  function Relax(x: Node, dx: int, nbrs: seq<Neighbor>, i: nat, st: DState): (r: DState)
    requires i <= |nbrs|
    requires forall n :: n in nbrs ==> n.0 in st.dist
    ensures r.dist.Keys == st.dist.Keys && r.visited == st.visited
    decreases |nbrs| - i
  {
    if i == |nbrs| then st
    else
      assert nbrs[i] in nbrs;
      Relax(x, dx, nbrs, i + 1, RelaxOne(x, dx, nbrs, i, st))
  }

  /** Visiting the node of the entry at position i (dijkstra.py:63-77):
      mark it visited, drop the entry and relax its neighbours at the
      entry's distance. */
  function Visit(g: Adjacency, st: DState, i: nat): DState
    requires i < |st.heap| && st.heap[i].n in g
    requires NeighborsAreKeys(g) && st.dist.Keys == g.Keys
  {
    var e := st.heap[i];
    assert forall n :: n in g[e.n] ==> n.0 in st.dist;
    Relax(e.n, e.d, g[e.n], 0, st.(visited := st.visited + {e.n}, heap := RemoveAt(st.heap, i)))
  }

  /** One pass (dijkstra.py:57-77): pop the least entry; skip it if its
      node is visited, otherwise visit the node. */
  function DStep(g: Adjacency, st: DState): DState
    requires |st.heap| > 0
    requires NeighborsAreKeys(g) && st.dist.Keys == g.Keys
    requires forall e :: e in st.heap ==> e.n in g
  {
    var i := MinEntry(st.heap);
    if st.heap[i].n in st.visited then st.(heap := RemoveAt(st.heap, i))
    else Visit(g, st, i)
  }

  // ---------------------------------------------------------------------
  // What relaxation does

  /** The distance d is finite and at most n. */
  predicate AtMost(d: Dist, n: int)
  {
    d.Fin? && d.d <= n
  }

  /** Relaxation left node v alone: same distance, same predecessor. */
  predicate Kept(st: DState, r: DState, v: Node)
  {
    && v in st.dist && v in r.dist && r.dist[v] == st.dist[v]
    && (v in r.pred <==> v in st.pred)
    && (v in st.pred ==> r.pred[v] == st.pred[v])
  }

  /** Relaxation lowered node v through an entry (v, peso) of x's list: v
      is unvisited, its distance fell strictly to dx + peso, x became its
      predecessor and a matching entry was pushed. */
  predicate Lowered(st: DState, r: DState, v: Node, x: Node, dx: int, nbrs: seq<Neighbor>)
  {
    && v in st.dist && v in r.dist && v !in st.visited
    && r.dist[v].Fin? && Below(r.dist[v].d, st.dist[v])
    && (v, r.dist[v].d - dx) in nbrs
    && v in r.pred && r.pred[v] == x
    && Entry(r.dist[v].d, v) in r.heap
  }

  /** The state after relaxing entry i of x's list, before the rest. */
  function RelaxOne(x: Node, dx: int, nbrs: seq<Neighbor>, i: nat, st: DState): (r: DState)
    requires i < |nbrs| && nbrs[i].0 in st.dist
  {
    var v := nbrs[i].0;
    var nd := dx + nbrs[i].1;
    if v !in st.visited && Below(nd, st.dist[v])
    then st.(dist := st.dist[v := Fin(nd)], pred := st.pred[v := x], heap := st.heap + [Entry(nd, v)])
    else st
  }

  /** Relaxation changes a node only by strictly lowering it through x,
      adds predecessors only for nodes with a distance, and drops no
      heap entry. */
  lemma {:induction false} RelaxChanges(x: Node, dx: int, nbrs: seq<Neighbor>, i: nat, st: DState)
    requires i <= |nbrs|
    requires forall n :: n in nbrs ==> n.0 in st.dist
    ensures var r := Relax(x, dx, nbrs, i, st);
      && (forall v :: v in st.dist ==> Kept(st, r, v) || Lowered(st, r, v, x, dx, nbrs))
      && (forall v :: v in r.pred ==> v in st.pred || v in st.dist)
      && (forall e :: e in st.heap ==> e in r.heap)
    decreases |nbrs| - i
  {
    if i < |nbrs| {
      assert nbrs[i] in nbrs;
      var st' := RelaxOne(x, dx, nbrs, i, st);
      RelaxChanges(x, dx, nbrs, i + 1, st');
      var r := Relax(x, dx, nbrs, i + 1, st');
      assert r == Relax(x, dx, nbrs, i, st);
      forall u | u in st.dist ensures Kept(st, r, u) || Lowered(st, r, u, x, dx, nbrs) {
        assert Kept(st', r, u) || Lowered(st', r, u, x, dx, nbrs);
      }
    }
  }

  /** Relaxation never raises a distance: a bound a node meets before it
      still meets after. */
  lemma {:induction false} RelaxLowers(x: Node, dx: int, nbrs: seq<Neighbor>, i: nat, st: DState, v: Node, n: int)
    requires i <= |nbrs|
    requires forall m :: m in nbrs ==> m.0 in st.dist
    requires v in st.dist && AtMost(st.dist[v], n)
    ensures AtMost(Relax(x, dx, nbrs, i, st).dist[v], n)
    decreases |nbrs| - i
  {
    if i < |nbrs| {
      assert nbrs[i] in nbrs;
      var st' := RelaxOne(x, dx, nbrs, i, st);
      assert AtMost(st'.dist[v], n);
      RelaxLowers(x, dx, nbrs, i + 1, st', v, n);
    }
  }

  /** After relaxation every unvisited neighbour from position i on is at
      most dx + peso. */
  lemma {:induction false} RelaxBound(x: Node, dx: int, nbrs: seq<Neighbor>, i: nat, st: DState)
    requires i <= |nbrs|
    requires forall n :: n in nbrs ==> n.0 in st.dist
    ensures var r := Relax(x, dx, nbrs, i, st);
      forall j :: i <= j < |nbrs| && nbrs[j].0 !in st.visited ==> AtMost(r.dist[nbrs[j].0], dx + nbrs[j].1)
    decreases |nbrs| - i
  {
    if i < |nbrs| {
      assert nbrs[i] in nbrs;
      var st' := RelaxOne(x, dx, nbrs, i, st);
      assert st'.visited == st.visited;
      RelaxBound(x, dx, nbrs, i + 1, st');
      var v := nbrs[i].0;
      if v !in st.visited {
        assert AtMost(st'.dist[v], dx + nbrs[i].1);
        RelaxLowers(x, dx, nbrs, i + 1, st', v, dx + nbrs[i].1);
      }
    }
  }

  /** Relaxation pushes only entries of unvisited nodes, each no smaller
      than its node's new distance. */
  lemma {:induction false} RelaxHeap(x: Node, dx: int, nbrs: seq<Neighbor>, i: nat, st: DState)
    requires i <= |nbrs|
    requires forall n :: n in nbrs ==> n.0 in st.dist
    ensures var r := Relax(x, dx, nbrs, i, st);
      forall e: Entry :: e in r.heap ==> e in st.heap || (e.n in st.dist && e.n !in st.visited && AtMost(r.dist[e.n], e.d))
    decreases |nbrs| - i
  {
    if i < |nbrs| {
      assert nbrs[i] in nbrs;
      var st' := RelaxOne(x, dx, nbrs, i, st);
      RelaxHeap(x, dx, nbrs, i + 1, st');
      var v, nd := nbrs[i].0, dx + nbrs[i].1;
      if v !in st.visited && Below(nd, st.dist[v]) {
        assert st'.heap == st.heap + [Entry(nd, v)] && st'.dist[v] == Fin(nd);
        RelaxLowers(x, dx, nbrs, i + 1, st', v, nd);
        var r := Relax(x, dx, nbrs, i + 1, st');
        forall e | e in r.heap
          ensures e in st.heap || (e.n in st.dist && e.n !in st.visited && AtMost(r.dist[e.n], e.d))
        {
          if e in st'.heap && e !in st.heap {
            assert e == Entry(nd, v);
          }
        }
      } else {
        assert st' == st;
      }
    }
  }

  /** Relaxation changes a node only by strictly lowering it through x,
      leaves every neighbour at most dx + peso, and pushes only entries
      no smaller than their node's new distance. */
  lemma RelaxFacts(x: Node, dx: int, nbrs: seq<Neighbor>, i: nat, st: DState)
    requires i <= |nbrs|
    requires forall n :: n in nbrs ==> n.0 in st.dist
    ensures var r := Relax(x, dx, nbrs, i, st);
      && (forall v :: v in st.dist ==> Kept(st, r, v) || Lowered(st, r, v, x, dx, nbrs))
      && (forall v :: v in r.pred ==> v in st.pred || v in st.dist)
      && (forall j :: i <= j < |nbrs| && nbrs[j].0 !in st.visited ==> AtMost(r.dist[nbrs[j].0], dx + nbrs[j].1))
      && (forall e :: e in st.heap ==> e in r.heap)
      && (forall e: Entry :: e in r.heap ==> e in st.heap || (e.n in st.dist && e.n !in st.visited && AtMost(r.dist[e.n], e.d)))
  {
    RelaxChanges(x, dx, nbrs, i, st);
    RelaxBound(x, dx, nbrs, i, st);
    RelaxHeap(x, dx, nbrs, i, st);
  }

  // ---------------------------------------------------------------------
  // The loop invariant

  /** Keys, the source, and the visited set. */
  ghost predicate Frame(es: seq<Edge>, src: Node, st: DState)
  {
    && NeighborsAreKeys(BuildAdjacency(es))
    && src in Endpoints(es)
    && st.dist.Keys == Endpoints(es)
    && st.visited <= Endpoints(es)
    && st.dist[src] == Fin(0) && src !in st.pred
    && (st.visited == {} ==> st.heap == [Entry(0, src)])
    && (st.visited != {} ==> src in st.visited)
    && (forall v :: v in st.visited ==> st.dist[v].Fin?)
  }

  /** Every entry is no smaller than its node's distance, and every
      unvisited node with a finite distance has the matching entry. */
  ghost predicate HeapSound(st: DState)
  {
    && (forall e :: e in st.heap ==> e.n in st.dist && AtMost(st.dist[e.n], e.d))
    && (forall v :: v in st.dist && v !in st.visited && st.dist[v].Fin? ==> Entry(st.dist[v].d, v) in st.heap)
  }

  /** Each predecessor is visited and joined to its node by an input edge
      weighing the difference of their distances; every reached node but
      the source has one. */
  ghost predicate PredSound(es: seq<Edge>, src: Node, dist: map<Node, Dist>, pred: map<Node, Node>, visited: set<Node>)
  {
    PredEdges(es, dist, pred, visited) && PredCovers(src, dist, pred)
  }

  /** Every predecessor is visited and joined to its node by an edge
      whose weight is the difference of their distances. */
  ghost predicate PredEdges(es: seq<Edge>, dist: map<Node, Dist>, pred: map<Node, Node>, visited: set<Node>)
  {
    forall v :: v in pred ==>
      && v in dist && pred[v] in visited && pred[v] in dist
      && dist[v].Fin? && dist[pred[v]].Fin?
      && HasEdge(es, pred[v], v, dist[v].d - dist[pred[v]].d)
  }

  /** Every node other than the source with a finite distance has a
      predecessor. */
  ghost predicate PredCovers(src: Node, dist: map<Node, Dist>, pred: map<Node, Node>)
  {
    forall v :: v in dist && v != src && dist[v].Fin? ==> v in pred
  }

  /** Every edge from a visited node to an unvisited one has been relaxed. */
  ghost predicate RelaxedOut(es: seq<Edge>, dist: map<Node, Dist>, visited: set<Node>)
  {
    forall a, b, w :: a in visited && b !in visited && HasEdge(es, a, b, w) ==>
      a in dist && b in dist && dist[a].Fin? && AtMost(dist[b], dist[a].d + w)
  }

  /** Every finite distance is the weight of some route from the source. */
  ghost predicate Realized(es: seq<Edge>, src: Node, dist: map<Node, Dist>)
  {
    forall v :: v in dist && dist[v].Fin? ==>
      exists t :: IsPath(es, src, v, t) && TotalWeight(t) == dist[v].d
  }

  /** With no negative weight, no route to a visited node is shorter than
      its distance. */
  ghost predicate OptimalSoFar(es: seq<Edge>, src: Node, dist: map<Node, Dist>, visited: set<Node>)
  {
    NonNegative(es) ==>
      forall a, t :: a in visited && a in dist && IsPath(es, src, a, t) ==> AtMost(dist[a], TotalWeight(t))
  }

  /** `when` numbers the visited nodes in visiting order, and a visited
      node's predecessor was visited before it. */
  ghost predicate VisitOrder(pred: map<Node, Node>, visited: set<Node>, when: map<Node, nat>)
  {
    && (forall v :: v in when <==> v in visited)
    && (forall v :: v in when ==> when[v] < |visited|)
    && (forall v :: v in pred && v in when && pred[v] in when ==> when[pred[v]] < when[v])
  }

  ghost predicate DInv(es: seq<Edge>, src: Node, st: DState, when: map<Node, nat>)
  {
    && Frame(es, src, st)
    && HeapSound(st)
    && PredSound(es, src, st.dist, st.pred, st.visited)
    && RelaxedOut(es, st.dist, st.visited)
    && Realized(es, src, st.dist)
    && OptimalSoFar(es, src, st.dist, st.visited)
    && VisitOrder(st.pred, st.visited, when)
  }

  lemma DInvInit(es: seq<Edge>, src: Node)
    requires src in Endpoints(es)
    ensures DInv(es, src, Initial(BuildAdjacency(es), src), map[])
  {
    AdjacencyClosed(es);
    var st := Initial(BuildAdjacency(es), src);
    assert IsPath(es, src, src, []);
    assert Frame(es, src, st);
    assert HeapSound(st);
    assert PredSound(es, src, st.dist, st.pred, st.visited);
    assert Realized(es, src, st.dist);
  }

  /** A popped entry whose node is visited is dropped and nothing else
      changes (dijkstra.py:60-61). */
  lemma DInvSkip(es: seq<Edge>, src: Node, st: DState, when: map<Node, nat>)
    requires DInv(es, src, st, when) && |st.heap| > 0
    requires st.heap[MinEntry(st.heap)].n in st.visited
    ensures DInv(es, src, st.(heap := RemoveAt(st.heap, MinEntry(st.heap))), when)
  {
    var i := MinEntry(st.heap);
    var st' := st.(heap := RemoveAt(st.heap, i));
    forall e | e in st'.heap ensures e.n in st'.dist && AtMost(st'.dist[e.n], e.d) {
      RemoveAtFrom(st.heap, i, e);
    }
    forall v | v in st.dist && v !in st.visited && st.dist[v].Fin?
      ensures Entry(st.dist[v].d, v) in st'.heap
    {
      RemoveAtKeeps(st.heap, i, Entry(st.dist[v].d, v));
    }
    assert Frame(es, src, st');
    assert HeapSound(st');
  }

  /** The popped entry of a visit carries its node's current distance. */
  lemma VisitSetup(es: seq<Edge>, src: Node, st: DState, when: map<Node, nat>) returns (x: Node, d: int)
    requires DInv(es, src, st, when) && |st.heap| > 0
    requires st.heap[MinEntry(st.heap)].n !in st.visited
    ensures x == st.heap[MinEntry(st.heap)].n && d == st.heap[MinEntry(st.heap)].d
    ensures x != src ==> x in st.pred
    ensures x in BuildAdjacency(es) && x in st.dist && st.dist[x] == Fin(d)
    ensures st.visited == {} ==> x == src && d == 0
    ensures st.visited != {} ==> src in st.visited
    ensures forall e :: e in st.heap ==> d <= e.d
  {
    var i := MinEntry(st.heap);
    x, d := st.heap[i].n, st.heap[i].d;
    assert st.heap[i] in st.heap;
    MinEntryBelow(st.heap, Entry(st.dist[x].d, x));
    forall e | e in st.heap ensures d <= e.d {
      MinEntryBelow(st.heap, e);
    }
  }

  /** What a visit does to each node and entry: the popped node joins the
      visited set, every other node is kept or strictly lowered through
      it, every unvisited neighbour ends at most the popped distance plus
      the edge weight, and the heap loses the popped entry and gains only
      entries for lowered nodes. */
  lemma VisitEffect(g: Adjacency, st: DState) returns (x: Node, d: int, r: DState)
    requires |st.heap| > 0 && st.heap[MinEntry(st.heap)].n in g
    requires st.heap[MinEntry(st.heap)].n !in st.visited
    requires NeighborsAreKeys(g) && st.dist.Keys == g.Keys
    ensures x == st.heap[MinEntry(st.heap)].n && d == st.heap[MinEntry(st.heap)].d
    ensures r == Visit(g, st, MinEntry(st.heap))
    ensures r.dist.Keys == st.dist.Keys
    ensures r.visited == st.visited + {x}
    ensures forall v :: v in st.dist ==> Kept(st, r, v) || (v != x && Lowered(st, r, v, x, d, g[x]))
    ensures forall v :: v in r.pred ==> v in st.pred || v in st.dist
    ensures forall n: Neighbor :: n in g[x] && n.0 !in st.visited && n.0 != x ==> n.0 in r.dist && AtMost(r.dist[n.0], d + n.1)
    ensures forall e: Entry :: e in r.heap ==> e in st.heap || (e.n in st.dist && e.n !in st.visited && e.n != x && AtMost(r.dist[e.n], e.d))
    ensures forall e: Entry :: e in st.heap && e.n != x ==> e in r.heap
  {
    var i := MinEntry(st.heap);
    x, d := st.heap[i].n, st.heap[i].d;
    var st1 := st.(visited := st.visited + {x}, heap := RemoveAt(st.heap, i));
    assert forall n: Neighbor :: n in g[x] ==> n.0 in st1.dist;
    RelaxFacts(x, d, g[x], 0, st1);
    r := Visit(g, st, i);
    assert r == Relax(x, d, g[x], 0, st1);
    forall v | v in st.dist ensures Kept(st, r, v) || (v != x && Lowered(st, r, v, x, d, g[x])) {
      assert Kept(st1, r, v) || Lowered(st1, r, v, x, d, g[x]);
    }
    forall n: Neighbor | n in g[x] && n.0 !in st.visited && n.0 != x ensures n.0 in r.dist && AtMost(r.dist[n.0], d + n.1) {
      assert n.0 in st1.dist;
      var j :| 0 <= j < |g[x]| && g[x][j] == n;
    }
    forall e: Entry | e in st.heap && e.n != x ensures e in r.heap {
      RemoveAtKeeps(st.heap, i, e);
    }
    forall e: Entry | e in r.heap
      ensures e in st.heap || (e.n in st.dist && e.n !in st.visited && e.n != x && AtMost(r.dist[e.n], e.d))
    {
      if e in st1.heap {
        RemoveAtFrom(st.heap, i, e);
      }
    }
  }

  /** Node v was lowered by the visit of x at distance d through an input
      edge from x. */
  ghost predicate LoweredVia(es: seq<Edge>, st: DState, r: DState, v: Node, x: Node, d: int)
  {
    && v in st.dist && v in r.dist && v != x && v !in st.visited
    && r.dist[v].Fin? && Below(r.dist[v].d, st.dist[v])
    && v in r.pred && r.pred[v] == x
    && HasEdge(es, x, v, r.dist[v].d - d)
    && Entry(r.dist[v].d, v) in r.heap
  }

  /** r is st after visiting x at distance d, described through the input
      edges rather than through the relaxation loop. */
  ghost predicate VisitedFrom(es: seq<Edge>, st: DState, r: DState, x: Node, d: int)
  {
    && x in st.dist && st.dist[x] == Fin(d) && x !in st.visited
    && r.dist.Keys == st.dist.Keys && r.visited == st.visited + {x}
    && (forall v :: v in st.dist ==> Kept(st, r, v) || LoweredVia(es, st, r, v, x, d))
    && (forall v :: v in r.pred ==> v in st.pred || v in st.dist)
    && (forall b, w :: b !in r.visited && HasEdge(es, x, b, w) ==> b in r.dist && AtMost(r.dist[b], d + w))
    && (forall e :: e in r.heap ==> e in st.heap || (e.n in st.dist && e.n !in st.visited && e.n != x && AtMost(r.dist[e.n], e.d)))
    && (forall e :: e in st.heap && e.n != x ==> e in r.heap)
  }

  lemma VisitIsVisitedFrom(es: seq<Edge>, st: DState)
    requires |st.heap| > 0 && st.heap[MinEntry(st.heap)].n !in st.visited
    requires NeighborsAreKeys(BuildAdjacency(es)) && st.dist.Keys == Endpoints(es)
    requires st.heap[MinEntry(st.heap)].n in st.dist
    requires st.dist[st.heap[MinEntry(st.heap)].n] == Fin(st.heap[MinEntry(st.heap)].d)
    ensures VisitedFrom(es, st, Visit(BuildAdjacency(es), st, MinEntry(st.heap)),
                        st.heap[MinEntry(st.heap)].n, st.heap[MinEntry(st.heap)].d)
  {
    var x, d, r := VisitEffect(BuildAdjacency(es), st);
    VisitedFromParts(es, st, r, x, d);
  }

  /** VisitEffect's description of a visit, through the adjacency lists,
      is a VisitedFrom description, through the input edges. */
  lemma VisitedFromParts(es: seq<Edge>, st: DState, r: DState, x: Node, d: int)
    requires x in BuildAdjacency(es) && x in st.dist && st.dist[x] == Fin(d) && x !in st.visited
    requires r.dist.Keys == st.dist.Keys && r.visited == st.visited + {x}
    requires forall v :: v in st.dist ==> Kept(st, r, v) || (v != x && Lowered(st, r, v, x, d, BuildAdjacency(es)[x]))
    requires forall v :: v in r.pred ==> v in st.pred || v in st.dist
    requires forall n: Neighbor :: n in BuildAdjacency(es)[x] && n.0 !in st.visited && n.0 != x ==>
               n.0 in r.dist && AtMost(r.dist[n.0], d + n.1)
    requires forall e: Entry :: e in r.heap ==> e in st.heap || (e.n in st.dist && e.n !in st.visited && e.n != x && AtMost(r.dist[e.n], e.d))
    requires forall e: Entry :: e in st.heap && e.n != x ==> e in r.heap
    ensures VisitedFrom(es, st, r, x, d)
  {
    AllLoweredVia(es, st, r, x, d);
    AllNeighborsRelaxed(es, st, r, x, d);
  }

  lemma AllLoweredVia(es: seq<Edge>, st: DState, r: DState, x: Node, d: int)
    requires x in BuildAdjacency(es)
    requires forall v :: v in st.dist ==> Kept(st, r, v) || (v != x && Lowered(st, r, v, x, d, BuildAdjacency(es)[x]))
    ensures forall v :: v in st.dist ==> Kept(st, r, v) || LoweredVia(es, st, r, v, x, d)
  {
    forall v | v in st.dist ensures Kept(st, r, v) || LoweredVia(es, st, r, v, x, d) {
      if !Kept(st, r, v) {
        LoweredThroughEdge(es, st, r, v, x, d);
      }
    }
  }

  lemma AllNeighborsRelaxed(es: seq<Edge>, st: DState, r: DState, x: Node, d: int)
    requires x in BuildAdjacency(es) && r.visited == st.visited + {x}
    requires forall n: Neighbor :: n in BuildAdjacency(es)[x] && n.0 !in st.visited && n.0 != x ==>
               n.0 in r.dist && AtMost(r.dist[n.0], d + n.1)
    ensures forall b, w :: b !in r.visited && HasEdge(es, x, b, w) ==> b in r.dist && AtMost(r.dist[b], d + w)
  {
    forall b, w | b !in r.visited && HasEdge(es, x, b, w) ensures b in r.dist && AtMost(r.dist[b], d + w) {
      NeighborRelaxed(es, st.visited, r, x, d, b, w);
    }
  }

  lemma NeighborRelaxed(es: seq<Edge>, visited: set<Node>, r: DState, x: Node, d: int, b: Node, w: int)
    requires x in BuildAdjacency(es) && HasEdge(es, x, b, w) && b !in visited && b != x
    requires forall n: Neighbor :: n in BuildAdjacency(es)[x] && n.0 !in visited && n.0 != x ==>
               n.0 in r.dist && AtMost(r.dist[n.0], d + n.1)
    ensures b in r.dist && AtMost(r.dist[b], d + w)
  {
    AdjacencyEntries(es, x, b, w);
    assert (b, w) in BuildAdjacency(es)[x];
  }

  lemma LoweredThroughEdge(es: seq<Edge>, st: DState, r: DState, v: Node, x: Node, d: int)
    requires x in BuildAdjacency(es) && v != x && Lowered(st, r, v, x, d, BuildAdjacency(es)[x])
    ensures LoweredVia(es, st, r, v, x, d)
  {
    var w := r.dist[v].d - d;
    assert (v, w) in BuildAdjacency(es)[x];
    AdjacencyEntries(es, x, v, w);
    assert HasEdge(es, x, v, w);
  }

  // Each component of the invariant survives a visit.

  lemma FrameAfterVisit(es: seq<Edge>, src: Node, st: DState, r: DState, x: Node, d: int)
    requires Frame(es, src, st)
    requires VisitedFrom(es, st, r, x, d)
    requires st.visited == {} ==> x == src
    ensures Frame(es, src, r)
  {
    assert Kept(st, r, src);
    forall v | v in r.visited ensures r.dist[v].Fin? {
      assert Kept(st, r, v) || LoweredVia(es, st, r, v, x, d);
    }
  }

  lemma HeapAfterVisit(es: seq<Edge>, st: DState, r: DState, x: Node, d: int)
    requires HeapSound(st)
    requires VisitedFrom(es, st, r, x, d)
    ensures HeapSound(r)
  {
    forall e | e in r.heap ensures e.n in r.dist && AtMost(r.dist[e.n], e.d) {
      if e in st.heap {
        assert Kept(st, r, e.n) || LoweredVia(es, st, r, e.n, x, d);
      }
    }
    forall v | v in r.dist && v !in r.visited && r.dist[v].Fin?
      ensures Entry(r.dist[v].d, v) in r.heap
    {
      if Kept(st, r, v) {
        assert Entry(st.dist[v].d, v) in st.heap;
      }
    }
  }

  lemma PredAfterVisit(es: seq<Edge>, src: Node, st: DState, r: DState, x: Node, d: int)
    requires PredSound(es, src, st.dist, st.pred, st.visited)
    requires VisitedFrom(es, st, r, x, d)
    ensures PredSound(es, src, r.dist, r.pred, r.visited)
  {
    PredEdgesAfterVisit(es, st, r, x, d);
    PredCoversAfterVisit(es, src, st, r, x, d);
  }

  lemma PredEdgesAfterVisit(es: seq<Edge>, st: DState, r: DState, x: Node, d: int)
    requires PredEdges(es, st.dist, st.pred, st.visited)
    requires VisitedFrom(es, st, r, x, d)
    ensures PredEdges(es, r.dist, r.pred, r.visited)
  {
    assert Kept(st, r, x);
    forall v | v in r.pred
      ensures && v in r.dist && r.pred[v] in r.visited && r.pred[v] in r.dist
              && r.dist[v].Fin? && r.dist[r.pred[v]].Fin?
              && HasEdge(es, r.pred[v], v, r.dist[v].d - r.dist[r.pred[v]].d)
    {
      if Kept(st, r, v) {
        assert Kept(st, r, st.pred[v]);
      }
    }
  }

  lemma PredCoversAfterVisit(es: seq<Edge>, src: Node, st: DState, r: DState, x: Node, d: int)
    requires PredCovers(src, st.dist, st.pred)
    requires VisitedFrom(es, st, r, x, d)
    ensures PredCovers(src, r.dist, r.pred)
  {
    forall v | v in r.dist && v != src && r.dist[v].Fin? ensures v in r.pred {
      assert Kept(st, r, v) || LoweredVia(es, st, r, v, x, d);
    }
  }

  lemma RelaxedAfterVisit(es: seq<Edge>, st: DState, r: DState, x: Node, d: int)
    requires RelaxedOut(es, st.dist, st.visited)
    requires VisitedFrom(es, st, r, x, d)
    ensures RelaxedOut(es, r.dist, r.visited)
  {
    assert Kept(st, r, x);
    forall a, b, w | a in r.visited && b !in r.visited && HasEdge(es, a, b, w)
      ensures a in r.dist && b in r.dist && r.dist[a].Fin? && AtMost(r.dist[b], r.dist[a].d + w)
    {
      if a != x {
        assert Kept(st, r, a);
        assert Kept(st, r, b) || LoweredVia(es, st, r, b, x, d);
      }
    }
  }

  lemma RealizedAfterVisit(es: seq<Edge>, src: Node, st: DState, r: DState, x: Node, d: int)
    requires Realized(es, src, st.dist)
    requires VisitedFrom(es, st, r, x, d)
    ensures Realized(es, src, r.dist)
  {
    forall v | v in r.dist && r.dist[v].Fin?
      ensures exists t :: IsPath(es, src, v, t) && TotalWeight(t) == r.dist[v].d
    {
      if !Kept(st, r, v) {
        assert LoweredVia(es, st, r, v, x, d);
        var t :| IsPath(es, src, x, t) && TotalWeight(t) == d;
        PathSnoc(es, src, x, t, v, r.dist[v].d - d);
      }
    }
  }

  /** The heart of the algorithm: with no negative weight, the least entry's
      distance is no longer than any route to its node, because such a route
      leaves the visited set through a relaxed edge into a node whose entry
      is on the heap. */
  lemma OptimalAfterVisit(es: seq<Edge>, src: Node, st: DState, r: DState, x: Node, d: int)
    requires OptimalSoFar(es, src, st.dist, st.visited)
    requires RelaxedOut(es, st.dist, st.visited) && HeapSound(st)
    requires VisitedFrom(es, st, r, x, d)
    requires forall e :: e in st.heap ==> d <= e.d
    requires st.visited == {} ==> x == src && d == 0
    requires st.visited != {} ==> src in st.visited
    ensures OptimalSoFar(es, src, r.dist, r.visited)
  {
    if NonNegative(es) {
      forall a, t: seq<Edge> | a in r.visited && a in r.dist && IsPath(es, src, a, t)
        ensures AtMost(r.dist[a], TotalWeight(t))
      {
        assert Kept(st, r, a);
        if a == x {
          if st.visited == {} {
            PathWeightNonNegative(es, src, a, t);
          } else {
            var k := FirstExit(es, st.visited, src, x, t);
            var b := t[k].v;
            assert AtMost(st.dist[t[k].u], TotalWeight(t[..k]));
            assert AtMost(st.dist[b], st.dist[t[k].u].d + t[k].w);
            assert Entry(st.dist[b].d, b) in st.heap;
          }
        }
      }
    }
  }

  lemma OrderAfterVisit(es: seq<Edge>, src: Node, st: DState, r: DState, x: Node, d: int, when: map<Node, nat>)
    requires VisitOrder(st.pred, st.visited, when)
    requires PredSound(es, src, st.dist, st.pred, st.visited)
    requires VisitedFrom(es, st, r, x, d)
    ensures VisitOrder(r.pred, r.visited, when[x := |st.visited|])
  {
    var when' := when[x := |st.visited|];
    assert |r.visited| == |st.visited| + 1;
    forall v | v in r.pred && v in when' && r.pred[v] in when' ensures when'[r.pred[v]] < when'[v] {
      assert Kept(st, r, v);
    }
  }

  /** A visit keeps the invariant, numbering the popped node last. */
  lemma DInvVisit(es: seq<Edge>, src: Node, st: DState, when: map<Node, nat>)
    requires DInv(es, src, st, when) && |st.heap| > 0
    requires st.heap[MinEntry(st.heap)].n !in st.visited
    ensures DInv(es, src, Visit(BuildAdjacency(es), st, MinEntry(st.heap)), when[st.heap[MinEntry(st.heap)].n := |st.visited|])
  {
    var x, d := VisitSetup(es, src, st, when);
    VisitIsVisitedFrom(es, st);
    var r := Visit(BuildAdjacency(es), st, MinEntry(st.heap));
    FrameAfterVisit(es, src, st, r, x, d);
    HeapAfterVisit(es, st, r, x, d);
    PredAfterVisit(es, src, st, r, x, d);
    RelaxedAfterVisit(es, st, r, x, d);
    RealizedAfterVisit(es, src, st, r, x, d);
    OptimalAfterVisit(es, src, st, r, x, d);
    OrderAfterVisit(es, src, st, r, x, d, when);
  }

  /** One pass keeps the invariant and makes progress: either a stale entry
      goes, or one more node is visited. */
  lemma DInvStep(es: seq<Edge>, src: Node, st: DState, when: map<Node, nat>) returns (when': map<Node, nat>)
    requires DInv(es, src, st, when) && |st.heap| > 0
    ensures forall e :: e in st.heap ==> e.n in BuildAdjacency(es)
    ensures DInv(es, src, DStep(BuildAdjacency(es), st), when')
    ensures |DStep(BuildAdjacency(es), st).visited| <= |Endpoints(es)|
    ensures || (DStep(BuildAdjacency(es), st).visited == st.visited && |DStep(BuildAdjacency(es), st).heap| < |st.heap|)
            || |DStep(BuildAdjacency(es), st).visited| == |st.visited| + 1
  {
    var g := BuildAdjacency(es);
    var i := MinEntry(st.heap);
    assert st.heap[i] in st.heap;
    if st.heap[i].n in st.visited {
      DInvSkip(es, src, st, when);
      when' := when;
    } else {
      DInvVisit(es, src, st, when);
      when' := when[st.heap[i].n := |st.visited|];
    }
    SubsetCard(DStep(g, st).visited, Endpoints(es));
  }

  /** What Dijkstra promises about its two maps: every endpoint has a
      distance, finite exactly for the nodes joined to src; every reached
      node but src has a predecessor joined to it by an input edge weighing
      the difference of their distances; every finite distance is the
      weight of some route from src, and with no negative weight no route
      is shorter. */
  ghost predicate ShortestFrom(es: seq<Edge>, src: Node, dist: map<Node, Dist>, pred: map<Node, Node>)
  {
    && dist.Keys == Endpoints(es)
    && src in dist && dist[src] == Fin(0) && src !in pred
    && (forall v :: v in dist ==> (dist[v].Fin? <==> Connected(es, src, v)))
    && (forall v :: v in dist && v != src ==> (v in pred <==> dist[v].Fin?))
    && (forall v :: v in pred ==>
          && v in dist && pred[v] in dist && dist[v].Fin? && dist[pred[v]].Fin?
          && HasEdge(es, pred[v], v, dist[v].d - dist[pred[v]].d))
    && (forall v :: v in dist && dist[v].Fin? ==>
          exists t :: IsPath(es, src, v, t) && TotalWeight(t) == dist[v].d)
    && (NonNegative(es) ==>
          forall v, t :: v in dist && IsPath(es, src, v, t) ==> AtMost(dist[v], TotalWeight(t)))
  }

  /** When the heap runs dry the visited nodes are exactly the nodes joined
      to the source, and they are exactly the nodes with a finite distance. */
  lemma DijkstraFinish(es: seq<Edge>, src: Node, st: DState, when: map<Node, nat>)
    requires DInv(es, src, st, when) && |st.heap| == 0
    ensures forall v :: v in st.dist ==> (st.dist[v].Fin? <==> v in st.visited)
    ensures forall v :: v in st.dist ==> (v in st.visited <==> Connected(es, src, v))
  {
    forall v | v in st.dist && v !in st.visited ensures st.dist[v].Inf? {
      assert forall e :: e !in st.heap;
    }
    forall i | 0 <= i < |es| ensures es[i].u in st.visited <==> es[i].v in st.visited {
      assert HasEdge(es, es[i].u, es[i].v, es[i].w);
      assert HasEdge(es, es[i].v, es[i].u, es[i].w);
      HasEdgeEndpoints(es, es[i].u, es[i].v, es[i].w);
    }
    assert ClosedUnder(es, st.visited);
    forall v | v in st.dist ensures v in st.visited <==> Connected(es, src, v) {
      ConnectedLeaves(es, st.visited, src, v);
      if v in st.visited {
        var t :| IsPath(es, src, v, t) && TotalWeight(t) == st.dist[v].d;
        PathConnected(es, src, v, t);
      }
    }
  }

  /** At the end the invariant's parts add up to the promised outcome. */
  lemma ShortestAtEnd(es: seq<Edge>, src: Node, st: DState)
    requires src in Endpoints(es) && st.dist.Keys == Endpoints(es)
    requires st.dist[src] == Fin(0) && src !in st.pred
    requires PredSound(es, src, st.dist, st.pred, st.visited)
    requires Realized(es, src, st.dist)
    requires OptimalSoFar(es, src, st.dist, st.visited)
    requires forall v :: v in st.dist ==> (st.dist[v].Fin? <==> v in st.visited)
    requires forall v :: v in st.dist ==> (v in st.visited <==> Connected(es, src, v))
    ensures ShortestFrom(es, src, st.dist, st.pred)
  {
    forall v, t | v in st.dist && IsPath(es, src, v, t) && NonNegative(es)
      ensures AtMost(st.dist[v], TotalWeight(t))
    {
      PathConnected(es, src, v, t);
    }
  }

  /** Shortest distances from src over the undirected edge list es, and the
      predecessor of every reached node but src (dijkstra.py:15-79). A
      source that is no endpoint gives two empty maps. */
  method Dijkstra(es: seq<Edge>, src: Node) returns (dist: map<Node, Dist>, pred: map<Node, Node>)
    ensures src !in Endpoints(es) ==> dist == map[] && pred == map[]
    ensures src in Endpoints(es) ==> ShortestFrom(es, src, dist, pred)
    ensures forall v :: Route(pred, src, v, |dist|).Some?
  {
    var g := BuildAdjacency(es);
    if src !in g {
      return map[], map[];
    }
    DInvInit(es, src);
    var st := Initial(g, src);
    ghost var when: map<Node, nat> := map[];
    while |st.heap| > 0
      invariant DInv(es, src, st, when)
      invariant |st.visited| <= |g|
      decreases |g| - |st.visited|, |st.heap|
    {
      when := DInvStep(es, src, st, when);
      st := DStep(g, st);
    }
    DijkstraFinish(es, src, st, when);
    ShortestAtEnd(es, src, st);
    RankedAtEnd(es, src, st, when);
    dist, pred := st.dist, st.pred;
    forall v ensures Route(pred, src, v, |dist|).Some? {
      RouteTerminates(pred, when, |dist|, src, v, |dist|);
    }
  }

  /** The visiting order ranks the final predecessor links. */
  lemma RankedAtEnd(es: seq<Edge>, src: Node, st: DState, when: map<Node, nat>)
    requires DInv(es, src, st, when)
    requires forall v :: v in st.dist ==> (st.dist[v].Fin? <==> v in st.visited)
    ensures PredRanked(st.pred, when, |st.dist|)
  {
    SubsetCard(st.visited, st.dist.Keys);
    assert |st.dist.Keys| == |st.dist|;
  }

  // ---------------------------------------------------------------------
  // Reconstructing a route

  /** Each node of p after the first has the one before it as predecessor. */
  predicate FollowsPred(pred: map<Node, Node>, p: seq<Node>)
  {
    forall k :: 0 < k < |p| ==> p[k] in pred && pred[p[k]] == p[k - 1]
  }

  /** The edges t walk the node list p: edge k goes from p[k] to p[k + 1]. */
  predicate Traces(t: seq<Edge>, p: seq<Node>)
  {
    && |t| + 1 == |p|
    && forall k :: 0 <= k < |t| ==> t[k].u == p[k] && t[k].v == p[k + 1]
  }

  /** Appending one edge from the last node to a new one extends the walk. */
  lemma TracesSnoc(t: seq<Edge>, p: seq<Node>, e: Edge)
    requires Traces(t, p) && e.u == p[|p| - 1]
    ensures Traces(t + [e], p + [e.v])
  {
  }

  /** reconstruir_ruta (dijkstra.py:82-110): follow predecessors back from
      dest until origin; a node with no predecessor on the way means no
      route, the empty list. The source loops for as long as the links
      last; here fuel bounds the number of links followed, and None says
      it ran out. */
  function Route(pred: map<Node, Node>, origin: Node, dest: Node, fuel: nat): (r: Option<seq<Node>>)
    ensures r.Some? && r.value != [] ==>
      && r.value[0] == origin && r.value[|r.value| - 1] == dest
      && FollowsPred(pred, r.value)
      && (forall k :: 0 < k < |r.value| ==> r.value[k] != origin)
    ensures r.Some? && dest == origin ==> r.value == [origin]
    ensures r.Some? && dest != origin && dest !in pred ==> r.value == []
    decreases fuel
  {
    if dest == origin then Some([origin])
    else if dest !in pred then Some([])
    else if fuel == 0 then None
    else
      match Route(pred, origin, pred[dest], fuel - 1)
      case None => None
      case Some(p) => if p == [] then Some([]) else Some(p + [dest])
  }

  /** Predecessor links climb strictly down a ranking below bound. */
  ghost predicate PredRanked(pred: map<Node, Node>, rank: map<Node, nat>, bound: nat)
  {
    && (forall v :: v in pred ==> v in rank && pred[v] in rank && rank[pred[v]] < rank[v])
    && (forall v :: v in rank ==> rank[v] < bound)
  }

  /** Under a ranking, following links from dest ends within its rank. */
  lemma {:induction false} RouteTerminates(pred: map<Node, Node>, rank: map<Node, nat>, bound: nat, origin: Node, dest: Node, fuel: nat)
    requires PredRanked(pred, rank, bound)
    requires dest in pred ==> rank[dest] < fuel
    ensures Route(pred, origin, dest, fuel).Some?
    decreases fuel
  {
    if dest != origin && dest in pred {
      RouteTerminates(pred, rank, bound, origin, pred[dest], fuel - 1);
    }
  }

  /** On Dijkstra's maps, a route that is found is non-empty exactly when
      the destination was reached, and its links are input edges forming a
      route of weight dist[dest]: a shortest route when no weight is
      negative. */
  lemma RouteOnShortest(es: seq<Edge>, src: Node, dist: map<Node, Dist>, pred: map<Node, Node>, dest: Node, fuel: nat)
    requires ShortestFrom(es, src, dist, pred)
    requires dest in dist && Route(pred, src, dest, fuel).Some?
    ensures Route(pred, src, dest, fuel).value != [] <==> dist[dest].Fin?
    ensures dist[dest].Fin? ==>
      exists t :: && IsPath(es, src, dest, t) && TotalWeight(t) == dist[dest].d
                  && |t| == |Route(pred, src, dest, fuel).value| - 1
                  && Traces(t, Route(pred, src, dest, fuel).value)
  {
    RouteAlongPred(es, src, dist, pred, dest, fuel);
  }

  /** The induction behind RouteOnShortest, over the predecessor facts only. */
  lemma {:induction false} RouteAlongPred(es: seq<Edge>, src: Node, dist: map<Node, Dist>, pred: map<Node, Node>, dest: Node, fuel: nat)
    requires src in dist && dist[src] == Fin(0) && src !in pred
    requires forall v :: v in dist && v != src ==> (v in pred <==> dist[v].Fin?)
    requires forall v :: v in pred ==>
      && v in dist && pred[v] in dist && dist[v].Fin? && dist[pred[v]].Fin?
      && HasEdge(es, pred[v], v, dist[v].d - dist[pred[v]].d)
    requires dest in dist && Route(pred, src, dest, fuel).Some?
    ensures Route(pred, src, dest, fuel).value != [] <==> dist[dest].Fin?
    ensures dist[dest].Fin? ==>
      exists t :: && IsPath(es, src, dest, t) && TotalWeight(t) == dist[dest].d
                  && |t| == |Route(pred, src, dest, fuel).value| - 1
                  && Traces(t, Route(pred, src, dest, fuel).value)
    decreases fuel
  {
    if dest != src && dest in pred {
      var p := pred[dest];
      RouteAlongPred(es, src, dist, pred, p, fuel - 1);
      var r0 := Route(pred, src, p, fuel - 1).value;
      var t :| && IsPath(es, src, p, t) && TotalWeight(t) == dist[p].d
               && |t| == |r0| - 1 && Traces(t, r0);
      var w := dist[dest].d - dist[p].d;
      PathSnoc(es, src, p, t, dest, w);
      TracesSnoc(t, r0, Edge(p, dest, w));
      var t' := t + [Edge(p, dest, w)];
      assert Route(pred, src, dest, fuel).value == r0 + [dest];
      assert IsPath(es, src, dest, t') && TotalWeight(t') == dist[dest].d;
    } else if dest == src {
      assert IsPath(es, src, src, []) && Traces([], [src]);
    }
  }
}
