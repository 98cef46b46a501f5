/** The undirected weighted graph shared by the Prim, Kruskal and Dijkstra
    engines: an edge list, the adjacency dictionary built from it, and the
    graph-theoretic vocabulary (walks, connectivity, forests) their
    contracts are stated in. */
module Graph {

  /** Node labels are strings; equal labels are the same node. */
  type Node = string

  /** An input triple (nodo1, nodo2, peso). Weights are arbitrary integers:
      the edge reader converts with `int` and rejects nothing. */
  datatype Edge = Edge(u: Node, v: Node, w: int)

  /** A neighbour entry (vecino, peso) of an adjacency list. */
  type Neighbor = (Node, int)

  /** Dictionary node -> list of (vecino, peso). */
  type Adjacency = map<Node, seq<Neighbor>>

  /** Every node that occurs as an endpoint of some edge. */
  function Endpoints(es: seq<Edge>): set<Node>
  {
    (set e | e in es :: e.u) + (set e | e in es :: e.v)
  }

  /** Sum of the weights of an edge sequence. */
  function TotalWeight(es: seq<Edge>): int
  {
    if |es| == 0 then 0 else TotalWeight(es[..|es| - 1]) + es[|es| - 1].w
  }

  lemma TotalWeightAppend(es: seq<Edge>, e: Edge)
    ensures TotalWeight(es + [e]) == TotalWeight(es) + e.w
  {
    assert (es + [e])[..|es|] == es;
  }

  /** Some input edge joins x and y (in either orientation) with weight w. */
  ghost predicate HasEdge(es: seq<Edge>, x: Node, y: Node, w: int)
  {
    exists i :: 0 <= i < |es| && (es[i] == Edge(x, y, w) || es[i] == Edge(y, x, w))
  }

  /** How many times the entry (y, w) must appear in x's adjacency list:
      once for each input edge x-y of weight w in each orientation, so a
      self-loop x-x counts twice and parallel edges each count. */
  function Multiplicity(es: seq<Edge>, x: Node, y: Node, w: int): nat
  {
    if |es| == 0 then 0
    else
      var e := es[|es| - 1];
      Multiplicity(es[..|es| - 1], x, y, w)
      + (if e == Edge(x, y, w) then 1 else 0)
      + (if e == Edge(y, x, w) then 1 else 0)
  }

  lemma {:induction false} MultiplicityPositive(es: seq<Edge>, x: Node, y: Node, w: int)
    ensures Multiplicity(es, x, y, w) > 0 <==> HasEdge(es, x, y, w)
    decreases |es|
  {
    if |es| > 0 {
      var p := es[..|es| - 1];
      var last := |es| - 1;
      MultiplicityPositive(p, x, y, w);
      var hit := es[last] == Edge(x, y, w) || es[last] == Edge(y, x, w);
      if HasEdge(p, x, y, w) {
        var i :| 0 <= i < |p| && (p[i] == Edge(x, y, w) || p[i] == Edge(y, x, w));
        assert es[i] == p[i];
      } else if hit {
        assert HasEdge(es, x, y, w);
      } else {
        forall i | 0 <= i < |es|
          ensures es[i] != Edge(x, y, w) && es[i] != Edge(y, x, w)
        {
          if i < last {
            assert es[i] == p[i];
          }
        }
      }
    }
  }

  /** Enter x as a new key unless it is already one. */
  function AddKey(keys: seq<Node>, x: Node): seq<Node>
  {
    if x in keys then keys else keys + [x]
  }

  /** AddKey adds exactly x, keeps the keys distinct and the first key first. */
  lemma AddKeyFacts(keys: seq<Node>, x: Node)
    ensures var r := AddKey(keys, x);
      && (forall y :: y in r <==> y in keys || y == x)
      && ((forall i, j :: 0 <= i < j < |keys| ==> keys[i] != keys[j]) ==> forall i, j :: 0 <= i < j < |r| ==> r[i] != r[j])
      && (|keys| > 0 ==> |r| > 0 && r[0] == keys[0])
      && (|keys| == 0 ==> r == [x])
  {
  }

  /** The insertion order of the adjacency dictionary's keys: each endpoint
      is entered the first time it is met, nodo1 before nodo2
      (prim.py:33-38, dijkstra.py:30-35). */
  function NodeOrder(es: seq<Edge>): (r: seq<Node>)
    ensures forall i, j :: 0 <= i < j < |r| ==> r[i] != r[j]
    ensures forall x :: x in r <==> x in Endpoints(es)
    ensures |es| > 0 ==> |r| > 0 && r[0] == es[0].u
  {
    if |es| == 0 then []
    else
      var p := es[..|es| - 1];
      var e := es[|es| - 1];
      EndpointsSnoc(es);
      assert |p| > 0 ==> p[0] == es[0];
      AddKeyFacts(NodeOrder(p), e.u);
      AddKeyFacts(AddKey(NodeOrder(p), e.u), e.v);
      AddKey(AddKey(NodeOrder(p), e.u), e.v)
  }

  function Append(g: Adjacency, x: Node, n: Neighbor): Adjacency
  {
    g[x := (if x in g then g[x] else []) + [n]]
  }

  /** Appending n to x's list adds one copy of n there and changes nothing else. */
  lemma AppendCount(g: Adjacency, x: Node, n: Neighbor, y: Node, m: Neighbor)
    ensures Append(g, x, n).Keys == g.Keys + {x}
    ensures y in Append(g, x, n) ==>
      multiset(Append(g, x, n)[y])[m]
      == (if y in g then multiset(g[y])[m] else 0) + (if y == x && m == n then 1 else 0)
  {
  }

  lemma EndpointsSnoc(es: seq<Edge>)
    requires |es| > 0
    ensures Endpoints(es) == Endpoints(es[..|es| - 1]) + {es[|es| - 1].u, es[|es| - 1].v}
  {
    var p := es[..|es| - 1];
    assert es == p + [es[|es| - 1]];
    assert forall f :: f in es <==> f in p || f == es[|es| - 1];
  }

  lemma MultiplicitySnoc(p: seq<Edge>, e: Edge, x: Node, y: Node, w: int)
    ensures Multiplicity(p + [e], x, y, w)
      == Multiplicity(p, x, y, w) + (if e == Edge(x, y, w) then 1 else 0) + (if e == Edge(y, x, w) then 1 else 0)
  {
    assert (p + [e])[..|p|] == p;
  }

  lemma BuildStepAt(g0: Adjacency, p: seq<Edge>, e: Edge, x: Node, y: Node, w: int)
    requires g0.Keys == Endpoints(p)
    requires x in g0 ==> multiset(g0[x])[(y, w)] == Multiplicity(p, x, y, w)
    requires x in Append(Append(g0, e.u, (e.v, e.w)), e.v, (e.u, e.w))
    ensures multiset(Append(Append(g0, e.u, (e.v, e.w)), e.v, (e.u, e.w))[x])[(y, w)]
      == Multiplicity(p + [e], x, y, w)
  {
    var g1 := Append(g0, e.u, (e.v, e.w));
    AppendCount(g0, e.u, (e.v, e.w), x, (y, w));
    AppendCount(g1, e.v, (e.u, e.w), x, (y, w));
    MultiplicitySnoc(p, e, x, y, w);
    if x !in g0 {
      MultiplicityPositive(p, x, y, w);
    }
  }

  /** One more triple updates the counts of exactly the two entries it adds. */
  lemma BuildStep(g0: Adjacency, p: seq<Edge>, e: Edge)
    requires g0.Keys == Endpoints(p)
    requires forall x, y, w :: x in g0 ==> multiset(g0[x])[(y, w)] == Multiplicity(p, x, y, w)
    ensures var g2 := Append(Append(g0, e.u, (e.v, e.w)), e.v, (e.u, e.w));
      forall x, y, w :: x in g2 ==> multiset(g2[x])[(y, w)] == Multiplicity(p + [e], x, y, w)
  {
    var g2 := Append(Append(g0, e.u, (e.v, e.w)), e.v, (e.u, e.w));
    forall x, y, w | x in g2
      ensures multiset(g2[x])[(y, w)] == Multiplicity(p + [e], x, y, w)
    {
      BuildStepAt(g0, p, e, x, y, w);
    }
  }

  /** The dictionary after the first n triples have been entered. */
  function BuildPrefix(es: seq<Edge>, n: nat): (g: Adjacency)
    requires n <= |es|
    ensures g.Keys == Endpoints(es[..n])
    ensures forall x, y, w :: x in g ==> multiset(g[x])[(y, w)] == Multiplicity(es[..n], x, y, w)
  {
    if n == 0 then map[]
    else
      var p := es[..n - 1];
      var e := es[n - 1];
      var g0 := BuildPrefix(es, n - 1);
      BuildStep(g0, p, e);
      assert p + [e] == es[..n];
      EndpointsSnoc(es[..n]);
      assert es[..n][..n - 1] == p;
      Append(Append(g0, e.u, (e.v, e.w)), e.v, (e.u, e.w))
  }

  /** The adjacency dictionary built by prim.py:32-40 and dijkstra.py:30-37:
      every endpoint becomes a key and each triple (u, v, w) appends (v, w)
      to u's list and (u, w) to v's list; nothing is merged. */
  function BuildAdjacency(es: seq<Edge>): (g: Adjacency)
    ensures g.Keys == Endpoints(es)
    ensures forall x, y, w :: x in g ==> multiset(g[x])[(y, w)] == Multiplicity(es, x, y, w)
  {
    assert es[..|es|] == es;
    BuildPrefix(es, |es|)
  }

  /** Adjacency entries are exactly the input edges, seen from either end. */
  lemma AdjacencyEntries(es: seq<Edge>, x: Node, y: Node, w: int)
    ensures x in BuildAdjacency(es) && (y, w) in BuildAdjacency(es)[x] <==> HasEdge(es, x, y, w)
  {
    var g := BuildAdjacency(es);
    MultiplicityPositive(es, x, y, w);
    if HasEdge(es, x, y, w) {
      var i :| 0 <= i < |es| && (es[i] == Edge(x, y, w) || es[i] == Edge(y, x, w));
      assert es[i] in es;
      assert x in Endpoints(es);
    }
  }

  /** The adjacency is symmetric, multiplicities included. */
  lemma AdjacencySymmetric(es: seq<Edge>, x: Node, y: Node, w: int)
    requires x in BuildAdjacency(es) && y in BuildAdjacency(es)
    ensures multiset(BuildAdjacency(es)[x])[(y, w)] == multiset(BuildAdjacency(es)[y])[(x, w)]
  {
    MultiplicitySymmetric(es, x, y, w);
  }

  lemma {:induction false} MultiplicitySymmetric(es: seq<Edge>, x: Node, y: Node, w: int)
    ensures Multiplicity(es, x, y, w) == Multiplicity(es, y, x, w)
    decreases |es|
  {
    if |es| > 0 {
      MultiplicitySymmetric(es[..|es| - 1], x, y, w);
    }
  }

  // ---------------------------------------------------------------------
  // Connectivity

  predicate Links(e: Edge, a: Node, b: Node)
  {
    (e.u == a && e.v == b) || (e.u == b && e.v == a)
  }

  ghost predicate Adjacent(es: seq<Edge>, a: Node, b: Node)
  {
    exists i :: 0 <= i < |es| && Links(es[i], a, b)
  }

  /** A non-empty node sequence whose consecutive nodes are joined by edges. */
  ghost predicate IsWalk(es: seq<Edge>, p: seq<Node>)
  {
    |p| > 0 && forall i {:trigger Adjacent(es, p[i], p[i + 1])} :: 0 <= i < |p| - 1 ==> Adjacent(es, p[i], p[i + 1])
  }

  ghost predicate Connected(es: seq<Edge>, a: Node, b: Node)
  {
    exists p :: IsWalk(es, p) && p[0] == a && p[|p| - 1] == b
  }

  /** Built one edge at a time, every edge joins two nodes that the earlier
      edges did not already connect: the edge sequence has no cycle. */
  ghost predicate IsForest(es: seq<Edge>)
  {
    forall i :: 0 <= i < |es| ==> !Connected(es[..i], es[i].u, es[i].v)
  }

  /** The edges connect every pair of the given nodes. */
  ghost predicate Spans(es: seq<Edge>, nodes: set<Node>)
  {
    forall a, b :: a in nodes && b in nodes ==> Connected(es, a, b)
  }

  ghost predicate ConnectedGraph(es: seq<Edge>)
  {
    Spans(es, Endpoints(es))
  }

  /** No edge leaves or enters the node set s. */
  ghost predicate ClosedUnder(es: seq<Edge>, s: set<Node>)
  {
    forall i :: 0 <= i < |es| ==> (es[i].u in s <==> es[i].v in s)
  }

  lemma ConnectedRefl(es: seq<Edge>, a: Node)
    ensures Connected(es, a, a)
  {
    assert IsWalk(es, [a]);
  }

  lemma ConnectedByEdge(es: seq<Edge>, i: nat)
    requires i < |es|
    ensures Connected(es, es[i].u, es[i].v) && Connected(es, es[i].v, es[i].u)
  {
    assert Links(es[i], es[i].u, es[i].v) && Links(es[i], es[i].v, es[i].u);
    assert IsWalk(es, [es[i].u, es[i].v]);
    assert IsWalk(es, [es[i].v, es[i].u]);
  }

  lemma ConnectedSymmetric(es: seq<Edge>, a: Node, b: Node)
    requires Connected(es, a, b)
    ensures Connected(es, b, a)
  {
    var p :| IsWalk(es, p) && p[0] == a && p[|p| - 1] == b;
    var q := seq(|p|, k requires 0 <= k < |p| => p[|p| - 1 - k]);
    forall k | 0 <= k < |q| - 1
      ensures Adjacent(es, q[k], q[k + 1])
    {
      var j := |p| - 2 - k;
      assert Adjacent(es, p[j], p[j + 1]);
      var i :| 0 <= i < |es| && Links(es[i], p[j], p[j + 1]);
      assert Links(es[i], q[k], q[k + 1]);
    }
    assert IsWalk(es, q);
  }

  lemma ConnectedTransitive(es: seq<Edge>, a: Node, b: Node, c: Node)
    requires Connected(es, a, b) && Connected(es, b, c)
    ensures Connected(es, a, c)
  {
    var p :| IsWalk(es, p) && p[0] == a && p[|p| - 1] == b;
    var q :| IsWalk(es, q) && q[0] == b && q[|q| - 1] == c;
    var r := p + q[1..];
    forall k | 0 <= k < |r| - 1
      ensures Adjacent(es, r[k], r[k + 1])
    {
      if k < |p| - 1 {
        assert r[k] == p[k] && r[k + 1] == p[k + 1];
      } else {
        var j := k - |p| + 1;
        assert r[k] == q[j] && r[k + 1] == q[j + 1];
      }
    }
    assert IsWalk(es, r);
  }

  /** Adding edges never disconnects anything. */
  lemma ConnectedMono(es: seq<Edge>, fs: seq<Edge>, a: Node, b: Node)
    requires forall e :: e in es ==> e in fs
    requires Connected(es, a, b)
    ensures Connected(fs, a, b)
  {
    var p :| IsWalk(es, p) && p[0] == a && p[|p| - 1] == b;
    forall k | 0 <= k < |p| - 1
      ensures Adjacent(fs, p[k], p[k + 1])
    {
      assert Adjacent(es, p[k], p[k + 1]);
      var i :| 0 <= i < |es| && Links(es[i], p[k], p[k + 1]);
      assert es[i] in es;
      var j :| 0 <= j < |fs| && fs[j] == es[i];
    }
    assert IsWalk(fs, p);
  }

  /** A walk that starts inside a node set no edge leaves never leaves it. */
  lemma ConnectedStaysIn(es: seq<Edge>, s: set<Node>, a: Node, b: Node)
    requires ClosedUnder(es, s)
    requires a in s && Connected(es, a, b)
    ensures b in s
  {
    var p :| IsWalk(es, p) && p[0] == a && p[|p| - 1] == b;
    var k := 0;
    while k < |p| - 1
      invariant 0 <= k < |p|
      invariant p[k] in s
    {
      assert Adjacent(es, p[k], p[k + 1]);
      var i :| 0 <= i < |es| && Links(es[i], p[k], p[k + 1]);
      k := k + 1;
    }
  }

  /** The same, as an implication usable without a case split. */
  lemma ConnectedLeaves(es: seq<Edge>, s: set<Node>, a: Node, b: Node)
    requires ClosedUnder(es, s) && a in s
    ensures Connected(es, a, b) ==> b in s
  {
    if Connected(es, a, b) {
      ConnectedStaysIn(es, s, a, b);
    }
  }

  lemma AdjacentConnected(es: seq<Edge>, a: Node, b: Node)
    requires Adjacent(es, a, b)
    ensures Connected(es, a, b)
  {
    assert IsWalk(es, [a, b]);
  }

  /** x reaches z once the edge e is added to es. */
  ghost predicate ReachVia(es: seq<Edge>, e: Edge, x: Node, z: Node)
  {
    || Connected(es, x, z)
    || (Connected(es, x, e.u) && Connected(es, e.v, z))
    || (Connected(es, x, e.v) && Connected(es, e.u, z))
  }

  lemma ReachViaStep(es: seq<Edge>, e: Edge, x: Node, z: Node, z': Node)
    requires ReachVia(es, e, x, z) && Adjacent(es + [e], z, z')
    ensures ReachVia(es, e, x, z')
  {
    var i :| 0 <= i < |es + [e]| && Links((es + [e])[i], z, z');
    if i < |es| {
      assert Links(es[i], z, z');
      AdjacentConnected(es, z, z');
      if Connected(es, x, z) {
        ConnectedTransitive(es, x, z, z');
      } else if Connected(es, x, e.u) && Connected(es, e.v, z) {
        ConnectedTransitive(es, e.v, z, z');
      } else {
        ConnectedTransitive(es, e.u, z, z');
      }
    } else {
      assert Links(e, z, z');
      ConnectedRefl(es, z');
      if z == e.u && z' == e.v {
        if Connected(es, x, e.u) && Connected(es, e.v, z) {
          ConnectedSymmetric(es, e.v, e.u);
          ConnectedTransitive(es, x, e.u, e.v);
        }
      } else if Connected(es, x, e.v) && Connected(es, e.u, z) {
        ConnectedSymmetric(es, e.u, e.v);
        ConnectedTransitive(es, x, e.v, e.u);
      }
    }
  }

  /** Adding the edge e = (u, v) to es connects x and y exactly when es
      already connected them or one of them reaches u and the other v. */
  lemma ConnectedSnoc(es: seq<Edge>, e: Edge, x: Node, y: Node)
    ensures Connected(es + [e], x, y) <==> ReachVia(es, e, x, y)
  {
    if Connected(es + [e], x, y) {
      var p :| IsWalk(es + [e], p) && p[0] == x && p[|p| - 1] == y;
      ConnectedRefl(es, x);
      var k := 0;
      while k < |p| - 1
        invariant 0 <= k < |p|
        invariant ReachVia(es, e, x, p[k])
      {
        ReachViaStep(es, e, x, p[k], p[k + 1]);
        k := k + 1;
      }
    }
    if ReachVia(es, e, x, y) {
      var fs := es + [e];
      assert forall f :: f in es ==> f in fs;
      assert fs[|es|] == e;
      ConnectedByEdge(fs, |es|);
      if Connected(es, x, y) {
        ConnectedMono(es, fs, x, y);
      } else if Connected(es, x, e.u) && Connected(es, e.v, y) {
        ConnectedMono(es, fs, x, e.u);
        ConnectedMono(es, fs, e.v, y);
        ConnectedTransitive(fs, x, e.u, e.v);
        ConnectedTransitive(fs, x, e.v, y);
      } else {
        ConnectedMono(es, fs, x, e.v);
        ConnectedMono(es, fs, e.u, y);
        ConnectedTransitive(fs, x, e.v, e.u);
        ConnectedTransitive(fs, x, e.u, y);
      }
    }
  }

  /** If fs connects the endpoints of every edge of es, it connects
      everything es connects. */
  lemma ConnectedThrough(es: seq<Edge>, fs: seq<Edge>, x: Node, y: Node)
    requires forall i :: 0 <= i < |es| ==> Connected(fs, es[i].u, es[i].v)
    requires Connected(es, x, y)
    ensures Connected(fs, x, y)
  {
    var p :| IsWalk(es, p) && p[0] == x && p[|p| - 1] == y;
    ConnectedRefl(fs, x);
    var k := 0;
    while k < |p| - 1
      invariant 0 <= k < |p|
      invariant Connected(fs, x, p[k])
    {
      assert Adjacent(es, p[k], p[k + 1]);
      var i :| 0 <= i < |es| && Links(es[i], p[k], p[k + 1]);
      if es[i].u == p[k] {
        ConnectedTransitive(fs, x, p[k], p[k + 1]);
      } else {
        ConnectedSymmetric(fs, es[i].u, es[i].v);
        ConnectedTransitive(fs, x, p[k], p[k + 1]);
      }
      k := k + 1;
    }
  }

  /** A subset is no larger than its superset, and equally large only when
      the two coincide. */
  lemma {:induction false} SubsetCard<T>(a: set<T>, b: set<T>)
    requires a <= b
    ensures |a| <= |b|
    ensures |a| == |b| ==> a == b
    decreases |a|
  {
    if a == {} {
      if |b| == 0 {
        assert b == {};
      }
    } else {
      var x :| x in a;
      SubsetCard(a - {x}, b - {x});
      assert |a - {x}| == |a| - 1 && |b - {x}| == |b| - 1;
      if |a| == |b| {
        assert a == (a - {x}) + {x} && b == (b - {x}) + {x};
      }
    }
  }

  // ---------------------------------------------------------------------
  // Routes

  /** t leads from a to b: each step is an input edge taken in one of its
      two orientations, and each step starts where the previous one ends. */
  ghost predicate IsPath(es: seq<Edge>, a: Node, b: Node, t: seq<Edge>)
    decreases |t|
  {
    if |t| == 0 then a == b
    else
      var e := t[|t| - 1];
      && e.v == b
      && HasEdge(es, e.u, e.v, e.w)
      && IsPath(es, a, e.u, t[..|t| - 1])
  }

  ghost predicate NonNegative(es: seq<Edge>)
  {
    forall i :: 0 <= i < |es| ==> es[i].w >= 0
  }

  lemma PathSnoc(es: seq<Edge>, a: Node, b: Node, t: seq<Edge>, c: Node, w: int)
    requires IsPath(es, a, b, t) && HasEdge(es, b, c, w)
    ensures IsPath(es, a, c, t + [Edge(b, c, w)])
    ensures TotalWeight(t + [Edge(b, c, w)]) == TotalWeight(t) + w
  {
    assert (t + [Edge(b, c, w)])[..|t|] == t;
  }

  /** A route joins its two ends. */
  lemma {:induction false} PathConnected(es: seq<Edge>, a: Node, b: Node, t: seq<Edge>)
    requires IsPath(es, a, b, t)
    ensures Connected(es, a, b)
    decreases |t|
  {
    if |t| == 0 {
      ConnectedRefl(es, a);
    } else {
      var e := t[|t| - 1];
      PathConnected(es, a, e.u, t[..|t| - 1]);
      var i :| 0 <= i < |es| && (es[i] == Edge(e.u, e.v, e.w) || es[i] == Edge(e.v, e.u, e.w));
      ConnectedByEdge(es, i);
      ConnectedTransitive(es, a, e.u, e.v);
    }
  }

  /** With no negative weight no route weighs less than nothing. */
  lemma {:induction false} PathWeightNonNegative(es: seq<Edge>, a: Node, b: Node, t: seq<Edge>)
    requires NonNegative(es) && IsPath(es, a, b, t)
    ensures TotalWeight(t) >= 0
    decreases |t|
  {
    if |t| > 0 {
      var e := t[|t| - 1];
      PathWeightNonNegative(es, a, e.u, t[..|t| - 1]);
      var i :| 0 <= i < |es| && (es[i] == Edge(e.u, e.v, e.w) || es[i] == Edge(e.v, e.u, e.w));
    }
  }

  /** A route from inside the node set s to outside it has a first step
      out of s; with no negative weight the route up to and including that
      step weighs no more than the whole route. */
  lemma {:induction false} FirstExit(es: seq<Edge>, s: set<Node>, a: Node, b: Node, t: seq<Edge>) returns (k: nat)
    requires IsPath(es, a, b, t) && a in s && b !in s
    ensures k < |t|
    ensures t[k].u in s && t[k].v !in s
    ensures IsPath(es, a, t[k].u, t[..k]) && HasEdge(es, t[k].u, t[k].v, t[k].w)
    ensures NonNegative(es) ==> TotalWeight(t[..k]) + t[k].w <= TotalWeight(t)
    decreases |t|
  {
    var p := t[..|t| - 1];
    var e := t[|t| - 1];
    if e.u in s {
      k := |t| - 1;
      assert t[..k] == p;
    } else {
      k := FirstExit(es, s, a, e.u, p);
      assert t[..k] == p[..k] && t[k] == p[k];
      if NonNegative(es) {
        var i :| 0 <= i < |es| && (es[i] == Edge(e.u, e.v, e.w) || es[i] == Edge(e.v, e.u, e.w));
        assert TotalWeight(t) == TotalWeight(p) + e.w;
      }
    }
  }

  /** Every neighbour in a dictionary entry is itself a key. */
  ghost predicate NeighborsAreKeys(g: Adjacency)
  {
    forall x, n :: x in g && n in g[x] ==> n.0 in g
  }

  lemma AdjacencyClosed(es: seq<Edge>)
    ensures NeighborsAreKeys(BuildAdjacency(es))
  {
    var g := BuildAdjacency(es);
    forall x, n: Neighbor | x in g && n in g[x] ensures n.0 in g {
      AdjacencyEntries(es, x, n.0, n.1);
      HasEdgeEndpoints(es, x, n.0, n.1);
    }
  }

  lemma HasEdgeEndpoints(es: seq<Edge>, x: Node, y: Node, w: int)
    requires HasEdge(es, x, y, w)
    ensures x in Endpoints(es) && y in Endpoints(es)
  {
    var i :| 0 <= i < |es| && (es[i] == Edge(x, y, w) || es[i] == Edge(y, x, w));
    assert es[i] in es;
  }
}
