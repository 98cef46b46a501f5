# Greedy graph and coding algorithms, modelled in Dafny

This project models the algorithmic core of an educational Python library
(`src/kruskal.py`, `src/prim.py`, `src/dijkstra.py`, `src/huffman.py`) and
proves what those routines promise. It has four independent engines and
three shared utilities:

- `Graph` (graph.dfy): the edge triples `(nodo1, nodo2, peso)`, and the
  adjacency dictionary that `prim` and `dijkstra` build from them. It also
  holds the vocabulary the contracts use: walks, connectivity, forests and
  paths.
- `UnionFind` (union_find.dfy): `UnionFind.__init__`, `encontrar` (with
  path compression) and `unir` (union by rank).
- `Kruskal` (kruskal.dfy): `kruskal`, which stable-sorts by weight, keeps
  each edge that `unir` accepts, and stops at V-1 edges.
- `Prim` (prim.dfy): `prim`, covering the adjacency build, the
  default start node, the `(peso, nodo1, nodo2)` candidate heap with
  stale-entry skipping, and the stop at |grafo| visited nodes.
- `Dijkstra` (dijkstra.dfy): `dijkstra`, which keeps `(dist, node)` heap
  entries and relaxes only on strict improvement, plus `reconstruir_ruta`.
- `Huffman` (huffman.dfy):
  - `NodoHuffman`: `__lt__` becomes `Less`, and `es_hoja` becomes the
    `Leaf?` test.
  - `calcular_frecuencias`, `construir_arbol_huffman` and `generar_codigos`.
  - The bit counts `bits_original` and `bits_comprimido`.
- `Heap`, `Order`, `Options`: the sequence view of `heapq`, Python's `str`
  ordering, and `None`-or-value.

## Modelling choices

- **Numbers.** Node labels are strings. Weights and counts are unbounded
  integers, as in Python. `float('inf')` is the `Inf` case of
  `Dist = Fin(int) | Inf`.
- **The Prim and Dijkstra heaps.** A heap is the sequence of its entries.
  `heappop` removes an entry that is least under Python's tuple order:
  - `(peso, nodo1, nodo2)` for Prim;
  - `(dist, node)` for Dijkstra.

  Equal tuples are the same value, so which copy goes does not matter.
- **The Huffman heap.** `NodoHuffman.__lt__` compares frequencies only.
  Which of several equal-frequency trees `heappop` returns depends on the
  heap's layout, so `Huffman.PopMin` may return any least tree. Every
  property is proved for every such choice.
- **Dictionaries.**
  - A frequency dictionary is a sequence of `(char, count)` pairs with
    distinct keys, in insertion order.
  - The adjacency dictionary is a `map` from each node to its list of
    neighbours.
  - `NodeOrder` gives its key order.
- **Errors.**
  - `prim` with an explicit start node that is not a key raises `KeyError`
    at `grafo[nodo_inicial]` (src/prim.py:53). The model returns
    `MissingStart` for this case.
  - `dijkstra` with a missing source returns `({}, {})`.
  - `construir_arbol_huffman` on an empty table returns `None`.
- **`reconstruir_ruta`.** It loops for as long as predecessor links last.
  `Dijkstra.Route` takes a fuel bound and returns `None` if the fuel runs
  out. `Dijkstra.Dijkstra` proves that fuel `|dist|` is enough for the
  maps it produces.
- **Optimality.** The module docstring calls the tree optimal
  (src/huffman.py:4-6). The cost of a tree is the sum of its internal
  frequencies, which equals Σ count × depth over the leaves
  (`Huffman.CostDot`), the bits `bits_comprimido` counts. `Huffman.BuildTree`
  returns, next to the tree, the forests the loop passed through and the
  heap positions it popped. These extra results exist only to state what
  the loop did, and they record that every merge took the two least trees.
  The optimality proof is the exchange argument:
  - put the two least counts at a deepest sibling pair, which costs
    nothing (`Huffman.PlaceLeast`);
  - merge them into one leaf (`Huffman.CollapseLeast`);
  - apply induction along the run (`Huffman.RunOptimal`).
- **Decoding.** The library has no decoder. `Huffman.Walk` and
  `Huffman.DecodeAll` are independent reference definitions. They are used
  to state that the generated codes are prefix-free and that decoding
  recovers the text.

Three behaviours of the code that are easy to misread:

- **`unir` on two joined nodes.** It still calls `encontrar` on both
  nodes, and `encontrar` compresses paths, so `padre` can change even when
  `unir` returns `False`. `UnionFind.Union` promises in that case:
  - `rango` is unchanged;
  - every node keeps its representative;
  - the set of roots is unchanged.
- **Prim's default start.** With no `nodo_inicial`, `prim` takes the first key of
  the adjacency dict. The dict is insertion-ordered, so this is the first
  triple's `nodo1` (`Prim.StartNode`).
- **Huffman ties.** `NodoHuffman.__lt__` compares only `frecuencia`, so among
  trees of equal frequency any may be popped first (`Huffman.PopMin`).

## Model

| member | source | states |
|---|---|---|
| Graph.BuildAdjacency | src/prim.py:33-40 | every endpoint of a triple is a key. Each `(vecino, peso)` appears in a node's list once per input triple joining them with that weight, in each orientation: parallel edges are kept, and a self-loop is listed twice |
| Graph.AdjacencyEntries | src/dijkstra.py:30-37 | `(y, w)` is in x's list exactly when some input triple joins x and y with weight w, in either orientation |
| Graph.AdjacencySymmetric | src/dijkstra.py:36-37 | `(y, w)` occurs in x's list as often as `(x, w)` occurs in y's |
| Graph.NodeOrder | src/prim.py:33-38 | the dictionary's keys in insertion order are distinct and are exactly the endpoints. The first key is the first triple's `nodo1` |
| UnionFind.Init | src/kruskal.py:23-33 | every node is registered, is its own parent and has rank 0. Two nodes share a representative only if they are equal, so each node starts as its own set |
| UnionFind.AboveShrinks | src/kruskal.py:47-48 | rank strictly grows from a non-root to its parent. This measure is why `encontrar`'s recursion ends |
| UnionFind.Root | src/kruskal.py:47-49 | the representative is a registered node that is its own parent. It outranks every other node on its chain |
| UnionFind.Chain | src/kruskal.py:47-48 | the nodes `encontrar` recurses through: x, its representative, and only nodes sharing that representative |
| UnionFind.Find | src/kruskal.py:35-49 | `encontrar` returns the node's representative. Afterwards every node on the parent chain it recursed through has `padre` equal to the representative, and every other node keeps its `padre`. Ranks, the set of roots and every node's representative are unchanged by compression |
| UnionFind.CompressPreservesRoots | src/kruskal.py:48 | pointing a node straight at its root keeps the structure valid and changes no node's representative |
| UnionFind.LinkByRank | src/kruskal.py:70-77 | the lower-rank root goes under the higher-rank one. On equal ranks `raiz2` goes under `raiz1` and only `rango[raiz1]` grows by one. Exactly the two sets merge and the number of sets drops by one |
| UnionFind.Union | src/kruskal.py:51-79 | `unir` returns true exactly when the two representatives differed. Afterwards both nodes share a representative. Only the two sets merge, every other node keeps its representative, and the number of sets drops by one. On false, ranks and roots are unchanged |
| Kruskal.SortByWeight | src/kruskal.py:106 | the sorted list is a permutation of the input and is ordered by weight |
| Kruskal.SortByWeightStable | src/kruskal.py:106 | the sort is stable: for each weight, the edges of that weight keep their input order |
| Kruskal.GreedyForest | src/kruskal.py:116-120 | the selection that keeps every edge joining two different components is acyclic |
| Kruskal.GreedyConnects | src/kruskal.py:116-120 | every scanned edge ends up with its endpoints connected by the selection |
| Kruskal.GreedyRest | src/kruskal.py:122-124 | once every later edge is already connected, scanning the rest adds nothing. This is why the early `break` does not change the result |
| Kruskal.TracksUnion | src/kruskal.py:118-120 | after accepting an edge, two nodes share a union-find representative exactly when the accepted edges connect them |
| Kruskal.KruskalStep | src/kruskal.py:116-124 | one loop pass keeps the invariant: the accepted edges are the greedy selection over the edges scanned so far, and `peso_total` is their sum. Representatives mirror connectivity, and components = nodes − accepted edges |
| Kruskal.Scan | src/kruskal.py:97-124 | the loop, early stop included, returns the greedy selection over the sorted edges. `peso_total` is its weight, and the final union-find mirrors its connectivity |
| Kruskal.KruskalFacts | src/kruskal.py:99-126 | the selection is an acyclic sub-multiset of the input, ordered by weight, with at most V−1 edges. It connects the endpoints of every input edge, and on a connected graph it spans all nodes with exactly V−1 edges |
| Kruskal.Kruskal | src/kruskal.py:82-126 | `kruskal([])` is `([], 0)`. Otherwise the result is the greedy selection over the stable weight order, with all the properties of Kruskal.KruskalFacts and `peso_total` = the sum of its weights |
| Prim.MinIndex | src/prim.py:59 | `heappop` takes a candidate no greater than any other under the `(peso, nodo1, nodo2)` tuple order |
| Prim.Candidates | src/prim.py:53-73 | the pushed candidates are exactly `(peso, x, vecino)` for the entries of x's list whose `vecino` is outside the given set. The first push at lines 53-54 filters nothing and passes the empty set; the push at lines 71-73 passes the visited set |
| Prim.StartNode | src/prim.py:43-44 | with no start given, the start is the first triple's `nodo1`, the first key inserted |
| Prim.InvInit | src/prim.py:46-54 | the start node alone with its candidates satisfies the loop invariant |
| Prim.InvSkip | src/prim.py:59-63 | dropping a popped candidate whose target is visited keeps the invariant |
| Prim.InvAdd | src/prim.py:65-73 | accepting the least candidate to an unvisited node keeps the invariant. The edge leaves the tree for a new node, is an input edge, and is no heavier than any edge crossing the cut. The total grows by its weight, and every edge leaving the visited set stays queued |
| Prim.InvStep | src/prim.py:58-73 | a loop pass keeps the invariant and either shrinks the heap or visits one more node |
| Prim.LightCutSnoc | src/prim.py:59-67 | a least candidate weighs no more than any input edge between the visited set and the rest (the cut property) |
| Prim.ReachedFacts | src/prim.py:46-67 | a tree grown edge by edge from the start reaches every node it touches. It connects each of them to the start, and no tree edge leaves the reached set |
| Prim.PrimFinish | src/prim.py:58-75 | when the loop stops, the accepted edges form a forest spanning the visited nodes. These are exactly the nodes connected to the start, there are at most |grafo|−1 edges, and on a connected graph all nodes are reached with exactly |grafo|−1 edges |
| Prim.Prim | src/prim.py:15-75 | `prim([])` is `([], 0)`, and a missing explicit start raises. Otherwise: each edge is an input edge leaving the tree for a new node, `peso_total` is their sum, and the result is a forest satisfying the cut property. It spans exactly the start's component, and on a connected graph it has |V|−1 edges spanning all nodes |
| Dijkstra.MinEntry | src/dijkstra.py:57 | `heappop` takes an entry no greater than any other under the `(dist, node)` tuple order |
| Dijkstra.RelaxChanges | src/dijkstra.py:66-77 | relaxing x's list changes a node only by strictly lowering it to x's distance plus an edge weight. It sets x as its predecessor, pushes the matching entry and never touches a visited node. Every other node keeps its distance and predecessor, and no entry is dropped |
| Dijkstra.RelaxLowers | src/dijkstra.py:74-75 | relaxation never raises a recorded distance |
| Dijkstra.RelaxBound | src/dijkstra.py:66-75 | after relaxation every unvisited neighbour is at most x's distance plus the edge weight |
| Dijkstra.RelaxHeap | src/dijkstra.py:74-77 | every entry pushed is for an unvisited node and is no smaller than that node's new distance |
| Dijkstra.DInvInit | src/dijkstra.py:44-52 | every node at infinity but the source at 0, with no predecessors, nothing visited and the single entry `(0, source)`, satisfies the loop invariant |
| Dijkstra.DInvStep | src/dijkstra.py:56-77 | a loop pass keeps the invariant and either only drops a stale entry or finalizes one new node. The invariant says: predecessors are visited and joined by an edge of the distance difference; finite distances are route weights; visited distances are optimal with non-negative weights |
| Dijkstra.DijkstraFinish | src/dijkstra.py:56-79 | when the heap is empty, the visited nodes are exactly the nodes connected to the source, and they are exactly the nodes with a finite distance |
| Dijkstra.Dijkstra | src/dijkstra.py:15-79 | a missing source gives `({}, {})`. Otherwise every node has a distance, and the source is at 0 with no predecessor. A distance is finite iff the node is connected to the source. A non-source node has a predecessor iff its distance is finite, and that predecessor is joined by an edge weighing the difference. Every finite distance is some route's weight, and with non-negative weights no route is shorter. Route reconstruction over the result always terminates |
| Dijkstra.Route | src/dijkstra.py:82-110 | a non-empty route starts at the origin, ends at the destination and follows predecessor links. destino == origen gives `[origen]`, and a destination with no predecessor gives `[]` |
| Dijkstra.RouteTerminates | src/dijkstra.py:102-106 | when predecessor links strictly descend a ranking, following them ends within the ranking's bound |
| Dijkstra.RouteAlongPred | src/dijkstra.py:96-110 | over a sound predecessor map, the route is non-empty iff the destination's distance is finite. Its consecutive nodes are then joined by input edges that form a path of exactly that weight |
| Dijkstra.RouteOnShortest | src/dijkstra.py:96-110 | on `dijkstra`'s result, the reconstructed route is non-empty iff the destination is reachable. Its consecutive nodes are then joined by input edges whose total weight is the recorded distance, the shortest one when no weight is negative |
| Huffman.TallyCounts | src/huffman.py:64 | counting the first n characters gives each character exactly its number of occurrences |
| Huffman.FrequenciesCount | src/huffman.py:52-64 | `calcular_frecuencias` has an entry exactly for the characters of the text. Each entry holds the character's occurrence count, and the counts sum to the text's length |
| Huffman.InitialForest | src/huffman.py:84 | one leaf per table entry, with the entry's character and count |
| Huffman.LeastIndex | src/huffman.py:43-45 | some tree of the heap has no tree `__lt__` it |
| Huffman.PopMin | src/huffman.py:89-91 | `heappop` returns a tree of the heap with no tree of smaller frequency left in it, together with its position. The rest is the heap minus that tree, and the leaves are conserved |
| Huffman.MergePass | src/huffman.py:89-95 | one pass pops a least tree, then a least tree of the rest, and pushes their parent (a `MergeStep`). The heap shrinks by one, every tree stays well-formed, and the leaves are kept |
| Huffman.MergeLeaves | src/huffman.py:89-95 | merging the two popped trees under a new parent keeps the multiset of leaves in the heap |
| Huffman.RootFreq | src/huffman.py:94 | in a tree whose internal nodes carry their children's sum, the root's frequency is the sum of the leaf counts |
| Huffman.InternalsCount | src/huffman.py:89-95 | a tree of n leaves has n−1 internal nodes, so n−1 merges happen |
| Huffman.BuildTree | src/huffman.py:67-97 | an empty table gives None. Otherwise every internal node's frequency is its children's sum. The leaves are exactly the table's entries, each once with its count. The root's frequency is the total count, and there are n−1 internal nodes. The run it returns starts at one leaf per entry, merges the two least trees at every pass, and ends at the result. No well-formed tree with the same leaves has a smaller sum of internal frequencies |
| Huffman.CostDot | src/huffman.py:336 | the sum of a tree's internal frequencies equals Σ leaf count × leaf depth, the number of bits its path codes spend |
| Huffman.SwapDeeper | src/huffman.py:89-91 | exchanging a smaller count into a leaf at least as deep never raises Σ count × depth, and keeps the multiset of counts |
| Huffman.PlaceLeast | src/huffman.py:89-91 | the two least counts can be moved to a deepest sibling pair without raising Σ count × depth |
| Huffman.CollapseLeast | src/huffman.py:92-95 | merging the sibling leaves of counts x and y into one leaf of count x + y leaves the other counts, adds x + y, and lowers the cost by exactly x + y |
| Huffman.Exchange | src/huffman.py:89-95 | any well-formed tree over counts whose two least are x ≤ y gives a tree over the other counts plus x + y that is cheaper by at least x + y |
| Huffman.StepFacts | src/huffman.py:89-95 | one merge takes the two least root counts a ≤ b out of the forest, puts a + b in, and raises the forest's summed cost by a + b |
| Huffman.RunStep | src/huffman.py:89-95 | after one merge, forest cost plus the cost of the best competing tree over the root counts does not grow |
| Huffman.RunOptimal | src/huffman.py:4-6 | the tree a run of the merge loop ends with costs no more than any well-formed tree with the same leaves |
| Huffman.SymbolsAreKeys | src/huffman.py:121-124 | the characters with a leaf are the keys of the leaf table |
| Huffman.PathTo | src/huffman.py:126-130 | a character's root-to-leaf path is over '0'/'1' and is empty exactly for a leaf root |
| Huffman.CodesFromPaths | src/huffman.py:121-130 | the recursive traversal gives each leaf character its accumulated path (or "0" when that path is empty) and leaves other entries alone |
| Huffman.GenerateCodes | src/huffman.py:100-132 | `None` gives no codes. Otherwise the code table's keys are exactly the leaf characters, and a single-leaf tree gives its character the code "0" |
| Huffman.CodesArePaths | src/huffman.py:121-130 | in a tree of two or more distinct leaves, each code is the character's non-empty 0/1 root-to-leaf path |
| Huffman.PrefixFree | src/huffman.py:126-130 | no character's path is a prefix of another character's path |
| Huffman.WalkPath | src/huffman.py:126-130 | reading a code bit by bit from the root ends at its own character and leaves the following bits unread |
| Huffman.WalkOnlyPath | src/huffman.py:126-130 | whatever character a walk reaches, the bits read are that character's code |
| Huffman.DecodeEncode | src/huffman.py:121-130 | concatenating the codes of a text and decoding the result gives back the text |
| Huffman.WeightedPerm | src/huffman.py:336 | the weighted sum over a table does not depend on the order the dictionary lists its entries |
| Huffman.TallyEncode | src/huffman.py:336 | Σ code length × count over the counted characters equals the length of the encoded text |
| Huffman.PathBits | src/huffman.py:336 | with codes of path length, Σ code length × count over the leaves is the sum of the internal nodes' frequencies |
| Huffman.NodeRun | src/huffman.py:100-132 | with two or more distinct characters, every code is the path to its leaf, decoding the encoded text gives the text back, and Σ code length × count is the tree's sum of internal frequencies |
| Huffman.Compress | src/huffman.py:311-336 | original bits = 8 × length, and there is a tree iff the text is non-empty. Codes exist exactly for the text's characters. Compressed bits = the encoded text's length. A single-character text gets code "0" and |text| bits. Otherwise codes are the tree paths, decoding the encoding recovers the text, and the compressed bits are the sum of the internal frequencies, which no well-formed tree over the same counts beats |

## Left out

- Reading CSV and text files, printing, plotting and the interactive menu
  are I/O, with no algorithmic content. This covers `graph_utils.py`,
  `main.py`, the `ejecutar_*` drivers, `visualizar_*`, and the `print` at
  src/dijkstra.py:41. The text that `ejecutar_huffman` reads becomes the
  parameter of `Huffman.Compress`.
- `tasa_compresion` (src/huffman.py:337) is floating point. It also divides
  by zero for an empty text. Only the two integer bit counts are modelled.
- `representacion_textual_arbol` is display formatting that depends on
  Python's `repr`.
- `heapq`'s internal array layout: only what `heappush` and `heappop`
  guarantee is modelled. The layout decides which equal-frequency Huffman
  tree pops first, and the model allows any.
- Prim.Prim: does not prove minimum total weight, as the docstring claims.
  It proves the cut property each accepted edge satisfies (`LightCut`),
  spanning and acyclicity. Neither does it prove that Prim and Kruskal give
  equal weights.
- Kruskal.Kruskal: does not prove minimum total weight. It proves that the
  result is exactly the greedy selection over the stable weight order, an
  acyclic spanning forest of at most V−1 edges.
- Dijkstra.Route: takes a fuel bound in place of the unbounded `while`
  loop. With a cyclic predecessor map the source loops forever, and the
  model returns `None`. `Dijkstra.Dijkstra` proves that fuel |dist| is
  enough for the maps `dijkstra` returns.
- Dijkstra.Dijkstra: states optimality of the distances only for
  non-negative weights. The code does not check weights, and with negative
  weights a finalized distance can be beaten later.
- Huffman.DecodeAll: is defined for trees of two or more leaves. The "0"
  code of a single-leaf tree is not a path in the tree. The library has no
  decoder, so nothing is lost.
- The order in which `list(nodos)` hands out the nodes to `UnionFind`
  (src/kruskal.py:109) comes from a Python `set`. It cannot matter, because
  both union-find dictionaries are keyed by node.
