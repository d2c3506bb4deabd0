# Undirected graph queries over an adjacency store

This project models `MeuGrafo`, the undirected-graph class of the
repository, at the level of vertex and edge labels. A graph holds vertex
labels in insertion order and labelled edge records `(name, v1, v2)` in store
order. Loops and parallel edges are allowed. The store guarantees unique
vertex labels and unique edge labels, and every endpoint is a vertex
(`GraphModel.WellFormed`). The queries are:

- non-adjacent vertex pairs (`vertices_nao_adjacentes`);
- loop detection (`ha_laco`);
- the degree of a vertex, with its invalid-vertex error (`grau`);
- parallel-edge detection (`ha_paralelas`);
- the incident edges of a vertex (`arestas_sobre_vertice`);
- the depth-first spanning tree and its edge labels (`dfs`);
- cycle detection by depth-first search with a parent check (`ha_ciclo`);
- the tree test that returns the leaves (`eh_arvore`);
- the breadth-first two-colouring test (`eh_bipartido`).

Each query is judged against an independent reference notion:

- walks and reachability (`Walks.Reachable`);
- forests, defined as "every edge is a bridge": removing any edge separates
  its endpoints (`Walks.IsForest`);
- connectivity (`CycleSearch.Connected`);
- proper two-colourings (`TwoColouring.Bipartite`).

Modules:

- `GraphModel`: labels, edges, graphs, errors, the incidence view.
- `LabelOrder`: lexicographic order on labels, sorting edges by label.
- `Predicates`: degree, loops, parallel edges, non-adjacent pairs, the pair
  encoding.
- `Walks`: walks, reachability, edge removal, forests.
- `Forests`: the traversal record shared by the searches (visit order plus
  the edge that discovered each vertex) and the bridge argument.
- `DepthFirst`: `dfs`.
- `CycleSearch`: `ha_ciclo` and `eh_arvore`.
- `TwoColouring`: `eh_bipartido`.

## Model

| member | source | states |
|---|---|---|
| GraphModel.IncidentEdges | meu_grafo_lista_adj_nao_dir.py:100-104 | the result holds exactly the edges with an endpoint at the vertex, each as often as in the store, in store order, and keeps labels unique |
| LabelOrder.SortByName | meu_grafo_lista_adj_nao_dir.py:133 | the result is ordered by edge label and is a permutation of the input |
| LabelOrder.EdgeKeyJoins | meu_grafo_lista_adj_nao_dir.py:83 | two edges have the same sorted endpoint pair exactly when one joins the endpoints of the other |
| Predicates.NonAdjacentPairs | meu_grafo_lista_adj_nao_dir.py:7-34 | an ordered pair is reported exactly when both are vertices, they differ, and no edge joins them |
| Predicates.NonAdjacentSymmetric | meu_grafo_lista_adj_nao_dir.py:23-24 | the pair (x, z) is reported exactly when (z, x) is, since edges count in both directions |
| Predicates.NonAdjacentComplete | meu_grafo_lista_adj_nao_dir.py:26-32 | a graph in which every two distinct vertices are adjacent has no non-adjacent pair |
| Predicates.NonAdjacentEdgeless | meu_grafo_lista_adj_nao_dir.py:26-32 | without edges, all N(N-1) ordered pairs of distinct vertices are reported |
| Predicates.NonAdjacentIgnoresLoops | meu_grafo_lista_adj_nao_dir.py:20-24 | removing every loop leaves the answer unchanged |
| Predicates.EncodingCollision | meu_grafo_lista_adj_nao_dir.py:23-32 | a well-formed graph with a non-adjacent pair that the string encoding drops |
| Predicates.EncodeInjective | meu_grafo_lista_adj_nao_dir.py:30 | when the first labels have no '-', equal encodings come from equal pairs |
| Predicates.AsWrittenAgrees | meu_grafo_lista_adj_nao_dir.py:15-34 | when no vertex label contains '-', the string answer is exactly the encoding of the non-adjacent pairs |
| Predicates.HasLoop | meu_grafo_lista_adj_nao_dir.py:37-46 | true exactly when some stored edge has equal endpoints; false for an edgeless graph |
| Predicates.Degree | meu_grafo_lista_adj_nao_dir.py:48-67 | an invalid-vertex error exactly for a label that is not a vertex; otherwise the count of edges with one end there plus twice the count of loops there |
| Predicates.IsolatedDegree | meu_grafo_lista_adj_nao_dir.py:58-67 | a vertex that no edge touches has degree 0 |
| Predicates.Handshake | meu_grafo_lista_adj_nao_dir.py:58-67 | the degrees of all vertices sum to twice the number of edges |
| Predicates.IncidentCountIsDegree | meu_grafo_lista_adj_nao_dir.py:217 | without loops, the number of incident edges equals the degree count |
| Predicates.LooplessDegree | meu_grafo_lista_adj_nao_dir.py:215-219 | in a loopless graph, the degree of a vertex is the length of its incident-edge list |
| Predicates.HasParallel | meu_grafo_lista_adj_nao_dir.py:70-89 | true exactly when two store positions hold edges with the same unordered endpoint pair |
| Predicates.ParallelOrderFree | meu_grafo_lista_adj_nao_dir.py:79-89 | the answer does not depend on the order in which edges are stored |
| Predicates.ParallelByMembers | meu_grafo_lista_adj_nao_dir.py:83-87 | true exactly when two different edges of the graph join the same endpoints |
| DepthFirst.Candidates | meu_grafo_lista_adj_nao_dir.py:132-133 | the edges scanned at a vertex are a permutation of its incident edges, ordered by label |
| DepthFirst.VisitSound | meu_grafo_lista_adj_nao_dir.py:129-143 | a visit keeps the tree shape, and afterwards every neighbour of the vertex has been visited |
| DepthFirst.ExploreSound | meu_grafo_lista_adj_nao_dir.py:135-143 | scanning a list of incident edges reaches the far end of each |
| DepthFirst.TreeOfSound | meu_grafo_lista_adj_nao_dir.py:125-145 | the tree built from the root is a spanning tree of the root's component: its vertices are exactly the reachable ones, and each edge is a graph edge that joins a new vertex to an earlier one |
| DepthFirst.TreeNames | meu_grafo_lista_adj_nao_dir.py:147 | the labels of that tree are distinct labels of non-loop graph edges, one fewer than the reachable vertices |
| DepthFirst.Dfs | meu_grafo_lista_adj_nao_dir.py:121-147 | an invalid-vertex error exactly for an unknown root; otherwise distinct non-loop edge labels, one fewer than the vertices reachable from the root |
| DepthFirst.DfsFirstLabel | meu_grafo_lista_adj_nao_dir.py:130-147 | when the root has an edge that is not a loop, the first label reported is the smallest label among such edges |
| DepthFirst.ExploreFirstLink | meu_grafo_lista_adj_nao_dir.py:135-143 | scanning the root's edges from the root alone, the first edge that is not a loop becomes the first tree edge, because loops lead back to the visited root |
| Forests.VisitedAreReachable | meu_grafo_lista_adj_nao_dir.py:140-143 | every vertex a search records is a vertex reachable from the root |
| Forests.ReachableAreRecorded | meu_grafo_lista_adj_nao_dir.py:129-145 | once every recorded vertex has its neighbours recorded, every vertex reachable from the root is recorded |
| Forests.EdgeIsBridge | meu_grafo_lista_adj_nao_dir.py:172-178 | when every edge is a tree edge of the search, removing any one edge separates its endpoints |
| Forests.SpanningForestIsForest | meu_grafo_lista_adj_nao_dir.py:172-178 | when every edge is a tree edge of the search, the graph is a forest |
| Walks.LoopNotForest | meu_grafo_lista_adj_nao_dir.py:162-169 | a graph with a loop is not a forest |
| Walks.ParallelNotForest | meu_grafo_lista_adj_nao_dir.py:164-169 | a graph with two parallel edges is not a forest |
| CycleSearch.BackEdgeCycle | meu_grafo_lista_adj_nao_dir.py:167-169 | an edge from the current vertex to a visited vertex other than its parent, whose label is not on a tree edge leaving the current vertex, lies on a cycle (`Walks.OnCycle`: its endpoints stay connected without it) |
| CycleSearch.VisitSound | meu_grafo_lista_adj_nao_dir.py:156-170 | a reported cycle means the graph is not a forest; a finished visit accounts for every edge at the vertex, as a tree edge or as the way back to the parent |
| CycleSearch.SweepSound | meu_grafo_lista_adj_nao_dir.py:172-178 | the sweep over the vertices reports a cycle exactly when the graph is not a forest |
| CycleSearch.HasCycle | meu_grafo_lista_adj_nao_dir.py:149-178 | true exactly when the graph is not a forest |
| CycleSearch.LoopIsCycle | meu_grafo_lista_adj_nao_dir.py:149-178 | a graph with a loop has a cycle |
| CycleSearch.ParallelIsCycle | meu_grafo_lista_adj_nao_dir.py:149-178 | a graph with parallel edges has a cycle |
| CycleSearch.SameSizeAll | meu_grafo_lista_adj_nao_dir.py:211 | visiting as many distinct vertices as the graph has means visiting all of them |
| CycleSearch.FirstSearchSound | meu_grafo_lista_adj_nao_dir.py:204-212 | a cycle from the first vertex means no forest; otherwise the visited count equals the vertex count exactly when the graph is connected, and then it is a forest |
| CycleSearch.TreeLeaves | meu_grafo_lista_adj_nao_dir.py:215-221 | in a forest, the leaves reported are exactly the vertices of degree 1 |
| CycleSearch.LeavesInOrder | meu_grafo_lista_adj_nao_dir.py:215-221 | the leaf scan lists the leaves in the order of the vertex list, each once |
| CycleSearch.IsTree | meu_grafo_lista_adj_nao_dir.py:180-221 | leaves are returned exactly when the graph is non-empty, a forest and connected; they are exactly its vertices of degree 1, each once, in vertex order |
| TwoColouring.GoodAfterScan | meu_grafo_lista_adj_nao_dir.py:237-246 | after a vertex's incident edges are scanned, all its neighbours carry the opposite colour |
| TwoColouring.Conflict | meu_grafo_lista_adj_nao_dir.py:247-249 | two neighbours given the same colour within one component mean no proper two-colouring exists |
| TwoColouring.ColourNeighbours | meu_grafo_lista_adj_nao_dir.py:236-249 | one dequeue step keeps the colouring forced from the root, or reports a conflict only when the graph is not bipartite |
| TwoColouring.ColourComponent | meu_grafo_lista_adj_nao_dir.py:230-249 | colouring a new component either extends the colouring with every coloured vertex agreeing with its neighbours, or fails only when the graph is not bipartite |
| TwoColouring.ProperFromGood | meu_grafo_lista_adj_nao_dir.py:250 | when every vertex is coloured and agrees with its neighbours, the colouring is proper |
| TwoColouring.IsBipartite | meu_grafo_lista_adj_nao_dir.py:223-250 | true exactly when the graph has a proper two-colouring |
| TwoColouring.LoopNotBipartite | meu_grafo_lista_adj_nao_dir.py:241-249 | a graph with a loop is not bipartite |

## Left out

- The storage classes of the underlying graph library are not part of this model. They appear only as the guarantees in `GraphModel.WellFormed`, which the store is assumed to keep.
- The exception classes are not modelled as exceptions. A raised `VerticeInvalidoError` is the `Err(InvalidVertex(v))` result.
- The error message text of `dfs` is not modelled.
- `eh_completo`: not modelled. Line 114 indexes the edge store by a vertex, which is not a query on the graph's structure.
- The code is not consistent about vertex objects, edge objects and labels. Every operation is modelled on labels, as the docstrings describe them. The inconsistencies are:
  - line 20 iterates the edge store's keys, which are edge labels, and lines 21-22 then read `vertice1`/`vertice2` from them; the other methods read `v1`/`v2` from edge records;
  - lines 56 and 122 read `.rotulo` from the members of `self.vertices`, so those members are vertex objects;
  - lines 16 and 27-30 use the same members as labels when they build the "X-Z" strings;
  - line 44 compares endpoint objects, not their labels;
  - lines 101-103 return edge objects, not the labels the docstring promises;
  - lines 158-159, 189-190 and 237-238 then index the edge store with those objects;
  - lines 173-174 test a member of `self.vertices` against `visitados`, which the search also fills with neighbour labels (line 157 via line 165);
  - line 204 starts the search of `eh_arvore` from a member of `self.vertices`, and line 211 compares the size of that mixed set with the vertex count;
  - lines 216-219 pass a member of `self.vertices` to `arestas_sobre_vertice`, which compares it with endpoint labels;
  - lines 230-231 key `cor` by members of `self.vertices`, while lines 243-246 key it by neighbour labels.
- `arestas_sobre_vertice` returns an empty list for an unknown vertex. Its docstring promises an exception, but the code never raises one.
- Set and dictionary iteration order (lines 43, 59, 79, 101, 173, 204, 216 and 230) is taken to be the store or insertion order.
- Python's recursion-depth limit on the recursive searches is not modelled.
- `ha_ciclo` and `eh_arvore` judge a forest by "every edge is a bridge". The equivalent count form, one edge fewer than vertices per component, is not proved.
- DepthFirst.TreeOfSound: `DepthFirst.SpanningTree` says each new vertex hangs from an earlier one, which a breadth-first tree also satisfies. The depth-first discipline is not stated: that every non-tree edge joins a vertex and one of its ancestors.
- DepthFirst.Dfs: the contract states the set, uniqueness and number of the labels, not their exact order. Of the order, only the first label is proved: `DepthFirst.DfsFirstLabel` says it is the smallest non-loop label at the root. `DepthFirst.TreeOfSound` states the structure of the tree whose store order gives that order.
- Predicates.NonAdjacentPairs: returns ordered pairs of labels rather than the strings "X-Z". The string form is `Predicates.NonAdjacentAsWritten`, and `Predicates.AsWrittenAgrees` relates the two.

## Findings

| source | as written | input that shows it | evidently intended | confidence | as-written member | corrected member |
|---|---|---|---|---|---|---|
| meu_grafo_lista_adj_nao_dir.py:23-32 | `Predicates.NonAdjacentAsWritten` models lines 15-34 as written: pairs are compared as strings "X-Z", and a label that contains '-' can make a non-adjacent pair encode like an edge | vertices "a-b", "c", "a", "b-c" with one edge between "a-b" and "c": the pair "a"/"b-c" encodes as "a-b-c", which matches the edge, so it is dropped | report every ordered pair of distinct non-adjacent vertices | high; not executed | Predicates.EncodingCollision | Predicates.NonAdjacentPairs |
