# GraphLib core in Dafny

A model of the core of GraphLib, a small Java graph library, with proofs about it. The core covers:

- **Storage.** An adjacency map from each vertex to its neighbour-to-weight map. Vertex and edge counters are cached beside the map (`AbstractGraph`).
- **Edge policies.** Two policies store and count edges differently:
  - `DirectedGraph`: one entry per edge.
  - `UndirectedGraph`: one mirrored pair of entries per edge, or one entry for a self-loop.
- **Capability set.** The operations every graph offers (`Graph`).
- **Traversals.** Breadth-first and depth-first traversal of the whole graph, one component at a time.
- **Components.** The component listing of `ConnectivityInspector`.
- **Shortest paths.** Dijkstra's algorithm, with its read-back of distances and paths.
- **Random graphs.** The random graph generator `GraphRandomizer`.

## Modelling choices

- **Graphs are values.** A graph is the immutable datatype `Graph<V>(kind, adj, vertexCount, edgeCount)`. Each mutating Java method becomes a function from the old graph to the new one. `kind` selects the edge policy; `GraphApi` dispatches on it the way the Java subclasses do.
- **Validity.** `Valid` ties the cached counters to the map:
  - directed: the edge counter equals the number of entries;
  - undirected: the map is symmetric and twice the edge counter equals the entries plus the self-loops.
- **Unspecified orders are parameters.** Java hash sets enumerate vertices and neighbours in an order the library does not fix. The traversals take that order as a parameter (`Order`), and their contracts hold for every order.
- **Ties in Dijkstra.** The priority queue breaks ties among equal distances in an unspecified way, so the model picks any least entry. The queue is a set of entries: a node is pushed again only with a strictly smaller distance, so no duplicates arise.
- **Number types.** Weights are `real`. Infinity is a separate constructor, `Dist.Inf`.
- **Randomness is injected.** The generator receives its random draws as a sequence of index pairs.

## Model

Source paths are relative to the repository root; `impl/`, `algo/`, `api/` and `util/` all live under `GraphLib/src/main/java/com/greefon/graphs/`.

| member | source | states |
|---|---|---|
| AbstractGraph.NewGraph | GraphLib/src/main/java/com/greefon/graphs/impl/AbstractGraph.java:13-17 | a new graph has no vertex and no entry, both counters at zero, and is valid |
| AbstractGraph.AddVertex | GraphLib/src/main/java/com/greefon/graphs/impl/AbstractGraph.java:19-27 | the vertex set gains the vertex; the counter grows only for a new one; an existing neighbour map is kept; entries, weights and validity are unchanged |
| AbstractGraph.ContainsEdge | GraphLib/src/main/java/com/greefon/graphs/impl/AbstractGraph.java:63-66 | true exactly when the entry source -> destination is stored |
| AbstractGraph.Neighbors | GraphLib/src/main/java/com/greefon/graphs/impl/AbstractGraph.java:44-49 | the destinations of the entries leaving the vertex, and the empty set for a vertex that is not present |
| AbstractGraph.NeighborsWithWeights | GraphLib/src/main/java/com/greefon/graphs/impl/AbstractGraph.java:51-56 | keyed by the neighbours, each value being the weight getWeight reports |
| AbstractGraph.GetWeight | GraphLib/src/main/java/com/greefon/graphs/impl/AbstractGraph.java:68-74 | present exactly when the entry is stored, with its stored weight; absent otherwise |
| AbstractGraph.Clear | GraphLib/src/main/java/com/greefon/graphs/impl/AbstractGraph.java:76-81 | no vertex, no entry, both counters zero, same policy, valid |
| AbstractGraph.WithEndpoints | GraphLib/src/main/java/com/greefon/graphs/impl/DirectedGraph.java:6-9 | with createVertices both endpoints become vertices and nothing else changes; without it the graph is untouched |
| DirectedGraph.AddEdge | GraphLib/src/main/java/com/greefon/graphs/impl/DirectedGraph.java:4-16 | the weight of source -> destination becomes the given one and every other weight is kept; the counter grows only for a new entry; validity is kept |
| DirectedGraph.RemoveVertexAsWritten | GraphLib/src/main/java/com/greefon/graphs/impl/DirectedGraph.java:18-34 | removeVertex as written: on a valid graph the counter ends one below the entries left when the vertex had a self-loop, and equal to them otherwise |
| DirectedGraph.LoneLoopRemoval | GraphLib/src/main/java/com/greefon/graphs/impl/DirectedGraph.java:24-30 | removing, as written, the only vertex of a graph whose only edge is its self-loop leaves no entry but an edge counter of -1, so the graph is no longer valid |
| DirectedGraph.SelfLoopCountedTwice | GraphLib/src/main/java/com/greefon/graphs/impl/DirectedGraph.java:18-34 | for any vertex and weight, addEdge of a self-loop on an empty directed graph followed by removeVertex as written gives a valid graph first and then an edge counter of -1 with no entry left |
| DirectedGraph.RemoveVertex | GraphLib/src/main/java/com/greefon/graphs/impl/DirectedGraph.java:18-34 | the vertex and every entry touching it go, the other weights stay, the vertex counter drops by one, and validity is kept (self-loop counted once) |
| DirectedGraph.RemoveEdge | GraphLib/src/main/java/com/greefon/graphs/impl/DirectedGraph.java:36-42 | exactly the entry source -> destination is removed; the counter drops only when it was present; validity is kept |
| DirectedGraph.AddThenRemoveEdge | GraphLib/src/main/java/com/greefon/graphs/impl/DirectedGraph.java:4-42 | adding an absent edge and removing it restores the graph |
| DirectedGraph.AddThenRemoveVertex | GraphLib/src/main/java/com/greefon/graphs/impl/DirectedGraph.java:18-34 | adding a fresh vertex that no entry points at and removing it restores the graph |
| UndirectedGraph.AddEdge | GraphLib/src/main/java/com/greefon/graphs/impl/UndirectedGraph.java:4-17 | both directions get the weight and every other weight is kept; the counter grows only for a new edge; a valid undirected graph stays valid |
| UndirectedGraph.RemoveVertex | GraphLib/src/main/java/com/greefon/graphs/impl/UndirectedGraph.java:19-31 | over a snapshot of the neighbour set, the vertex and every entry touching it go, the counter drops by its degree, and validity is kept |
| UndirectedGraph.RemoveEdge | GraphLib/src/main/java/com/greefon/graphs/impl/UndirectedGraph.java:33-41 | both directions of a present edge are removed and the counter drops by one; an absent edge changes nothing; validity is kept |
| UndirectedGraph.AddThenRemoveEdge | GraphLib/src/main/java/com/greefon/graphs/impl/UndirectedGraph.java:4-41 | adding an absent edge and removing it restores the graph |
| UndirectedGraph.AddThenRemoveVertex | GraphLib/src/main/java/com/greefon/graphs/impl/UndirectedGraph.java:19-31 | adding a fresh vertex and removing it restores the graph |
| GraphApi.AddEdge | GraphLib/src/main/java/com/greefon/graphs/api/Graph.java:20 | the policy's addEdge: weight stored, counter grows only for a new edge, validity kept |
| GraphApi.AddEdgeWeights | GraphLib/src/main/java/com/greefon/graphs/api/Graph.java:20 | addEdge writes the entry and, for undirected graphs, its mirror, and no other entry |
| GraphApi.AddUnitEdge | GraphLib/src/main/java/com/greefon/graphs/api/Graph.java:12-14 | addEdge(source, destination) creates both endpoints and stores the weight 1.0 |
| GraphApi.AddWeightedEdge | GraphLib/src/main/java/com/greefon/graphs/api/Graph.java:16-18 | addEdge(source, destination, weight) creates both endpoints and stores the weight |
| GraphApi.RemoveVertex | GraphLib/src/main/java/com/greefon/graphs/api/Graph.java:22 | removeVertex for either policy: exactly the entries not touching the vertex remain, with their weights; validity kept (directed: a self-loop is counted once, the corrected removal of the finding below, where the code as written ends one below the entries) |
| GraphApi.RemoveEdge | GraphLib/src/main/java/com/greefon/graphs/api/Graph.java:24 | removeEdge for either policy: afterwards the edge is absent; the counter drops only when it was present |
| GraphApi.UndirectedMirrored | GraphLib/src/main/java/com/greefon/graphs/impl/UndirectedGraph.java:4-17 | in a valid undirected graph containsEdge and getWeight answer the same in both directions |
| GraphApi.AddThenRemoveEdge | GraphLib/src/main/java/com/greefon/graphs/api/Graph.java:20-24 | for either policy, adding an absent edge between existing vertices and removing it restores the graph |
| GraphApi.AddThenRemoveVertex | GraphLib/src/main/java/com/greefon/graphs/api/Graph.java:10-22 | for either policy, adding a fresh vertex and removing it restores the graph |
| IterationOrder.Expand | GraphLib/src/main/java/com/greefon/graphs/algo/BreadthFirstSearch.java:30-35 | the neighbour loop hands on exactly the neighbours not yet marked, in enumeration order and without repeats |
| BreadthFirstSearch.BfsComponent | GraphLib/src/main/java/com/greefon/graphs/algo/BreadthFirstSearch.java:20-37 | lists the source first, then exactly the nodes reachable from it without passing a marked node, once each, in non-decreasing distance from the source |
| BreadthFirstSearch.LevelIsLeast | GraphLib/src/main/java/com/greefon/graphs/algo/BreadthFirstSearch.java:26-35 | the level recorded for a node is no larger than the length of any avoiding walk to it |
| BreadthFirstSearch.Execute | GraphLib/src/main/java/com/greefon/graphs/algo/BreadthFirstSearch.java:8-19 | lists every node of the graph exactly once, starting with the first vertex enumerated |
| DepthFirstSearch.DfsComponent | GraphLib/src/main/java/com/greefon/graphs/algo/DepthFirstSearch.java:20-36 | lists the source first, then exactly the nodes reachable from it without passing a marked node, once each, each discovered along an entry from a node listed earlier |
| DepthFirstSearch.Execute | GraphLib/src/main/java/com/greefon/graphs/algo/DepthFirstSearch.java:8-19 | lists every node exactly once, starting with the first vertex enumerated; every node is a component root or discovered from an earlier node |
| Scenarios.ChainListing | GraphLib/src/test/java/com/greefon/graphs/algo/DepthFirstSearchTest.java:39-52 | on the chain A -> B -> C, any distinct listing starting at A with the discovery property is A, B, C |
| Scenarios.LinearPath | GraphLib/src/test/java/com/greefon/graphs/algo/DepthFirstSearchTest.java:39-52 | depth-first execution of the chain, with A enumerated first, yields A, B, C for every neighbour order |
| ConnectivityInspector.FindComponents | GraphLib/src/main/java/com/greefon/graphs/algo/ConnectivityInspector.java:11-27 | the components together list every node once; each starts at a vertex and holds what is reachable from it past earlier components; at most one per vertex; none for an empty graph |
| ConnectivityInspector.ComponentsAreClasses | GraphLib/src/test/java/com/greefon/graphs/algo/ConnectivityInspectorTest.java:38-73 | on an undirected graph, a node shares a component with a node exactly when it is reachable from it |
| Dijkstra.InitializeDistances | GraphLib/src/main/java/com/greefon/graphs/algo/Dijkstra.java:90-97 | every vertex at infinity except the source at 0, and the source's entry is the only one queued |
| Dijkstra.LeastEntry | GraphLib/src/main/java/com/greefon/graphs/algo/Dijkstra.java:57 | a non-empty queue has an entry no larger than any other, the one poll returns |
| Dijkstra.PopLower | GraphLib/src/main/java/com/greefon/graphs/algo/Dijkstra.java:56-63 | with non-negative weights, the least queued distance of an unsettled node is no larger than any walk to it from the source |
| Dijkstra.Round | GraphLib/src/main/java/com/greefon/graphs/algo/Dijkstra.java:56-76 | one iteration of the main loop (stale entries skipped) keeps the loop invariant, never raises a recorded distance, changes no predecessor of a node whose distance stays the same, and either settles a new node or shrinks the queue |
| Dijkstra.Settle | GraphLib/src/main/java/com/greefon/graphs/algo/Dijkstra.java:64-75 | settling a polled node that is not stale and relaxing every entry out of it keeps the loop invariant at its distance, only ever lowers recorded distances, replaces a predecessor only where the distance strictly drops (an equal-length path never does), and leaves one node fewer unsettled |
| Dijkstra.Execute | GraphLib/src/main/java/com/greefon/graphs/algo/Dijkstra.java:40-79 | the invalid-argument error exactly for an absent source; otherwise every vertex gets a distance, infinite exactly when unreachable, finite ones no heavier than any walk, with a predecessor tree rooted at the source |
| Dijkstra.DistanceIsShortest | GraphLib/src/main/java/com/greefon/graphs/algo/Dijkstra.java:20-22 | for a result of execute, getDistanceTo is infinite exactly for unreachable nodes and otherwise no heavier than any walk to the node |
| Dijkstra.PathTo | GraphLib/src/main/java/com/greefon/graphs/algo/Dijkstra.java:24-37 | no path exactly for a node without a finite distance; otherwise the predecessor chain ending at the node, just the node when it has no predecessor |
| Dijkstra.PathIsShortest | GraphLib/src/main/java/com/greefon/graphs/algo/Dijkstra.java:24-37 | for a result of execute, getPathTo gives a walk from the source whose weight is the reported distance |
| GraphRandomizer.AddAllVertices | GraphLib/src/main/java/com/greefon/graphs/util/GraphRandomizer.java:14-16 | adding the listed vertices adds exactly them |
| GraphRandomizer.AddAllKeeps | GraphLib/src/main/java/com/greefon/graphs/util/GraphRandomizer.java:14-16 | adding the listed vertices keeps every entry and its weight, and keeps validity |
| GraphRandomizer.GrowStep | GraphLib/src/main/java/com/greefon/graphs/util/GraphRandomizer.java:33-36 | adding an absent edge between distinct listed vertices keeps validity, keeps every earlier entry and counts one more edge |
| GraphRandomizer.GrownSelfLoops | GraphLib/src/main/java/com/greefon/graphs/util/GraphRandomizer.java:33-34 | the generator never adds a self-loop |
| GraphRandomizer.FreshBound | GraphLib/src/test/java/com/greefon/graphs/util/GraphRandomizerTest.java:93-105 | edges generated from scratch over n vertices number at most n(n-1), or n(n-1)/2 when undirected |
| GraphRandomizer.Randomize | GraphLib/src/main/java/com/greefon/graphs/util/GraphRandomizer.java:11-39 | the invalid-argument error exactly for more than n(n-1) requested edges, the vertices being added first; otherwise only new unit edges between distinct listed vertices are added, the count never passes the request, at most max * 100 attempts are made, and the loop ends with the request met or every attempt spent |
| GraphRandomizer.RandomizeNew | GraphLib/src/main/java/com/greefon/graphs/util/GraphRandomizer.java:40-43 | the vertices are exactly those listed, every edge joins two distinct listed vertices, and the count is within the request and within n(n-1) (n(n-1)/2 undirected) |
| GraphRandomizer.RandomizeExisting | GraphLib/src/main/java/com/greefon/graphs/util/GraphRandomizer.java:45-47 | the vertex set is unchanged, the error exactly for more than n(n-1) requested edges with n the vertex count, only new unit edges are added, the edge count never falls and never passes the larger of its old value and the request, at most max * 100 attempts are made, and the loop ends with the request met or every attempt spent |

## Left out

- Java `int` overflow of the counters and of `max * 100` and `n * (n - 1)` is not modelled: integers are unbounded.
- Floating-point weights are modelled as reals. Rounding, NaN and negative zero are not modelled.
- Dijkstra.Execute requires non-negative weights once the source is present. The Java loop keeps no settled set and re-queues a node on every strict decrease. So a negative cycle reachable from the source keeps it running forever, and in an undirected graph every reachable negative entry is such a cycle. Without one, the code still ends with shortest distances, but the model does not cover that case.
- Dijkstra.Execute requires that every node reachable from the source is a vertex. A dangling entry left by `addEdge(..., false)` in a directed graph makes the Java code unbox a missing distance, a null dereference.
- Null dereferences in `addEdge` with `createVertices` false, and in the undirected removals on dangling entries, are excluded by preconditions (`GraphApi.CanAddEdge`, `CanRemoveVertex`, `CanRemoveEdge`). The source does not handle them. Before `addEdge` throws, it has already changed the graph: both policies have incremented `edgeCount` (DirectedGraph.java:12, UndirectedGraph.java:12). When only the destination is absent, the undirected one has also stored source to destination (UndirectedGraph.java:15). The model does not describe that partly changed state.
- UndirectedGraph.RemoveVertex: the loop runs over a snapshot of the neighbour set. The code iterates a live view of the vertex's own key set (`getNeighbors`), so when the vertex has a self-loop and the loop is not the last neighbour enumerated, removing it from its own map makes the next step throw ConcurrentModificationException, leaving some mirrors removed, the counter partly decremented and the vertex still present. That exception and the part-mutated graph are not modelled.
- GraphApi.RemoveVertex: for the directed policy it uses the corrected removal, which counts a self-loop once. The code as written leaves the counter one below the entries (see ## Findings; DirectedGraph.RemoveVertexAsWritten models it).
- DepthFirstSearch.DfsComponent: the exact stack order of the listing is not pinned down. The contract states which nodes are listed and that each is discovered from an earlier one.
- ConnectivityInspector.FindComponents: not proved equal, once flattened, to the listing of DepthFirstSearch.Execute. Both are proved to list exactly the nodes, component by component.
- Scenarios.ChainListing: the chain is written as a literal graph. It is not derived by running addEdge twice.
- GraphRandomizer.Randomize: the random source is the parameter `draws`, assumed in range and, whenever the request passes the n(n-1) bound check, long enough for every attempt. `java.util.Random` itself and its seed are not modelled.
- GraphRandomizer.Randomize: the exception itself is the flag `thrown`. `randomize` adds the listed vertices before its bound check, so a rejected call leaves them in the graph; the returned graph is that graph, and the model follows the code.
- GraphRandomizer.Randomize: like the code, the bound check uses n(n-1) with n the length of the list, even for undirected graphs. GraphRandomizer.FreshBound shows that at most n(n-1)/2 undirected edges can ever be generated, so on a cleared graph a larger undirected request can never be met and ends only when the attempts run out.
- Dijkstra.PathTo: the predecessor walk is shown to end through a ghost ranking. Java `null` as the loop's end marker is a missing map key.
- The demo program of the test tree and the unit tests' concrete random outcomes are not modelled.
- `getVertexCount`, `getEdgeCount`, `containsVertex` and `getVertices` are field reads (`VertexCount`, `EdgeCount`, `ContainsVertex`, `Vertices`) and have no contract of their own.

## Findings

| source | as written | input that shows it | evidently intended | confidence | as-written member | corrected member |
|---|---|---|---|---|---|---|
| GraphLib/src/main/java/com/greefon/graphs/impl/DirectedGraph.java:24-30 | removeVertex subtracts the out-degree, then once more per vertex, the removed one included, whose map held the vertex, so a self-loop is subtracted twice | directed graph, `addEdge(0, 0, 1.0, true)`, then `removeVertex(0)`: edge counter -1 | each removed edge subtracted once, leaving the counter equal to the number of stored entries | not executed | DirectedGraph.LoneLoopRemoval | DirectedGraph.RemoveVertex |
