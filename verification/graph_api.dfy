/**
 * The capability set of Graph.java as one entry point: each mutating operation dispatches
 * on the edge policy of the graph, and the two convenience overloads of addEdge fill in
 * their defaults.
 */
module GraphApi {
  import opened AbstractGraph
  import DirectedGraph
  import UndirectedGraph

  /** The precondition under which addEdge of the graph's policy does not dereference an absent map. */
  predicate CanAddEdge<V>(g: Graph<V>, s: V, d: V, createVertices: bool) {
    createVertices || (s in g.adj && (g.kind == Undirected ==> d in g.adj))
  }

  function AddEdge<V>(g: Graph<V>, s: V, d: V, w: real, createVertices: bool): (r: Graph<V>)
    requires CanAddEdge(g, s, d, createVertices)
    ensures r.kind == g.kind
    ensures createVertices ==> Vertices(r) == Vertices(g) + {s, d}
    ensures !createVertices ==> Vertices(r) == Vertices(g)
    ensures GetWeight(r, s, d) == Some(w)
    ensures r.edgeCount == g.edgeCount + (if ContainsEdge(g, s, d) then 0 else 1)
    ensures Valid(g) ==> Valid(r)
  {
    match g.kind
    case Directed => DirectedGraph.AddEdge(g, s, d, w, createVertices)
    case Undirected => UndirectedGraph.AddEdge(g, s, d, w, createVertices)
  }

  /** addEdge writes the entry `s -> d` and, in the undirected policy, its mirror, and no other entry. */
  lemma AddEdgeWeights<V>(g: Graph<V>, s: V, d: V, w: real, createVertices: bool)
    requires CanAddEdge(g, s, d, createVertices)
    ensures g.kind == Directed ==> Weights(AddEdge(g, s, d, w, createVertices)) == Weights(g)[(s, d) := w]
    ensures g.kind == Undirected ==>
              Weights(AddEdge(g, s, d, w, createVertices)) == Weights(g)[(s, d) := w][(d, s) := w]
  {
  }

  /** addEdge(source, destination): weight 1.0, endpoints created. */
  function AddUnitEdge<V>(g: Graph<V>, s: V, d: V): (r: Graph<V>)
    ensures Vertices(r) == Vertices(g) + {s, d}
    ensures GetWeight(r, s, d) == Some(1.0)
    ensures r.edgeCount == g.edgeCount + (if ContainsEdge(g, s, d) then 0 else 1)
    ensures Valid(g) ==> Valid(r)
  {
    AddEdge(g, s, d, 1.0, true)
  }

  /** addEdge(source, destination, weight): endpoints created. */
  function AddWeightedEdge<V>(g: Graph<V>, s: V, d: V, w: real): (r: Graph<V>)
    ensures Vertices(r) == Vertices(g) + {s, d}
    ensures GetWeight(r, s, d) == Some(w)
    ensures r.edgeCount == g.edgeCount + (if ContainsEdge(g, s, d) then 0 else 1)
    ensures Valid(g) ==> Valid(r)
  {
    AddEdge(g, s, d, w, true)
  }

  /** The precondition under which removeVertex of the graph's policy does not dereference an absent map. */
  predicate CanRemoveVertex<V>(g: Graph<V>, v: V) {
    g.kind == Undirected && v in g.adj ==> forall n | n in g.adj[v] :: n in g.adj
  }

  /** removeVertex, the directed policy counting a self-loop once. */
  function RemoveVertex<V>(g: Graph<V>, v: V): (r: Graph<V>)
    requires CanRemoveVertex(g, v)
    ensures r.kind == g.kind
    ensures v !in g.adj ==> r == g
    ensures Vertices(r) == Vertices(g) - {v}
    ensures v in g.adj ==> r.vertexCount == g.vertexCount - 1
    ensures Valid(g) && v in g.adj ==> Entries(r) == Untouched(g, v)
    ensures forall p | p in Entries(r) :: p in Weights(g) && Weights(r)[p] == Weights(g)[p]
    ensures Valid(g) ==> Valid(r)
  {
    match g.kind
    case Directed => DirectedGraph.RemoveVertex(g, v)
    case Undirected => UndirectedGraph.RemoveVertex(g, v)
  }

  /** The precondition under which removeEdge of the graph's policy does not dereference an absent map. */
  predicate CanRemoveEdge<V>(g: Graph<V>, s: V, d: V) {
    g.kind == Undirected && ContainsEdge(g, s, d) ==> d in g.adj
  }

  function RemoveEdge<V>(g: Graph<V>, s: V, d: V): (r: Graph<V>)
    requires CanRemoveEdge(g, s, d)
    ensures r.kind == g.kind && Vertices(r) == Vertices(g) && r.vertexCount == g.vertexCount
    ensures !ContainsEdge(g, s, d) ==> r == g
    ensures !ContainsEdge(r, s, d)
    ensures g.kind == Directed ==> Weights(r) == Weights(g) - {(s, d)}
    ensures g.kind == Undirected && ContainsEdge(g, s, d) ==> Weights(r) == Weights(g) - {(s, d), (d, s)}
    ensures ContainsEdge(g, s, d) ==> r.edgeCount == g.edgeCount - 1
    ensures Valid(g) ==> Valid(r)
  {
    match g.kind
    case Directed => DirectedGraph.RemoveEdge(g, s, d)
    case Undirected => UndirectedGraph.RemoveEdge(g, s, d)
  }

  /** In a valid undirected graph every edge query has the same answer in both directions. */
  lemma UndirectedMirrored<V>(g: Graph<V>, a: V, b: V)
    requires g.kind == Undirected && Valid(g)
    ensures ContainsEdge(g, a, b) == ContainsEdge(g, b, a)
    ensures GetWeight(g, a, b) == GetWeight(g, b, a)
  {
    if ContainsEdge(g, a, b) {
      assert b in g.adj && a in g.adj[b];
    }
    if ContainsEdge(g, b, a) {
      assert a in g.adj && b in g.adj[a];
    }
  }

  /** Adding an absent edge between existing vertices and removing it again gives back the graph. */
  lemma AddThenRemoveEdge<V>(g: Graph<V>, s: V, d: V, w: real)
    requires Valid(g) && s in g.adj && d in g.adj && !ContainsEdge(g, s, d)
    ensures RemoveEdge(AddEdge(g, s, d, w, false), s, d) == g
  {
    match g.kind
    case Directed =>
      DirectedGraph.AddThenRemoveEdge(g, s, d, w);
    case Undirected =>
      UndirectedMirrored(g, s, d);
      UndirectedGraph.AddThenRemoveEdge(g, s, d, w);
  }

  /**
   * Adding a fresh vertex and removing it again gives back the graph, provided, in the
   * directed policy, that no dangling entry already points at it.
   */
  lemma AddThenRemoveVertex<V>(g: Graph<V>, v: V)
    requires v !in g.adj && (g.kind == Directed ==> forall u | u in g.adj :: v !in g.adj[u])
    ensures RemoveVertex(AddVertex(g, v), v) == g
  {
    match g.kind
    case Directed => DirectedGraph.AddThenRemoveVertex(g, v);
    case Undirected => UndirectedGraph.AddThenRemoveVertex(g, v);
  }
}
