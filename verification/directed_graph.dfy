/**
 * The directed edge policy (DirectedGraph.java): every edge is one entry `s -> d` in the
 * neighbour map of its source, and the edge counter counts entries.
 */
module DirectedGraph {
  import opened AbstractGraph

  /**
   * Inserts the edge `s -> d`, or re-weights it when present. With `createVertices` both
   * endpoints are added first; otherwise the source must already be a vertex (its neighbour
   * map is dereferenced) and an absent destination is stored as a dangling entry.
   */
  function AddEdge<V>(g: Graph<V>, s: V, d: V, w: real, createVertices: bool): (r: Graph<V>)
    requires createVertices || s in g.adj
    ensures r.kind == g.kind
    ensures createVertices ==> Vertices(r) == Vertices(g) + {s, d}
    ensures !createVertices ==> Vertices(r) == Vertices(g)
    ensures GetWeight(r, s, d) == Some(w)
    ensures Weights(r) == Weights(g)[(s, d) := w]
    ensures r.edgeCount == g.edgeCount + (if ContainsEdge(g, s, d) then 0 else 1)
    ensures g.kind == Directed && Valid(g) ==> Valid(r)
  {
    var g1 := WithEndpoints(g, s, d, createVertices);
    var r := g1.(adj := g1.adj[s := g1.adj[s][d := w]],
                 edgeCount := g1.edgeCount + (if ContainsEdge(g1, s, d) then 0 else 1));
    PutDirected(g1, s, d, w, r);
    r
  }

  /** Storing one entry and counting it when it is new keeps a valid directed graph valid. */
  lemma PutDirected<V>(g: Graph<V>, s: V, d: V, w: real, r: Graph<V>)
    requires s in g.adj && r.adj == g.adj[s := g.adj[s][d := w]]
    requires r.kind == g.kind && r.vertexCount == g.vertexCount
    requires r.edgeCount == g.edgeCount + (if (s, d) in Entries(g) then 0 else 1)
    ensures r.adj.Keys == g.adj.Keys
    ensures Weights(r) == Weights(g)[(s, d) := w]
    ensures g.kind == Directed && Valid(g) ==> Valid(r)
  {
    PutEntry(g, s, d, w, r);
    PutWeight(g, s, d, w, r);
  }

  /**
   * removeVertex as the source writes it: the out-degree of `v` is subtracted, then the scan
   * over every vertex, `v` included, subtracts once more per entry pointing at `v`. A
   * self-loop `v -> v` is met by both and subtracted twice.
   */
  function RemoveVertexAsWritten<V>(g: Graph<V>, v: V): (r: Graph<V>)
    ensures g.kind == Directed && Valid(g) && v in g.adj ==>
              r.edgeCount == |Entries(r)| - (if v in g.adj[v] then 1 else 0)
  {
    if v !in g.adj then g
    else
      var r := g.(adj := Detach(g, v),
                  edgeCount := g.edgeCount - |g.adj[v]| - |InSources(g, v)|,
                  vertexCount := g.vertexCount - 1);
      DetachCount(g, v, r);
      r
  }

  /**
   * A self-loop `v -> v` of weight `w` added to an empty graph and then removed leaves no
   * entry, yet the as-written counter at -1.
   */
  lemma SelfLoopCountedTwice<V>(v: V, w: real)
    ensures var g := AddEdge(NewGraph<V>(Directed), v, v, w, true);
            var r := RemoveVertexAsWritten(g, v);
            Valid(g) && r.edgeCount == -1 && Entries(r) == {} && !Valid(r)
  {
  }

  /**
   * Removing, as written, the only vertex of a graph whose only edge is its self-loop: the
   * entry goes, but the counter drops from 1 to -1 and the graph is no longer valid.
   */
  lemma LoneLoopRemoval<V>(g: Graph<V>, v: V, w: real)
    requires g.edgeCount == 1 && g.adj == map[v := map[v := w]]
    ensures RemoveVertexAsWritten(g, v).edgeCount == -1
    ensures Entries(RemoveVertexAsWritten(g, v)) == {}
    ensures !Valid(RemoveVertexAsWritten(g, v))
  {
    assert InSources(g, v) == {v};
    assert RemoveVertexAsWritten(g, v).adj == map[];
  }

  /**
   * removeVertex with every entry pointing at `v` counted once: the vertex and all entries
   * touching it go, and the counters drop by one vertex and by the entries deleted.
   */
  function RemoveVertex<V>(g: Graph<V>, v: V): (r: Graph<V>)
    ensures r.kind == g.kind
    ensures v !in g.adj ==> r == g
    ensures Vertices(r) == Vertices(g) - {v}
    ensures v in g.adj ==> Entries(r) == Untouched(g, v)
    ensures forall p | p in Entries(r) :: Weights(r)[p] == Weights(g)[p]
    ensures v in g.adj ==> r.vertexCount == g.vertexCount - 1
    ensures v in g.adj && v !in g.adj[v] ==> r.edgeCount == g.edgeCount - |g.adj[v]| - |InSources(g, v)|
    ensures g.kind == Directed && Valid(g) ==> Valid(r)
  {
    if v !in g.adj then
      g
    else
      var r := g.(adj := Detach(g, v),
                  edgeCount := g.edgeCount - |g.adj[v]| - |InSources(g, v) - {v}|,
                  vertexCount := g.vertexCount - 1);
      DetachCount(g, v, r);
      assert r.adj.Keys == g.adj.Keys - {v};
      r
  }

  /** Deletes the edge `s -> d` when present, keeping both vertices. */
  function RemoveEdge<V>(g: Graph<V>, s: V, d: V): (r: Graph<V>)
    ensures r.kind == g.kind && Vertices(r) == Vertices(g) && r.vertexCount == g.vertexCount
    ensures !ContainsEdge(g, s, d) ==> r == g
    ensures Entries(r) == Entries(g) - {(s, d)}
    ensures Weights(r) == Weights(g) - {(s, d)}
    ensures ContainsEdge(g, s, d) ==> r.edgeCount == g.edgeCount - 1
    ensures g.kind == Directed && Valid(g) ==> Valid(r)
  {
    if ContainsEdge(g, s, d) then
      var r := g.(adj := g.adj[s := g.adj[s] - {d}], edgeCount := g.edgeCount - 1);
      DropEntry(g, s, d, r);
      DropWeight(g, s, d, r);
      r
    else
      g
  }

  /** Inserting an absent edge between existing vertices and deleting it again gives back the graph. */
  lemma AddThenRemoveEdge<V>(g: Graph<V>, s: V, d: V, w: real)
    requires s in g.adj && !ContainsEdge(g, s, d)
    ensures RemoveEdge(AddEdge(g, s, d, w, false), s, d) == g
  {
    var r := AddEdge(g, s, d, w, false);
    assert r.adj == g.adj[s := g.adj[s][d := w]];
    var back := RemoveEdge(r, s, d);
    assert back.adj[s] == g.adj[s];
    assert back.adj == g.adj;
  }

  /**
   * Inserting a fresh vertex nothing points at and removing it again gives back the graph;
   * an entry already dangling towards `v` would be deleted with it.
   */
  lemma AddThenRemoveVertex<V>(g: Graph<V>, v: V)
    requires v !in g.adj && forall u | u in g.adj :: v !in g.adj[u]
    ensures RemoveVertex(AddVertex(g, v), v) == g
  {
    var r := AddVertex(g, v);
    DetachFresh(g, v, r);
  }

  /** Detaching a vertex with no entries, that no entry points at, leaves the maps it was added to. */
  lemma DetachFresh<V>(g: Graph<V>, v: V, r: Graph<V>)
    requires v !in g.adj && forall u | u in g.adj :: v !in g.adj[u]
    requires r.adj == g.adj[v := map[]]
    ensures Detach(r, v) == g.adj && InSources(r, v) == {} && r.adj[v] == map[]
  {
    forall u | u in g.adj ensures Detach(r, v)[u] == g.adj[u] {
      assert r.adj[u] == g.adj[u];
    }
  }
}
