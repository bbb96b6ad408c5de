/**
 * The adjacency-map storage shared by both edge policies (AbstractGraph.java) and the part of
 * the capability set of Graph.java that does not depend on the policy: vertex insertion, the
 * membership and weight queries, and clearing.
 */
module AbstractGraph {
  import opened Counting

  datatype Option<T> = None | Some(value: T)

  /** The edge policy of a graph: the two concrete implementations of the capability set. */
  datatype Kind = Directed | Undirected

  /**
   * A graph: every vertex maps to its neighbour-to-weight map. The vertex and edge counters
   * are cached beside the map and updated incrementally, never recomputed from it.
   */
  datatype Graph<V> = Graph(kind: Kind, adj: map<V, map<V, real>>, vertexCount: int, edgeCount: int)

  /** Every (source, destination) entry stored in the neighbour maps. */
  function Entries<V>(g: Graph<V>): set<(V, V)> {
    set u, v | u in g.adj && v in g.adj[u] :: (u, v)
  }

  /** The weight of every stored entry, keyed by (source, destination). */
  function Weights<V>(g: Graph<V>): (m: map<(V, V), real>)
    ensures m.Keys == Entries(g)
  {
    map p | p in Entries(g) :: g.adj[p.0][p.1]
  }

  /** The vertices whose neighbour map holds an entry for the vertex itself. */
  function SelfLoops<V>(g: Graph<V>): set<V> {
    set u | u in g.adj && u in g.adj[u]
  }

  /** Every neighbour-map entry is mirrored, with the same weight. */
  ghost predicate Symmetric<V>(g: Graph<V>) {
    forall u, v | u in g.adj && v in g.adj[u] :: v in g.adj && u in g.adj[v] && g.adj[v][u] == g.adj[u][v]
  }

  /** Every neighbour-map entry points at a vertex of the graph. */
  ghost predicate Closed<V>(g: Graph<V>) {
    forall u, v :: u in g.adj && v in g.adj[u] ==> v in g.adj
  }

  /**
   * The cached counters agree with the stored map, each policy counting edges its own way:
   * a directed edge is one entry; an undirected edge is a mirrored pair of entries, or a
   * single entry for a self-loop.
   */
  ghost predicate Valid<V>(g: Graph<V>) {
    && g.vertexCount == |g.adj|
    && match g.kind
       case Directed => g.edgeCount == |Entries(g)|
       case Undirected => Symmetric(g) && 2 * g.edgeCount == |Entries(g)| + |SelfLoops(g)|
  }

  /** The empty graph a constructor produces. */
  function NewGraph<V>(kind: Kind): (g: Graph<V>)
    ensures g.kind == kind
    ensures Vertices(g) == {} && Entries(g) == {}
    ensures g.vertexCount == 0 && g.edgeCount == 0
    ensures Valid(g)
  {
    Graph(kind, map[], 0, 0)
  }

  function Vertices<V>(g: Graph<V>): set<V> {
    g.adj.Keys
  }

  function ContainsVertex<V>(g: Graph<V>, v: V): bool {
    v in g.adj
  }

  function ContainsEdge<V>(g: Graph<V>, s: V, d: V): (b: bool)
    ensures b <==> (s, d) in Entries(g)
  {
    s in g.adj && d in g.adj[s]
  }

  function VertexCount<V>(g: Graph<V>): int {
    g.vertexCount
  }

  function EdgeCount<V>(g: Graph<V>): int {
    g.edgeCount
  }

  /** Insertion of a vertex; idempotent, and an existing neighbour map is never replaced. */
  function AddVertex<V>(g: Graph<V>, v: V): (r: Graph<V>)
    ensures r.kind == g.kind && r.edgeCount == g.edgeCount
    ensures Vertices(r) == Vertices(g) + {v}
    ensures r.vertexCount == g.vertexCount + (if v in g.adj then 0 else 1)
    ensures v in g.adj ==> r == g
    ensures v !in g.adj ==> r.adj[v] == map[]
    ensures SelfLoops(r) == SelfLoops(g)
    ensures Weights(r) == Weights(g)
    ensures Valid(g) ==> Valid(r)
  {
    var count := if ContainsVertex(g, v) then g.vertexCount else g.vertexCount + 1;
    var r := g.(adj := if v in g.adj then g.adj else g.adj[v := map[]], vertexCount := count);
    assert Entries(r) == Entries(g) by {
      forall p | p in Entries(r) ensures p in Entries(g) {
        assert p.0 != v || v in g.adj;
      }
    }
    r
  }

  /** The first step of addEdge in both policies: both endpoints added when `createVertices` holds. */
  function WithEndpoints<V>(g: Graph<V>, s: V, d: V, createVertices: bool): (r: Graph<V>)
    ensures r.kind == g.kind && r.edgeCount == g.edgeCount
    ensures !createVertices ==> r == g
    ensures createVertices ==> Vertices(r) == Vertices(g) + {s, d}
    ensures Weights(r) == Weights(g) && SelfLoops(r) == SelfLoops(g)
    ensures ContainsEdge(r, s, d) == ContainsEdge(g, s, d)
    ensures Valid(g) ==> Valid(r)
  {
    if createVertices then
      var g1 := AddVertex(g, s);
      var r := AddVertex(g1, d);
      assert Vertices(r) == Vertices(g) + {s, d};
      assert ContainsEdge(r, s, d) == ContainsEdge(g, s, d) by {
        assert (s, d) in Entries(r) <==> (s, d) in Entries(g);
      }
      r
    else
      g
  }

  /** The adjacent vertices of `v`: empty when `v` is absent. */
  function Neighbors<V>(g: Graph<V>, v: V): (ns: set<V>)
    ensures forall u | u in ns :: (v, u) in Entries(g)
    ensures forall p | p in Entries(g) && p.0 == v :: p.1 in ns
    ensures v !in g.adj ==> ns == {}
  {
    if v in g.adj then g.adj[v].Keys else {}
  }

  /** The neighbour-to-weight map of `v`: empty when `v` is absent. */
  function NeighborsWithWeights<V>(g: Graph<V>, v: V): (m: map<V, real>)
    ensures m.Keys == Neighbors(g, v)
    ensures forall u :: u in m ==> GetWeight(g, v, u) == Some(m[u])
  {
    if v in g.adj then g.adj[v] else map[]
  }

  /** The weight of the edge `s -> d`, or None (not zero) when there is no such edge. */
  function GetWeight<V>(g: Graph<V>, s: V, d: V): (r: Option<real>)
    ensures r.Some? <==> (s, d) in Entries(g)
    ensures r.Some? ==> r.value == g.adj[s][d]
  {
    if ContainsEdge(g, s, d) then Some(g.adj[s][d]) else None
  }

  /** Back to the empty graph of the same policy. */
  function Clear<V>(g: Graph<V>): (r: Graph<V>)
    ensures r.kind == g.kind
    ensures Vertices(r) == {} && Entries(r) == {}
    ensures r.vertexCount == 0 && r.edgeCount == 0
    ensures Valid(r)
  {
    g.(adj := map[], vertexCount := 0, edgeCount := 0)
  }

  /** Storing an entry (new or overwritten) leaves exactly that entry added to the entry set. */
  lemma PutEntry<V>(g: Graph<V>, s: V, d: V, w: real, r: Graph<V>)
    requires s in g.adj && r.adj == g.adj[s := g.adj[s][d := w]]
    ensures Entries(r) == Entries(g) + {(s, d)}
    ensures SelfLoops(r) == SelfLoops(g) + (if s == d then {s} else {})
  {
    forall p | p in Entries(g) + {(s, d)} ensures p in Entries(r) {
      assert p.0 in r.adj && p.1 in r.adj[p.0];
    }
  }

  /** Storing an entry changes the weight of that entry only. */
  lemma PutWeight<V>(g: Graph<V>, s: V, d: V, w: real, r: Graph<V>)
    requires s in g.adj && r.adj == g.adj[s := g.adj[s][d := w]]
    ensures Weights(r) == Weights(g)[(s, d) := w]
  {
    PutEntry(g, s, d, w, r);
  }

  /** Deleting an entry removes exactly that entry. */
  lemma DropEntry<V>(g: Graph<V>, s: V, d: V, r: Graph<V>)
    requires s in g.adj && r.adj == g.adj[s := g.adj[s] - {d}]
    ensures Entries(r) == Entries(g) - {(s, d)}
    ensures SelfLoops(r) == SelfLoops(g) - (if s == d then {s} else {})
  {
    forall p | p in Entries(g) - {(s, d)} ensures p in Entries(r) {
      assert p.0 in r.adj && p.1 in r.adj[p.0];
    }
  }

  /** Deleting an entry leaves the weights of all other entries. */
  lemma DropWeight<V>(g: Graph<V>, s: V, d: V, r: Graph<V>)
    requires s in g.adj && r.adj == g.adj[s := g.adj[s] - {d}]
    ensures Weights(r) == Weights(g) - {(s, d)}
  {
    DropEntry(g, s, d, r);
  }

  /** The vertices whose neighbour map holds an entry pointing at `v`. */
  function InSources<V>(g: Graph<V>, v: V): set<V> {
    set u | u in g.adj && v in g.adj[u]
  }

  /** The neighbour maps once `v` and every entry pointing at `v` are gone. */
  function Detach<V>(g: Graph<V>, v: V): map<V, map<V, real>> {
    map u | u in g.adj && u != v :: g.adj[u] - {v}
  }

  /** The entries that remain after detaching `v`: those not touching `v`. */
  function Untouched<V>(g: Graph<V>, v: V): set<(V, V)> {
    set p | p in Entries(g) && p.0 != v && p.1 != v
  }

  /**
   * The entries detaching `v` deletes number the out-degree of `v` plus its in-degree,
   * less one when the self-loop `v -> v` is both an outgoing and an incoming entry.
   */
  lemma DetachCount<V>(g: Graph<V>, v: V, r: Graph<V>)
    requires v in g.adj && r.adj == Detach(g, v)
    ensures Entries(r) == Untouched(g, v)
    ensures |Untouched(g, v)| == |Entries(g)| - |g.adj[v]| - |InSources(g, v) - {v}|
  {
    DetachEntries(g, v, r);
    var out := OutPairs(v, g.adj[v].Keys);
    var inc := InPairs(v, InSources(g, v) - {v});
    TouchingEntries(g, v);
    OutPairsCard(v, g.adj[v].Keys);
    InPairsCard(v, InSources(g, v) - {v});
    assert |out + inc| == |out| + |inc|;
  }

  lemma DetachEntries<V>(g: Graph<V>, v: V, r: Graph<V>)
    requires v in g.adj && r.adj == Detach(g, v)
    ensures Entries(r) == Untouched(g, v)
  {
    forall p | p in Untouched(g, v) ensures p in Entries(r) {
      assert p.0 in r.adj && p.1 in r.adj[p.0];
    }
    forall p | p in Entries(r) ensures p in Untouched(g, v) {
      assert p.0 in g.adj && p.1 in g.adj[p.0];
    }
  }

  /** The entries touching `v` are its outgoing entries and, disjointly, the incoming ones from other vertices. */
  lemma TouchingEntries<V>(g: Graph<V>, v: V)
    requires v in g.adj
    ensures OutPairs(v, g.adj[v].Keys) !! InPairs(v, InSources(g, v) - {v})
    ensures OutPairs(v, g.adj[v].Keys) + InPairs(v, InSources(g, v) - {v}) <= Entries(g)
    ensures Untouched(g, v) == Entries(g) - (OutPairs(v, g.adj[v].Keys) + InPairs(v, InSources(g, v) - {v}))
  {
    var out := OutPairs(v, g.adj[v].Keys);
    var inc := InPairs(v, InSources(g, v) - {v});
    forall p | p in out ensures p in Entries(g) && p.0 == v {
      var x :| x in g.adj[v].Keys && p == (v, x);
    }
    forall p | p in inc ensures p in Entries(g) && p.0 != v && p.1 == v {
      var x :| x in InSources(g, v) - {v} && p == (x, v);
    }
    forall p | p in Entries(g) && (p.0 == v || p.1 == v) ensures p in out + inc {
      if p.0 == v {
        assert p == (v, p.1);
      } else {
        assert p.0 in InSources(g, v) - {v};
        assert p == (p.0, v);
      }
    }
  }
}
