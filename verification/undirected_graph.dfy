/**
 * The undirected edge policy (UndirectedGraph.java): an edge between two vertices is a
 * mirrored pair of entries with one weight, a self-loop is a single entry, and each counts
 * as one edge.
 */
module UndirectedGraph {
  import opened AbstractGraph

  /**
   * Inserts the edge `s -- d`, or re-weights it when present, writing both mirrors. Without
   * `createVertices` both endpoints must already be vertices: both neighbour maps are
   * dereferenced.
   */
  function AddEdge<V>(g: Graph<V>, s: V, d: V, w: real, createVertices: bool): (r: Graph<V>)
    requires createVertices || (s in g.adj && d in g.adj)
    ensures r.kind == g.kind
    ensures createVertices ==> Vertices(r) == Vertices(g) + {s, d}
    ensures !createVertices ==> Vertices(r) == Vertices(g)
    ensures GetWeight(r, s, d) == Some(w) && GetWeight(r, d, s) == Some(w)
    ensures Weights(r) == Weights(g)[(s, d) := w][(d, s) := w]
    ensures r.edgeCount == g.edgeCount + (if ContainsEdge(g, s, d) then 0 else 1)
    ensures g.kind == Undirected && Valid(g) ==> Valid(r)
  {
    PutMirrors(WithEndpoints(g, s, d, createVertices), s, d, w)
  }

  /** The second step of addEdge: both mirrors written into the maps of two existing vertices. */
  function PutMirrors<V>(g: Graph<V>, s: V, d: V, w: real): (r: Graph<V>)
    requires s in g.adj && d in g.adj
    ensures r.kind == g.kind && r.adj.Keys == g.adj.Keys && r.vertexCount == g.vertexCount
    ensures GetWeight(r, s, d) == Some(w) && GetWeight(r, d, s) == Some(w)
    ensures Weights(r) == Weights(g)[(s, d) := w][(d, s) := w]
    ensures r.edgeCount == g.edgeCount + (if ContainsEdge(g, s, d) then 0 else 1)
    ensures g.kind == Undirected && Valid(g) ==> Valid(r)
  {
    var g1 := g.(adj := g.adj[s := g.adj[s][d := w]]);
    var r := g1.(adj := g1.adj[d := g1.adj[d][s := w]],
                 edgeCount := g.edgeCount + (if ContainsEdge(g, s, d) then 0 else 1));
    PutWeight(g, s, d, w, g1);
    PutWeight(g1, d, s, w, r);
    MirroredPut(g, s, d, w, r);
    r
  }

  /** Writing both mirrors of an edge keeps a valid undirected graph valid. */
  lemma MirroredPut<V>(g: Graph<V>, s: V, d: V, w: real, r: Graph<V>)
    requires s in g.adj && d in g.adj
    requires r.adj == g.adj[s := g.adj[s][d := w]][d := g.adj[s := g.adj[s][d := w]][d][s := w]]
    requires r.kind == g.kind && r.vertexCount == g.vertexCount
    requires r.edgeCount == g.edgeCount + (if (s, d) in Entries(g) then 0 else 1)
    ensures g.kind == Undirected && Valid(g) ==> Valid(r)
  {
    if g.kind == Undirected && Valid(g) {
      assert (s, d) in Entries(g) <==> (d, s) in Entries(g);
      PutMirrorsCount(g, s, d, w, r);
      PutMirrorsSymmetric(g, s, d, w, r);
    }
  }

  /** Writing a mirrored pair adds nothing when the edge exists, else two entries or one entry and one self-loop. */
  lemma PutMirrorsCount<V>(g: Graph<V>, s: V, d: V, w: real, r: Graph<V>)
    requires s in g.adj && d in g.adj
    requires r.adj == g.adj[s := g.adj[s][d := w]][d := g.adj[s := g.adj[s][d := w]][d][s := w]]
    requires (s, d) in Entries(g) <==> (d, s) in Entries(g)
    ensures |Entries(r)| + |SelfLoops(r)| ==
              |Entries(g)| + |SelfLoops(g)| + (if (s, d) in Entries(g) then 0 else 2)
  {
    PutMirrorEntries(g, s, d, w, r);
    assert s == d ==> ((s, d) in Entries(g) <==> s in SelfLoops(g));
    MirrorCard(Entries(g), SelfLoops(g), s, d);
  }

  /** Writing both mirrors adds exactly the pair of entries and, for a self-loop, its vertex. */
  lemma PutMirrorEntries<V>(g: Graph<V>, s: V, d: V, w: real, r: Graph<V>)
    requires s in g.adj && d in g.adj
    requires r.adj == g.adj[s := g.adj[s][d := w]][d := g.adj[s := g.adj[s][d := w]][d][s := w]]
    ensures Entries(r) == Entries(g) + {(s, d), (d, s)}
    ensures SelfLoops(r) == SelfLoops(g) + (if s == d then {s} else {})
  {
    var g1 := g.(adj := g.adj[s := g.adj[s][d := w]]);
    PutEntry(g, s, d, w, g1);
    PutEntry(g1, d, s, w, r);
  }

  /** Set arithmetic behind the edge counter: adding a mirrored pair and, for a self-loop, its vertex. */
  lemma MirrorCard<V>(es: set<(V, V)>, loops: set<V>, s: V, d: V)
    requires (s, d) in es <==> (d, s) in es
    requires s == d ==> ((s, d) in es <==> s in loops)
    ensures |es + {(s, d), (d, s)}| + |loops + (if s == d then {s} else {})| ==
              |es| + |loops| + (if (s, d) in es then 0 else 2)
  {
    if (s, d) in es {
      assert es + {(s, d), (d, s)} == es;
      assert s == d ==> loops + {s} == loops;
    } else if s == d {
      assert |es + {(s, d), (d, s)}| == |es| + 1;
    } else {
      assert |es + {(s, d), (d, s)}| == |es| + 2;
    }
  }

  /** Writing both mirrors with one weight keeps every entry mirrored with an equal weight. */
  lemma PutMirrorsSymmetric<V>(g: Graph<V>, s: V, d: V, w: real, r: Graph<V>)
    requires Symmetric(g) && s in g.adj && d in g.adj
    requires r.adj == g.adj[s := g.adj[s][d := w]][d := g.adj[s := g.adj[s][d := w]][d][s := w]]
    ensures Symmetric(r)
  {
    var a := r.adj;
    forall u, v | u in a && v in a[u] ensures v in a && u in a[v] && a[v][u] == a[u][v] {
      if (u, v) == (s, d) || (u, v) == (d, s) {
        assert a[u][v] == w && a[v][u] == w;
      } else {
        assert u in g.adj && v in g.adj[u];
        assert a[u][v] == g.adj[u][v];
        assert v in g.adj && u in g.adj[v];
        assert a[v][u] == g.adj[v][u];
      }
    }
  }

  /**
   * Removes `v` together with every edge touching it, visiting a snapshot of its neighbour
   * set and deleting `v` from each neighbour's map; every neighbour must be a vertex, its
   * map being dereferenced. The edge counter drops by the size of the neighbour set, so a
   * self-loop counts once.
   */
  function RemoveVertex<V>(g: Graph<V>, v: V): (r: Graph<V>)
    requires v in g.adj ==> forall n | n in g.adj[v] :: n in g.adj
    ensures r.kind == g.kind
    ensures v !in g.adj ==> r == g
    ensures Vertices(r) == Vertices(g) - {v}
    ensures v in g.adj ==> r.vertexCount == g.vertexCount - 1 && r.edgeCount == g.edgeCount - |g.adj[v]|
    ensures g.kind == Undirected && Valid(g) ==> Valid(r)
    ensures g.kind == Undirected && Valid(g) && v in g.adj ==> Entries(r) == Untouched(g, v)
    ensures forall p | p in Entries(r) :: p in Weights(g) && Weights(r)[p] == Weights(g)[p]
  {
    if v !in g.adj then
      g
    else
      var ns := g.adj[v].Keys;
      var r := g.(adj := map u | u in g.adj && u != v :: if u in ns then g.adj[u] - {v} else g.adj[u],
                  edgeCount := g.edgeCount - |ns|,
                  vertexCount := g.vertexCount - 1);
      SnapshotWeights(g, v, r);
      MirroredDetach(g, v, r);
      r
  }

  /** Deleting `v` from some neighbour maps only removes entries, never re-weights one. */
  lemma SnapshotWeights<V>(g: Graph<V>, v: V, r: Graph<V>)
    requires v in g.adj
    requires r.adj == map u | u in g.adj && u != v :: if u in g.adj[v] then g.adj[u] - {v} else g.adj[u]
    ensures r.adj.Keys == g.adj.Keys - {v}
    ensures forall p | p in Entries(r) :: p in Weights(g) && Weights(r)[p] == Weights(g)[p]
  {
    forall p | p in Entries(r) ensures p in Entries(g) && Weights(r)[p] == Weights(g)[p] {
      assert p.0 in g.adj && p.1 in g.adj[p.0];
    }
  }

  /** In a valid undirected graph, deleting `v` from the maps of its neighbours detaches it completely. */
  lemma MirroredDetach<V>(g: Graph<V>, v: V, r: Graph<V>)
    requires v in g.adj
    requires r == g.(adj := map u | u in g.adj && u != v :: if u in g.adj[v] then g.adj[u] - {v} else g.adj[u],
                     edgeCount := g.edgeCount - |g.adj[v]|,
                     vertexCount := g.vertexCount - 1)
    ensures g.kind == Undirected && Valid(g) ==> Valid(r) && Entries(r) == Untouched(g, v)
  {
    if g.kind == Undirected && Valid(g) {
      SnapshotIsDetach(g, v);
      DetachedValid(g, v, r);
    }
  }

  /** In a symmetric graph the neighbours of `v` are exactly the vertices pointing at it. */
  lemma SnapshotIsDetach<V>(g: Graph<V>, v: V)
    requires Symmetric(g) && v in g.adj
    ensures InSources(g, v) == g.adj[v].Keys
    ensures (map u | u in g.adj && u != v :: if u in g.adj[v] then g.adj[u] - {v} else g.adj[u]) == Detach(g, v)
  {
    var ns := g.adj[v].Keys;
    forall u | u in InSources(g, v) ensures u in ns {
    }
    forall u | u in ns ensures u in InSources(g, v) {
    }
    forall u | u in g.adj && u != v && u !in ns ensures g.adj[u] - {v} == g.adj[u] {
      assert v !in g.adj[u];
    }
  }

  /** Detaching `v` and dropping the counter by its degree keeps a valid undirected graph valid. */
  lemma DetachedValid<V>(g: Graph<V>, v: V, r: Graph<V>)
    requires g.kind == Undirected && Valid(g) && v in g.adj && InSources(g, v) == g.adj[v].Keys
    requires r.adj == Detach(g, v) && r.kind == g.kind
    requires r.edgeCount == g.edgeCount - |g.adj[v]| && r.vertexCount == g.vertexCount - 1
    ensures Valid(r) && Entries(r) == Untouched(g, v)
  {
    assert r.vertexCount == |r.adj| by {
      assert r.adj.Keys == g.adj.Keys - {v};
      assert |r.adj.Keys| == |g.adj.Keys| - 1;
    }
    DetachCount(g, v, r);
    DetachSymmetric(g, v, r);
    DetachedLoops(g, v, r);
  }

  /**
   * Detaching `v` from a symmetric graph deletes its neighbours' entries twice over (once
   * outgoing, once incoming) except the self-loop, which is one entry and one loop vertex.
   */
  lemma DetachedLoops<V>(g: Graph<V>, v: V, r: Graph<V>)
    requires v in g.adj && r.adj == Detach(g, v)
    requires |Entries(r)| == |Entries(g)| - |g.adj[v]| - |InSources(g, v) - {v}|
    requires InSources(g, v) == g.adj[v].Keys
    ensures |Entries(r)| + |SelfLoops(r)| == |Entries(g)| + |SelfLoops(g)| - 2 * |g.adj[v]|
  {
    assert SelfLoops(r) == SelfLoops(g) - {v};
    assert v in SelfLoops(g) <==> v in g.adj[v].Keys;
    RemoveBothCard(g.adj[v].Keys, SelfLoops(g), v);
  }

  /** Removing one element from two sets that agree on it shrinks them by the same amount. */
  lemma RemoveBothCard<V>(a: set<V>, b: set<V>, v: V)
    requires v in a <==> v in b
    ensures |a - {v}| + |b| == |a| + |b - {v}|
  {
    if v in a {
      assert |a - {v}| == |a| - 1 && |b - {v}| == |b| - 1;
    } else {
      assert a - {v} == a && b - {v} == b;
    }
  }

  /** Detaching a vertex keeps every remaining entry mirrored. */
  lemma DetachSymmetric<V>(g: Graph<V>, v: V, r: Graph<V>)
    requires Symmetric(g) && r.adj == Detach(g, v)
    ensures Symmetric(r)
  {
    var a := r.adj;
    forall x, y | x in a && y in a[x] ensures y in a && x in a[y] && a[y][x] == a[x][y] {
      assert x in g.adj && y in g.adj[x] && y != v;
      assert y in g.adj && x in g.adj[y];
    }
  }

  /** Deletes the edge `s -- d` with both mirrors when present; the destination's map is dereferenced. */
  function RemoveEdge<V>(g: Graph<V>, s: V, d: V): (r: Graph<V>)
    requires ContainsEdge(g, s, d) ==> d in g.adj
    ensures r.kind == g.kind && Vertices(r) == Vertices(g) && r.vertexCount == g.vertexCount
    ensures !ContainsEdge(g, s, d) ==> r == g
    ensures ContainsEdge(g, s, d) ==> Weights(r) == Weights(g) - {(s, d), (d, s)}
    ensures ContainsEdge(g, s, d) ==> r.edgeCount == g.edgeCount - 1
    ensures g.kind == Undirected && Valid(g) ==> Valid(r)
  {
    if ContainsEdge(g, s, d) then DropMirrors(g, s, d) else g
  }

  /** The body of removeEdge for a present edge: both mirrors deleted, the counter dropped once. */
  function DropMirrors<V>(g: Graph<V>, s: V, d: V): (r: Graph<V>)
    requires (s, d) in Entries(g) && d in g.adj
    ensures r.kind == g.kind && r.adj.Keys == g.adj.Keys && r.vertexCount == g.vertexCount
    ensures Weights(r) == Weights(g) - {(s, d), (d, s)}
    ensures r.edgeCount == g.edgeCount - 1
    ensures g.kind == Undirected && Valid(g) ==> Valid(r)
  {
    var g1 := g.(adj := g.adj[s := g.adj[s] - {d}]);
    var r := g1.(adj := g1.adj[d := g1.adj[d] - {s}], edgeCount := g.edgeCount - 1);
    DropWeight(g, s, d, g1);
    DropWeight(g1, d, s, r);
    MirroredDrop(g, s, d, r);
    r
  }

  /** Deleting both mirrors of an edge keeps a valid undirected graph valid. */
  lemma MirroredDrop<V>(g: Graph<V>, s: V, d: V, r: Graph<V>)
    requires (s, d) in Entries(g) && d in g.adj
    requires r.adj == g.adj[s := g.adj[s] - {d}][d := g.adj[s := g.adj[s] - {d}][d] - {s}]
    requires r.kind == g.kind && r.vertexCount == g.vertexCount && r.edgeCount == g.edgeCount - 1
    ensures g.kind == Undirected && Valid(g) ==> Valid(r)
  {
    if g.kind == Undirected && Valid(g) {
      assert (d, s) in Entries(g);
      DropMirrorsCount(g, s, d, r);
      DropMirrorsSymmetric(g, s, d, r);
    }
  }

  /** Deleting a mirrored pair removes two entries, or one entry and one self-loop. */
  lemma DropMirrorsCount<V>(g: Graph<V>, s: V, d: V, r: Graph<V>)
    requires (s, d) in Entries(g) && (d, s) in Entries(g)
    requires r.adj == g.adj[s := g.adj[s] - {d}][d := g.adj[s := g.adj[s] - {d}][d] - {s}]
    ensures |Entries(r)| + |SelfLoops(r)| == |Entries(g)| + |SelfLoops(g)| - 2
  {
    var g1 := g.(adj := g.adj[s := g.adj[s] - {d}]);
    DropEntry(g, s, d, g1);
    DropEntry(g1, d, s, r);
    assert s == d ==> s in SelfLoops(g);
    DropCard(Entries(g), SelfLoops(g), s, d);
  }

  /** Set arithmetic behind the edge counter: removing a present mirrored pair and, for a self-loop, its vertex. */
  lemma DropCard<V>(es: set<(V, V)>, loops: set<V>, s: V, d: V)
    requires (s, d) in es && (d, s) in es
    requires s == d ==> s in loops
    ensures |es - {(s, d)} - {(d, s)}| + |loops - (if s == d then {s} else {}) - (if s == d then {s} else {})| ==
              |es| + |loops| - 2
  {
    if s == d {
      assert es - {(s, d)} - {(d, s)} == es - {(s, d)};
    } else {
      assert |es - {(s, d)}| == |es| - 1;
    }
  }

  /** Deleting both mirrors keeps every remaining entry mirrored. */
  lemma DropMirrorsSymmetric<V>(g: Graph<V>, s: V, d: V, r: Graph<V>)
    requires Symmetric(g) && s in g.adj && d in g.adj
    requires r.adj == g.adj[s := g.adj[s] - {d}][d := g.adj[s := g.adj[s] - {d}][d] - {s}]
    ensures Symmetric(r)
  {
    var a := r.adj;
    forall u, v | u in a && v in a[u] ensures v in a && u in a[v] && a[v][u] == a[u][v] {
      assert u in g.adj && v in g.adj[u] && (u, v) != (s, d) && (u, v) != (d, s);
      assert a[u][v] == g.adj[u][v];
      assert v in g.adj && u in g.adj[v];
      assert a[v][u] == g.adj[v][u];
    }
  }

  /** Inserting an absent edge between existing vertices and deleting it again gives back the graph. */
  lemma AddThenRemoveEdge<V>(g: Graph<V>, s: V, d: V, w: real)
    requires s in g.adj && d in g.adj && !ContainsEdge(g, s, d) && !ContainsEdge(g, d, s)
    ensures RemoveEdge(AddEdge(g, s, d, w, false), s, d) == g
  {
    var a1 := g.adj[s := g.adj[s][d := w]];
    var r := AddEdge(g, s, d, w, false);
    assert r.adj == a1[d := a1[d][s := w]];
    UnmirrorRestores(g.adj, s, d, w);
  }

  /** Deleting both freshly written mirrors restores the neighbour maps. */
  lemma UnmirrorRestores<V>(a: map<V, map<V, real>>, s: V, d: V, w: real)
    requires s in a && d in a && d !in a[s] && s !in a[d]
    ensures var a1 := a[s := a[s][d := w]];
            var a2 := a1[d := a1[d][s := w]];
            var b1 := a2[s := a2[s] - {d}];
            b1[d := b1[d] - {s}] == a
  {
    var a1 := a[s := a[s][d := w]];
    var a2 := a1[d := a1[d][s := w]];
    var b1 := a2[s := a2[s] - {d}];
    var b2 := b1[d := b1[d] - {s}];
    assert b2[s] == a[s];
    assert b2[d] == a[d];
  }

  /**
   * Inserting a fresh vertex and removing it again gives back the graph: the removal visits
   * only the (empty) neighbour set of the fresh vertex.
   */
  lemma AddThenRemoveVertex<V>(g: Graph<V>, v: V)
    requires v !in g.adj
    ensures RemoveVertex(AddVertex(g, v), v) == g
  {
    var r := AddVertex(g, v);
    SnapshotFresh(g, v, r);
  }

  /** The removal of a vertex with an empty neighbour set touches no other map. */
  lemma SnapshotFresh<V>(g: Graph<V>, v: V, r: Graph<V>)
    requires v !in g.adj && r.adj == g.adj[v := map[]]
    ensures (map u | u in r.adj && u != v :: if u in r.adj[v] then r.adj[u] - {v} else r.adj[u]) == g.adj
    ensures |r.adj[v]| == 0
  {
    var m := map u | u in r.adj && u != v :: if u in r.adj[v] then r.adj[u] - {v} else r.adj[u];
    forall u | u in g.adj ensures m[u] == g.adj[u] {
      assert r.adj[u] == g.adj[u];
    }
  }
}
