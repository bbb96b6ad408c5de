/**
 * Random graph generation (GraphRandomizer.java): the listed vertices are added, the
 * requested edge count is checked against the number of ordered pairs of distinct list
 * positions, and then random pairs are drawn until the graph holds enough edges or the
 * attempt budget of a hundred draws per requested edge runs out.
 *
 * The random source is a parameter: `draws[k]` is the pair of indices the `k`-th attempt
 * obtains from two calls of nextInt with the length of the list as bound.
 */
module GraphRandomizer {
  import opened AbstractGraph
  import opened IterationOrder
  import opened Counting
  import GraphApi

  /** Every draw is a valid index into a list of length `n`, as nextInt(n) guarantees. */
  predicate InRange(draws: seq<(nat, nat)>, n: nat) {
    forall k | 0 <= k < |draws| :: draws[k].0 < n && draws[k].1 < n
  }

  /**
   * The weighted entries `w` grew from `w0` by edges of the generator only: every entry of
   * `w0` is kept with its weight, and every new entry joins two distinct vertices of `vs`
   * with the default weight.
   */
  ghost predicate Grown<V>(w0: map<(V, V), real>, w: map<(V, V), real>, vs: set<V>) {
    && (forall p | p in w0 :: p in w && w[p] == w0[p])
    && (forall p | p in w && p !in w0 :: p.0 != p.1 && p.0 in vs && p.1 in vs && w[p] == 1.0)
  }

  /** Storing a new entry between two distinct vertices of `vs` with the default weight keeps growing. */
  lemma GrownPut<V>(w0: map<(V, V), real>, w: map<(V, V), real>, vs: set<V>, p: (V, V))
    requires Grown(w0, w, vs) && p !in w && p.0 != p.1 && p.0 in vs && p.1 in vs
    ensures Grown(w0, w[p := 1.0], vs)
  {
  }

  /** A graph grown by the generator has exactly the self-loops it started with. */
  lemma GrownSelfLoops<V>(g: Graph<V>, r: Graph<V>, vs: set<V>)
    requires Grown(Weights(g), Weights(r), vs)
    ensures SelfLoops(r) == SelfLoops(g)
  {
    forall u ensures u in SelfLoops(r) <==> u in SelfLoops(g) {
      assert u in SelfLoops(r) <==> (u, u) in Weights(r);
      assert u in SelfLoops(g) <==> (u, u) in Weights(g);
    }
  }

  /**
   * A graph grown from no entry at all has no self-loop, and its entries are ordered pairs
   * of distinct vertices of `vs`: at most n * (n - 1) directed edges over n vertices, half
   * as many undirected ones.
   */
  lemma FreshBound<V>(r: Graph<V>, vs: set<V>)
    requires Valid(r) && Grown(map[], Weights(r), vs)
    ensures SelfLoops(r) == {}
    ensures r.kind == Directed ==> r.edgeCount <= |vs| * (|vs| - 1)
    ensures r.kind == Undirected ==> 2 * r.edgeCount <= |vs| * (|vs| - 1)
  {
    forall p | p in Entries(r) ensures p in DistinctPairs(vs) {
      assert p in Weights(r);
    }
    forall u | u in SelfLoops(r) ensures (u, u) in Weights(r) {
      assert (u, u) in Entries(r);
    }
    DistinctPairsCard(vs);
    SubsetCard(Entries(r), DistinctPairs(vs));
  }

  /** The insertion loop over the list: addVertex for each entry in order. */
  function AddAll<V>(g: Graph<V>, vs: seq<V>): (r: Graph<V>)
    ensures r.kind == g.kind && r.edgeCount == g.edgeCount
  {
    if vs == [] then g else AddVertex(AddAll(g, vs[..|vs| - 1]), vs[|vs| - 1])
  }

  /** Inserting the listed vertices adds exactly them. */
  lemma {:induction false} AddAllVertices<V>(g: Graph<V>, vs: seq<V>)
    ensures Vertices(AddAll(g, vs)) == Vertices(g) + Elems(vs)
  {
    if vs != [] {
      AddAllVertices(g, vs[..|vs| - 1]);
      ElemsLast(vs);
    }
  }

  /** Inserting vertices keeps every entry with its weight, and keeps a valid graph valid. */
  lemma {:induction false} AddAllKeeps<V>(g: Graph<V>, vs: seq<V>)
    ensures Weights(AddAll(g, vs)) == Weights(g)
    ensures Valid(g) ==> Valid(AddAll(g, vs))
  {
    if vs != [] {
      AddAllKeeps(g, vs[..|vs| - 1]);
    }
  }

  /** A valid graph never holds a negative edge count. */
  lemma CountNonNegative<V>(g: Graph<V>)
    requires Valid(g)
    ensures g.edgeCount >= 0
  {
    match g.kind
    case Directed =>
    case Undirected =>
  }

  /**
   * Adding an absent edge between two distinct vertices of `vs` with the default weight
   * keeps the graph valid, a graph grown from `g`, and counts one more edge.
   */
  lemma GrowStep<V>(w0: map<(V, V), real>, cur: Graph<V>, vs: set<V>, s: V, d: V, next: Graph<V>)
    requires Valid(cur) && Grown(w0, Weights(cur), vs)
    requires s != d && s in vs && d in vs && vs <= Vertices(cur) && !ContainsEdge(cur, s, d)
    requires next == GraphApi.AddUnitEdge(cur, s, d)
    ensures Valid(next) && Grown(w0, Weights(next), vs)
    ensures next.kind == cur.kind && Vertices(next) == Vertices(cur)
    ensures next.edgeCount == cur.edgeCount + 1
  {
    GraphApi.AddEdgeWeights(cur, s, d, 1.0, true);
    GrownPut(w0, Weights(cur), vs, (s, d));
    if cur.kind == Undirected {
      GraphApi.UndirectedMirrored(cur, s, d);
      GrownPut(w0, Weights(cur)[(s, d) := 1.0], vs, (d, s));
    }
  }

  /**
   * randomize. `thrown` is the IllegalArgumentException for more requested edges than
   * ordered pairs of distinct list positions; the vertices are added before that check, so
   * `r` holds them either way. Otherwise only new edges between distinct listed vertices
   * are added, the edge count never passes `max` on their account, and the loop ends with
   * `max` edges or with its attempt budget spent.
   */
  method Randomize<V>(g: Graph<V>, vertices: seq<V>, max: int, draws: seq<(nat, nat)>)
    returns (r: Graph<V>, thrown: bool, attempts: nat)
    requires Valid(g)
    requires InRange(draws, |vertices|) && (max <= |vertices| * (|vertices| - 1) ==> |draws| >= max * 100)
    ensures thrown <==> max > |vertices| * (|vertices| - 1)
    ensures r.kind == g.kind && Valid(r)
    ensures Vertices(r) == Vertices(g) + Elems(vertices)
    ensures Grown(Weights(g), Weights(r), Elems(vertices))
    ensures r.edgeCount >= g.edgeCount
    ensures r.edgeCount <= (if g.edgeCount >= max then g.edgeCount else max)
    ensures thrown ==> Weights(r) == Weights(g) && r.edgeCount == g.edgeCount && attempts == 0
    ensures !thrown ==> r.edgeCount >= max || attempts == max * 100
    ensures attempts <= (if max > 0 then max * 100 else 0)
  {
    var vs := Elems(vertices);
    var cur := AddAll(g, vertices);
    AddAllVertices(g, vertices);
    AddAllKeeps(g, vertices);
    CountNonNegative(g);
    attempts := 0;
    if max > |vertices| * (|vertices| - 1) {
      return cur, true, attempts;
    }
    while cur.edgeCount < max && attempts < max * 100
      invariant Valid(cur) && cur.kind == g.kind && Vertices(cur) == Vertices(g) + vs
      invariant Grown(Weights(g), Weights(cur), vs)
      invariant g.edgeCount <= cur.edgeCount <= (if g.edgeCount >= max then g.edgeCount else max)
      invariant attempts <= (if max > 0 then max * 100 else 0)
      decreases max * 100 - attempts
    {
      var source := vertices[draws[attempts].0];
      var destination := vertices[draws[attempts].1];
      if source != destination && !ContainsEdge(cur, source, destination) {
        var next := GraphApi.AddUnitEdge(cur, source, destination);
        GrowStep(Weights(g), cur, vs, source, destination, next);
        cur := next;
      }
      attempts := attempts + 1;
    }
    return cur, false, attempts;
  }

  /** randomizeNew: the graph is cleared, then randomized over the listed vertices. */
  method RandomizeNew<V>(g: Graph<V>, vertices: seq<V>, max: int, draws: seq<(nat, nat)>)
    returns (r: Graph<V>, thrown: bool, attempts: nat)
    requires InRange(draws, |vertices|) && (max <= |vertices| * (|vertices| - 1) ==> |draws| >= max * 100)
    ensures thrown <==> max > |vertices| * (|vertices| - 1)
    ensures r.kind == g.kind && Valid(r)
    ensures Vertices(r) == Elems(vertices)
    ensures forall p | p in Entries(r) :: p.0 != p.1 && p.0 in vertices && p.1 in vertices
    ensures 0 <= r.edgeCount && (max >= 0 ==> r.edgeCount <= max)
    ensures SelfLoops(r) == {}
    ensures r.kind == Directed ==> r.edgeCount <= |Elems(vertices)| * (|Elems(vertices)| - 1)
    ensures r.kind == Undirected ==> 2 * r.edgeCount <= |Elems(vertices)| * (|Elems(vertices)| - 1)
    ensures thrown ==> Entries(r) == {}
  {
    var c := Clear(g);
    assert Weights(c) == map[];
    r, thrown, attempts := Randomize(c, vertices, max, draws);
    CountNonNegative(r);
    FreshBound(r, Elems(vertices));
  }

  /**
   * randomizeExisting: randomized over the graph's own vertices, listed once each in some
   * enumeration order; no vertex is added.
   */
  method RandomizeExisting<V>(g: Graph<V>, vertices: seq<V>, max: int, draws: seq<(nat, nat)>)
    returns (r: Graph<V>, thrown: bool, attempts: nat)
    requires Valid(g) && Distinct(vertices) && Elems(vertices) == Vertices(g)
    requires InRange(draws, |vertices|) && (max <= |vertices| * (|vertices| - 1) ==> |draws| >= max * 100)
    ensures thrown <==> max > |Vertices(g)| * (|Vertices(g)| - 1)
    ensures r.kind == g.kind && Valid(r) && Vertices(r) == Vertices(g)
    ensures Grown(Weights(g), Weights(r), Vertices(g))
    ensures g.edgeCount <= r.edgeCount <= (if g.edgeCount >= max then g.edgeCount else max)
    ensures attempts <= (if max > 0 then max * 100 else 0)
    ensures !thrown ==> r.edgeCount >= max || attempts == max * 100
  {
    DistinctCard(vertices);
    r, thrown, attempts := Randomize(g, vertices, max, draws);
  }
}
