/**
 * The order in which one run enumerates hash-based collections: the vertex set returned by
 * getVertices and each neighbour set returned by getNeighbors. The order is not specified by
 * the library; the traversals take it as a parameter and their contracts hold for every order.
 */
module IterationOrder {
  import opened AbstractGraph
  import opened Walks

  datatype Order<V> = Order(vertices: seq<V>, neighbors: map<V, seq<V>>)

  predicate Distinct<T(==)>(s: seq<T>) {
    forall i, j | 0 <= i < j < |s| :: s[i] != s[j]
  }

  /** The elements of a list, as a set. */
  function Elems<T>(s: seq<T>): set<T> {
    set x | x in s
  }

  /** A list without repeats has as many elements as entries. */
  lemma {:induction false} DistinctCard<T>(s: seq<T>)
    requires Distinct(s)
    ensures |Elems(s)| == |s|
  {
    if s != [] {
      var init := s[..|s| - 1];
      assert Distinct(init);
      DistinctCard(init);
      assert s == init + [s[|s| - 1]];
      assert Elems(s) == Elems(init) + {s[|s| - 1]};
      assert s[|s| - 1] !in Elems(init);
    }
  }

  /** The elements of a non-empty list are those of its prefix and its last entry. */
  lemma ElemsLast<T>(s: seq<T>)
    requires s != []
    ensures Elems(s) == Elems(s[..|s| - 1]) + {s[|s| - 1]}
  {
    assert s == s[..|s| - 1] + [s[|s| - 1]];
  }

  /** `o` enumerates each vertex and each neighbour set of `g` exactly once. */
  ghost predicate OrderOf<V>(g: Graph<V>, o: Order<V>) {
    && Distinct(o.vertices)
    && (forall v | v in o.vertices :: v in g.adj)
    && (forall v | v in g.adj :: v in o.vertices)
    && o.neighbors.Keys == g.adj.Keys
    && forall u | u in o.neighbors ::
         && Distinct(o.neighbors[u])
         && (forall v | v in o.neighbors[u] :: v in g.adj[u])
         && (forall v | v in g.adj[u] :: v in o.neighbors[u])
  }

  /** getNeighbors in enumeration order: empty for a node that is not a vertex. */
  function Succ<V>(o: Order<V>, u: V): seq<V> {
    if u in o.neighbors then o.neighbors[u] else []
  }

  lemma SuccIsEdge<V>(g: Graph<V>, o: Order<V>, u: V, v: V)
    requires OrderOf(g, o)
    ensures v in Succ(o, u) <==> Edge(g, u, v)
    ensures Distinct(Succ(o, u))
  {
  }

  /** The entries of `ns` not in `marked`, in order. */
  function Unmarked<V>(ns: seq<V>, marked: set<V>): seq<V> {
    if ns == [] then []
    else Unmarked(ns[..|ns| - 1], marked) + (if ns[|ns| - 1] in marked then [] else [ns[|ns| - 1]])
  }

  lemma {:induction false} UnmarkedElems<V>(ns: seq<V>, marked: set<V>)
    requires Distinct(ns)
    ensures Distinct(Unmarked(ns, marked))
    ensures Elems(Unmarked(ns, marked)) == Elems(ns) - marked
  {
    if ns != [] {
      var init := ns[..|ns| - 1];
      var last := ns[|ns| - 1];
      assert Distinct(init);
      UnmarkedElems(init, marked);
      assert ns == init + [last];
      assert last !in init;
      var u := Unmarked(ns, marked);
      var ui := Unmarked(init, marked);
      if last !in marked {
        assert u == ui + [last];
        forall i, j | 0 <= i < j < |u| ensures u[i] != u[j] {
          if j == |u| - 1 {
            assert u[i] == ui[i] && ui[i] in Elems(ui);
          } else {
            assert u[i] == ui[i] && u[j] == ui[j];
          }
        }
        assert Elems(u) == Elems(ui) + {last};
      } else {
        assert u == ui;
      }
      assert Elems(ns) == Elems(init) + {last};
    }
  }

  /**
   * The neighbour loop shared by both traversals: each neighbour of `x` not yet marked is
   * marked and handed on (to the queue or the stack), in enumeration order.
   */
  method Expand<V>(o: Order<V>, x: V, seen: set<V>) returns (added: seq<V>, seen': set<V>)
    requires Distinct(Succ(o, x))
    ensures added == Unmarked(Succ(o, x), seen)
    ensures Distinct(added) && Elems(added) == Elems(Succ(o, x)) - seen
    ensures seen' == seen + Elems(Succ(o, x))
  {
    var ns := Succ(o, x);
    added := [];
    seen' := seen;
    var k := 0;
    while k < |ns|
      invariant 0 <= k <= |ns|
      invariant added == Unmarked(ns[..k], seen)
      invariant seen' == seen + Elems(ns[..k])
    {
      var y := ns[k];
      assert ns[..k + 1] == ns[..k] + [y];
      assert ns[..k + 1][..k] == ns[..k];
      assert y !in ns[..k];
      if y !in seen' {
        seen' := seen' + {y};
        added := added + [y];
      }
      k := k + 1;
    }
    assert ns[..k] == ns;
    UnmarkedElems(ns, seen);
  }
}
