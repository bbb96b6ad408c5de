/**
 * What breadth-first and depth-first traversal share: the sweep over the vertices in
 * enumeration order that starts a new component at every vertex not yet marked, and the
 * facts a finished component hands back to that sweep.
 */
module Traversal {
  import opened AbstractGraph
  import opened Walks
  import opened IterationOrder

  /** Every neighbour of a node already taken off the queue or stack is marked. */
  ghost predicate Expanded<V>(g: Graph<V>, done: seq<V>, seen: set<V>) {
    forall a, b | a in done && a in g.adj && b in g.adj[a] :: b in seen
  }

  /** Expanding `x` marks all its neighbours. */
  lemma StepExpanded<V>(g: Graph<V>, o: Order<V>, comp: seq<V>, seen: set<V>, x: V, comp': seq<V>, seen': set<V>)
    requires OrderOf(g, o) && Expanded(g, comp, seen)
    requires comp' == comp + [x] && seen' == seen + Elems(Succ(o, x))
    ensures Expanded(g, comp', seen')
  {
    forall a, b | a in comp' && a in g.adj && b in g.adj[a] ensures b in seen' {
      if a == x {
        SuccIsEdge(g, o, x, b);
      }
    }
  }

  lemma DistinctConcat<T>(a: seq<T>, b: seq<T>)
    requires Distinct(a) && Distinct(b) && Elems(a) !! Elems(b)
    ensures Distinct(a + b) && Elems(a + b) == Elems(a) + Elems(b)
  {
    var c := a + b;
    forall i, j | 0 <= i < j < |c| ensures c[i] != c[j] {
      if j < |a| {
        assert c[i] == a[i] && c[j] == a[j];
      } else if i >= |a| {
        assert c[i] == b[i - |a|] && c[j] == b[j - |a|];
      } else {
        assert c[i] == a[i] && a[i] in Elems(a);
        assert c[j] == b[j - |a|] && b[j - |a|] in Elems(b);
      }
    }
    assert Elems(c) == Elems(a) + Elems(b);
  }

  /**
   * The state of the sweep of execute and findComponents after the first `i` vertices of
   * the enumeration: the nodes listed so far are distinct, are exactly the marked ones, are
   * closed under entries, and include every vertex swept.
   */
  ghost predicate Swept<V>(g: Graph<V>, o: Order<V>, i: nat, result: seq<V>, visited: set<V>) {
    && i <= |o.vertices|
    && Distinct(result)
    && visited == Elems(result)
    && visited <= Nodes(g)
    && Expanded(g, result, visited)
    && forall j | 0 <= j < i :: o.vertices[j] in visited
  }

  lemma SweepInit<V>(g: Graph<V>, o: Order<V>)
    ensures Swept(g, o, 0, [], {})
  {
  }

  /** A vertex already marked is skipped. */
  lemma SweepSkip<V>(g: Graph<V>, o: Order<V>, i: nat, result: seq<V>, visited: set<V>)
    requires Swept(g, o, i, result, visited) && i < |o.vertices| && o.vertices[i] in visited
    ensures Swept(g, o, i + 1, result, visited)
  {
  }

  /** A vertex not yet marked starts a component, which is appended to the result. */
  lemma SweepStep<V>(g: Graph<V>, o: Order<V>, i: nat, result: seq<V>, visited: set<V>,
                     comp: seq<V>, seen: set<V>, result': seq<V>)
    requires OrderOf(g, o) && Swept(g, o, i, result, visited) && i < |o.vertices|
    requires o.vertices[i] !in visited
    requires |comp| >= 1 && comp[0] == o.vertices[i] && Distinct(comp)
    requires forall k | 1 <= k < |comp| :: comp[k] !in visited
    requires seen == visited + Elems(comp)
    requires Elems(comp) == Reach(g, comp[0], visited + {comp[0]})
    requires forall x, y | x in comp && Edge(g, x, y) :: y in seen
    requires result' == result + comp
    ensures Swept(g, o, i + 1, result', seen)
  {
    var v := comp[0];
    assert v in g.adj;
    forall k | 0 <= k < |comp| ensures comp[k] !in Elems(result) {
    }
    DistinctConcat(result, comp);
    forall t | t in Elems(comp) ensures t in Nodes(g) {
      assert t in Nodes(g) + {v};
    }
    forall a, b | a in result' && a in g.adj && b in g.adj[a] ensures b in seen {
      if a !in result {
        assert a in Elems(comp);
        assert a in comp && Edge(g, a, b);
      }
    }
  }

  /** The nodes listed by the sweep so far are closed under entries. */
  lemma SweptClosed<V>(g: Graph<V>, o: Order<V>, i: nat, result: seq<V>, visited: set<V>)
    requires Swept(g, o, i, result, visited)
    ensures ClosedUnder(g, visited)
  {
    forall a, b | a in visited && a in g.adj && b in g.adj[a] ensures b in visited {
      assert a in result;
    }
  }

  /** Once every vertex is swept, the result lists every node a traversal can meet. */
  lemma SweepFinal<V>(g: Graph<V>, o: Order<V>, result: seq<V>, visited: set<V>)
    requires OrderOf(g, o) && Swept(g, o, |o.vertices|, result, visited)
    ensures Elems(result) == Nodes(g)
  {
    forall t | t in Nodes(g) ensures t in visited {
      if t in g.adj {
        var j :| 0 <= j < |o.vertices| && o.vertices[j] == t;
      } else {
        var u :| u in g.adj && t in g.adj[u];
        var j :| 0 <= j < |o.vertices| && o.vertices[j] == u;
        assert u in result;
      }
    }
  }
}
