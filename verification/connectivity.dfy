/**
 * Component listing (ConnectivityInspector.java): the vertices are swept in enumeration
 * order and every vertex not yet marked starts a depth-first component of its own.
 */
module ConnectivityInspector {
  import opened AbstractGraph
  import opened Walks
  import opened IterationOrder
  import opened Traversal
  import DepthFirstSearch

  /** The components one after another, as one list. */
  function Flatten<V>(css: seq<seq<V>>): seq<V> {
    if css == [] then [] else Flatten(css[..|css| - 1]) + css[|css| - 1]
  }

  /**
   * Each component starts at a vertex, and holds exactly the nodes reached from it without
   * stepping onto a node of an earlier component; the earlier components together are closed
   * under entries.
   */
  ghost predicate Layered<V>(g: Graph<V>, comps: seq<seq<V>>) {
    forall c | 0 <= c < |comps| ::
      && comps[c] != [] && comps[c][0] in g.adj
      && Elems(comps[c]) == Reach(g, comps[c][0], Elems(Flatten(comps[..c])) + {comps[c][0]})
      && ClosedUnder(g, Elems(Flatten(comps[..c])))
      && comps[c][0] !in Elems(Flatten(comps[..c]))
  }

  lemma FlattenAppend<V>(comps: seq<seq<V>>, comp: seq<V>)
    ensures Flatten(comps + [comp]) == Flatten(comps) + comp
    ensures (comps + [comp])[..|comps|] == comps
  {
    assert (comps + [comp])[..|comps|] == comps;
  }

  /** Appending a component found from a vertex not yet marked keeps the layering. */
  lemma LayeredStep<V>(g: Graph<V>, comps: seq<seq<V>>, comp: seq<V>, comps': seq<seq<V>>)
    requires Layered(g, comps)
    requires comp != [] && comp[0] in g.adj && comp[0] !in Elems(Flatten(comps))
    requires Elems(comp) == Reach(g, comp[0], Elems(Flatten(comps)) + {comp[0]})
    requires ClosedUnder(g, Elems(Flatten(comps)))
    requires comps' == comps + [comp]
    ensures Layered(g, comps')
  {
    FlattenAppend(comps, comp);
    forall c | 0 <= c < |comps'|
      ensures comps'[c] != [] && comps'[c][0] in g.adj
      ensures Elems(comps'[c]) == Reach(g, comps'[c][0], Elems(Flatten(comps'[..c])) + {comps'[c][0]})
      ensures ClosedUnder(g, Elems(Flatten(comps'[..c])))
      ensures comps'[c][0] !in Elems(Flatten(comps'[..c]))
    {
      if c < |comps| {
        assert comps'[..c] == comps[..c] && comps'[c] == comps[c];
      } else {
        assert comps'[..c] == comps && comps'[c] == comp;
      }
    }
  }

  /**
   * findComponents: the list of components, in the order their first vertices are
   * enumerated. Together they list every node once; each is what a depth-first traversal
   * from its first vertex reaches past the components before it.
   */
  method FindComponents<V>(g: Graph<V>, o: Order<V>) returns (comps: seq<seq<V>>)
    requires OrderOf(g, o)
    ensures Distinct(Flatten(comps)) && Elems(Flatten(comps)) == Nodes(g)
    ensures Layered(g, comps)
    ensures |comps| <= |o.vertices| && (g.adj == map[] ==> comps == [])
  {
    comps := [];
    var visited: set<V> := {};
    SweepInit(g, o);
    for i := 0 to |o.vertices|
      invariant Swept(g, o, i, Flatten(comps), visited)
      invariant Layered(g, comps)
      invariant |comps| <= i
    {
      var v := o.vertices[i];
      if v !in visited {
        var comp, seen, _ := DepthFirstSearch.DfsComponent(g, o, v, visited);
        ghost var comps0 := comps;
        comps := comps + [comp];
        FlattenAppend(comps0, comp);
        SweptClosed(g, o, i, Flatten(comps0), visited);
        SweepStep(g, o, i, Flatten(comps0), visited, comp, seen, Flatten(comps));
        LayeredStep(g, comps0, comp, comps);
        visited := seen;
      } else {
        SweepSkip(g, o, i, Flatten(comps), visited);
      }
    }
    SweepFinal(g, o, Flatten(comps), visited);
  }

  /**
   * On a mirrored graph (every undirected graph), the components are the connectivity
   * classes: a node shares the component of `u` exactly when it is reachable from `u`.
   */
  lemma ComponentsAreClasses<V>(g: Graph<V>, comps: seq<seq<V>>, c: nat, u: V, v: V)
    requires Symmetric(g) && Layered(g, comps)
    requires c < |comps| && u in comps[c] && v in Nodes(g)
    ensures v in comps[c] <==> Reachable(g, u, v)
  {
    var h := comps[c][0];
    var P := Elems(Flatten(comps[..c]));
    assert u in Elems(comps[c]);
    ReachAvoidClosed(g, h, P, u);
    ReachAvoidClosed(g, h, P, v);
    if v in comps[c] {
      assert v in Elems(comps[c]);
      ReachableSym(g, h, u);
      ReachableTrans(g, u, h, v);
    }
    if Reachable(g, u, v) {
      ReachableTrans(g, h, u, v);
    }
  }
}
