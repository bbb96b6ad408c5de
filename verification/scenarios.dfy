/**
 * Concrete graphs from the library's own usage scenarios, and what the traversal contracts
 * pin down about them for every enumeration order the runtime may choose.
 */
module Scenarios {
  import opened AbstractGraph
  import opened Walks
  import opened IterationOrder
  import DepthFirstSearch

  /** The directed chain A -> B -> C with unit weights that the depth-first test builds. */
  function Chain(): Graph<char> {
    Graph(Directed, map['A' := map['B' := 1.0], 'B' := map['C' := 1.0], 'C' := map[]], 3, 2)
  }

  /** The nodes of the chain, and its entries: only A -> B and B -> C. */
  lemma ChainShape()
    ensures Nodes(Chain()) == {'A', 'B', 'C'}
    ensures forall u, v :: Edge(Chain(), u, v) <==> (u == 'A' && v == 'B') || (u == 'B' && v == 'C')
  {
  }

  /** A distinct listing of the chain that starts at A and discovers each node from an earlier one is A, B, C. */
  lemma ChainListing(result: seq<char>, forest: seq<int>)
    requires Distinct(result) && Elems(result) == {'A', 'B', 'C'}
    requires result != [] && result[0] == 'A'
    requires DepthFirstSearch.Forest(Chain(), result, forest)
    ensures result == ['A', 'B', 'C']
  {
    var g := Chain();
    ChainShape();
    DistinctCard(result);
    assert |result| == 3;
    assert DepthFirstSearch.Discovered(g, result, forest, 1);
    assert result[..1] == ['A'] && 'B' !in Elems(result[..1]);
    assert result[1] == 'B';
    assert DepthFirstSearch.Discovered(g, result, forest, 2);
    assert result[..2] == ['A', 'B'] && 'C' !in Elems(result[..2]);
  }

  /**
   * On the chain, depth-first execution whose vertex enumeration starts at A lists A, B, C
   * in that order: B can only be discovered from A, and C only from B.
   */
  method LinearPath(o: Order<char>) returns (result: seq<char>)
    requires OrderOf(Chain(), o) && o.vertices != [] && o.vertices[0] == 'A'
    ensures result == ['A', 'B', 'C']
  {
    ghost var forest;
    result, forest := DepthFirstSearch.Execute(Chain(), o);
    ChainShape();
    ChainListing(result, forest);
  }
}
