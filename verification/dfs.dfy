/**
 * Depth-first traversal (DepthFirstSearch.java): a LIFO stack, nodes marked when they are
 * pushed, the unmarked vertices swept in enumeration order to start each component.
 */
module DepthFirstSearch {
  import opened AbstractGraph
  import opened Walks
  import opened IterationOrder
  import opened Traversal

  /**
   * The listed nodes and the stack hold no node twice and share none; the stack starts as
   * `[s]`, and once anything is listed the list starts at `s`.
   */
  ghost predicate Listed<V>(s: V, comp: seq<V>, stack: seq<V>) {
    && Distinct(comp) && Distinct(stack) && Elems(comp) !! Elems(stack)
    && (comp == [] ==> stack == [s])
    && (comp != [] ==> comp[0] == s)
  }

  /** The marked nodes are those listed or stacked, and all are reached from `s` avoiding `visited`. */
  ghost predicate Marks<V>(g: Graph<V>, s: V, visited: set<V>, comp: seq<V>, stack: seq<V>, seen: set<V>) {
    && seen == visited + {s} + Elems(comp) + Elems(stack)
    && Elems(comp) + Elems(stack) <= Reach(g, s, visited + {s})
  }

  /**
   * The discovery tree: every node other than `s`, listed or stacked, was pushed while
   * expanding a node listed before it. `pi[j]` is the position of the parent of `comp[j]`,
   * and `par[t]` that of a stacked node `t`.
   */
  ghost predicate Tree<V>(g: Graph<V>, s: V, comp: seq<V>, stack: seq<V>, pi: seq<nat>, par: map<V, nat>) {
    && |pi| == |comp|
    && (forall j | 1 <= j < |comp| :: pi[j] < j && Edge(g, comp[pi[j]], comp[j]))
    && (forall j | 0 <= j < |stack| && stack[j] != s ::
          stack[j] in par && par[stack[j]] < |comp| && Edge(g, comp[par[stack[j]]], stack[j]))
  }

  /** The loop invariant of dfsComponent. */
  ghost predicate Inv<V>(g: Graph<V>, s: V, visited: set<V>, comp: seq<V>, stack: seq<V>, seen: set<V>,
                         pi: seq<nat>, par: map<V, nat>)
  {
    && Listed(s, comp, stack)
    && Marks(g, s, visited, comp, stack, seen)
    && Expanded(g, comp, seen)
    && Tree(g, s, comp, stack, pi, par)
  }

  /** The parent positions after pushing `added` while expanding the node listed at position `i`. */
  ghost function Adopt<V>(par: map<V, nat>, added: seq<V>, i: nat): map<V, nat> {
    map t | t in par.Keys + Elems(added) :: if t in Elems(added) then i else par[t]
  }

  /** The parent position of the node listed next: that of the stacked node, or 0 for the start. */
  ghost function ParentOf<V>(par: map<V, nat>, x: V): nat {
    if x in par then par[x] else 0
  }

  lemma InvInit<V>(g: Graph<V>, s: V, visited: set<V>)
    ensures Inv(g, s, visited, [], [s], visited + {s}, [], map[])
  {
    ReachStart(g, s, visited + {s});
  }

  /**
   * Popping `x` off the top of the stack, listing it and pushing its unmarked neighbours
   * `added` keeps the invariant; the primed arguments are the state after the step.
   */
  lemma InvStep<V>(g: Graph<V>, o: Order<V>, s: V, visited: set<V>, comp: seq<V>, stack: seq<V>,
                   seen: set<V>, pi: seq<nat>, par: map<V, nat>, added: seq<V>,
                   comp': seq<V>, stack': seq<V>, seen': set<V>, pi': seq<nat>, par': map<V, nat>)
    requires OrderOf(g, o) && Inv(g, s, visited, comp, stack, seen, pi, par) && stack != []
    requires Distinct(added) && Elems(added) == Elems(Succ(o, stack[|stack| - 1])) - seen
    requires comp' == comp + [stack[|stack| - 1]] && stack' == stack[..|stack| - 1] + added
    requires seen' == seen + Elems(Succ(o, stack[|stack| - 1]))
    requires pi' == pi + [ParentOf(par, stack[|stack| - 1])] && par' == Adopt(par, added, |comp|)
    ensures Inv(g, s, visited, comp', stack', seen', pi', par')
  {
    var x := stack[|stack| - 1];
    var pre := stack[..|stack| - 1];
    SplitTop(stack);
    StepListed(s, comp, stack, seen, added, comp', stack');
    StepMarks(g, o, s, visited, comp, stack, seen, added, comp', stack', seen');
    StepExpanded(g, o, comp, seen, x, comp', seen');
    StepTree(g, o, s, comp, stack, seen, pi, par, added, comp', stack', pi', par');
  }

  /** The stack is its lower part with the top on it. */
  lemma SplitTop<V>(stack: seq<V>)
    requires stack != []
    ensures stack == stack[..|stack| - 1] + [stack[|stack| - 1]]
    ensures Elems(stack) == Elems(stack[..|stack| - 1]) + {stack[|stack| - 1]}
  {
    assert stack == stack[..|stack| - 1] + [stack[|stack| - 1]];
  }

  lemma StepListed<V>(s: V, comp: seq<V>, stack: seq<V>, seen: set<V>, added: seq<V>, comp': seq<V>, stack': seq<V>)
    requires Listed(s, comp, stack) && stack != []
    requires Elems(comp) + Elems(stack) <= seen
    requires Distinct(added) && Elems(added) !! seen
    requires comp' == comp + [stack[|stack| - 1]] && stack' == stack[..|stack| - 1] + added
    ensures Listed(s, comp', stack')
  {
    var x := stack[|stack| - 1];
    var pre := stack[..|stack| - 1];
    SplitTop(stack);
    assert x in Elems(stack);
    DistinctConcat(comp, [x]);
    assert Distinct(pre) by {
      forall i, j | 0 <= i < j < |pre| ensures pre[i] != pre[j] {
        assert pre[i] == stack[i] && pre[j] == stack[j];
      }
    }
    assert x !in Elems(pre) by {
      forall i | 0 <= i < |pre| ensures pre[i] != x {
        assert pre[i] == stack[i];
      }
    }
    DistinctConcat(pre, added);
    if comp == [] {
      assert x == s;
    }
  }

  lemma StepMarks<V>(g: Graph<V>, o: Order<V>, s: V, visited: set<V>, comp: seq<V>, stack: seq<V>, seen: set<V>,
                     added: seq<V>, comp': seq<V>, stack': seq<V>, seen': set<V>)
    requires OrderOf(g, o) && Marks(g, s, visited, comp, stack, seen) && stack != []
    requires Elems(added) == Elems(Succ(o, stack[|stack| - 1])) - seen
    requires comp' == comp + [stack[|stack| - 1]] && stack' == stack[..|stack| - 1] + added
    requires seen' == seen + Elems(Succ(o, stack[|stack| - 1]))
    ensures Marks(g, s, visited, comp', stack', seen')
  {
    var x := stack[|stack| - 1];
    var pre := stack[..|stack| - 1];
    var avoid := visited + {s};
    SplitTop(stack);
    assert Elems(comp') == Elems(comp) + {x};
    assert Elems(stack') == Elems(pre) + Elems(added);
    assert x in Reach(g, s, avoid);
    AddedReach(g, o, s, avoid, x, seen, added);
  }

  /** The unmarked neighbours of a node reached avoiding a marked set are reached too. */
  lemma AddedReach<V>(g: Graph<V>, o: Order<V>, s: V, avoid: set<V>, x: V, seen: set<V>, added: seq<V>)
    requires OrderOf(g, o) && x in Reach(g, s, avoid) && avoid <= seen
    requires Elems(added) == Elems(Succ(o, x)) - seen
    ensures Elems(added) <= Reach(g, s, avoid)
  {
    forall y | y in Elems(added) ensures y in Reach(g, s, avoid) {
      assert y in Succ(o, x);
      SuccIsEdge(g, o, x, y);
      ReachStep(g, s, x, y, avoid);
    }
  }

  lemma AdoptFacts<V>(par: map<V, nat>, added: seq<V>, i: nat)
    ensures Adopt(par, added, i).Keys == par.Keys + Elems(added)
    ensures forall t | t in par && t !in Elems(added) :: Adopt(par, added, i)[t] == par[t]
    ensures forall t | t in Elems(added) :: Adopt(par, added, i)[t] == i
  {
  }

  lemma StepTree<V>(g: Graph<V>, o: Order<V>, s: V, comp: seq<V>, stack: seq<V>, seen: set<V>,
                    pi: seq<nat>, par: map<V, nat>, added: seq<V>,
                    comp': seq<V>, stack': seq<V>, pi': seq<nat>, par': map<V, nat>)
    requires OrderOf(g, o) && Tree(g, s, comp, stack, pi, par) && Listed(s, comp, stack) && stack != []
    requires Elems(comp) + Elems(stack) <= seen
    requires Elems(added) == Elems(Succ(o, stack[|stack| - 1])) - seen
    requires comp' == comp + [stack[|stack| - 1]] && stack' == stack[..|stack| - 1] + added
    requires pi' == pi + [ParentOf(par, stack[|stack| - 1])] && par' == Adopt(par, added, |comp|)
    ensures Tree(g, s, comp', stack', pi', par')
  {
    var x := stack[|stack| - 1];
    var pre := stack[..|stack| - 1];
    SplitTop(stack);
    assert x in Elems(stack);
    if comp != [] {
      assert x != s by {
        assert comp[0] == s && s in Elems(comp);
      }
      assert stack[|stack| - 1] == x;
    }
    forall j | 0 <= j < |pre| && pre[j] != s ensures pre[j] in par && par[pre[j]] < |comp| && Edge(g, comp[par[pre[j]]], pre[j]) {
      assert pre[j] == stack[j];
    }
    forall y | y in Elems(added) ensures Edge(g, x, y) {
      assert y in Succ(o, x);
      SuccIsEdge(g, o, x, y);
    }
    TreeComp(g, comp, x, pi, ParentOf(par, x), comp', pi');
    TreeStack(g, s, comp, pre, x, added, par, par', comp', stack');
  }

  /** Listing the top `x`, whose parent is already listed, extends the tree over the list. */
  lemma TreeComp<V>(g: Graph<V>, comp: seq<V>, x: V, pi: seq<nat>, p: nat, comp': seq<V>, pi': seq<nat>)
    requires |pi| == |comp| && forall j | 1 <= j < |comp| :: pi[j] < j && Edge(g, comp[pi[j]], comp[j])
    requires comp != [] ==> p < |comp| && Edge(g, comp[p], x)
    requires comp' == comp + [x] && pi' == pi + [p]
    ensures |pi'| == |comp'| && forall j | 1 <= j < |comp'| :: pi'[j] < j && Edge(g, comp'[pi'[j]], comp'[j])
  {
    forall j | 1 <= j < |comp'| ensures pi'[j] < j && Edge(g, comp'[pi'[j]], comp'[j]) {
      if j < |comp| {
        assert pi'[j] == pi[j] && comp'[j] == comp[j] && comp'[pi[j]] == comp[pi[j]];
      } else {
        assert pi'[j] == p && comp'[j] == x && comp'[p] == comp[p];
      }
    }
  }

  /** The nodes pushed now hang below `x`, listed at position `|comp|`; the rest of the stack keeps its parents. */
  lemma TreeStack<V>(g: Graph<V>, s: V, comp: seq<V>, pre: seq<V>, x: V, added: seq<V>, par: map<V, nat>,
                     par': map<V, nat>, comp': seq<V>, stack': seq<V>)
    requires forall j | 0 <= j < |pre| && pre[j] != s :: pre[j] in par && par[pre[j]] < |comp| && Edge(g, comp[par[pre[j]]], pre[j])
    requires Elems(pre) !! Elems(added)
    requires forall y | y in Elems(added) :: Edge(g, x, y)
    requires par' == Adopt(par, added, |comp|)
    requires comp' == comp + [x] && stack' == pre + added
    ensures forall j | 0 <= j < |stack'| && stack'[j] != s ::
              stack'[j] in par' && par'[stack'[j]] < |comp'| && Edge(g, comp'[par'[stack'[j]]], stack'[j])
  {
    AdoptFacts(par, added, |comp|);
    forall j | 0 <= j < |stack'| && stack'[j] != s
      ensures stack'[j] in par' && par'[stack'[j]] < |comp'| && Edge(g, comp'[par'[stack'[j]]], stack'[j])
    {
      if j < |pre| {
        var t := pre[j];
        assert stack'[j] == t && t in Elems(pre);
        assert comp'[par[t]] == comp[par[t]];
      } else {
        assert stack'[j] == added[j - |pre|] && stack'[j] in Elems(added);
        assert comp'[|comp|] == x;
      }
    }
  }

  /** An empty stack leaves a list that starts at `s` and is closed under entries. */
  lemma InvFinal<V>(g: Graph<V>, s: V, visited: set<V>, comp: seq<V>, seen: set<V>, pi: seq<nat>, par: map<V, nat>)
    requires Inv(g, s, visited, comp, [], seen, pi, par)
    ensures |comp| >= 1 && comp[0] == s && Distinct(comp)
    ensures forall i | 1 <= i < |comp| :: comp[i] !in visited
    ensures seen == visited + Elems(comp)
    ensures forall x, y | x in comp && Edge(g, x, y) :: y in seen
    ensures Elems(comp) == Reach(g, s, visited + {s})
    ensures |pi| == |comp| && forall j | 1 <= j < |comp| :: pi[j] < j && Edge(g, comp[pi[j]], comp[j])
  {
    var avoid := visited + {s};
    assert s in Elems(comp);
    forall x, y | x in Elems(comp) && Edge(g, x, y) ensures y in Elems(comp) || y in avoid {
      assert x in comp && x in g.adj && y in g.adj[x];
      assert y in seen;
    }
    ClosedHoldsReach(g, s, avoid, Elems(comp));
    forall i | 1 <= i < |comp| ensures comp[i] !in visited {
      assert comp[i] in Elems(comp) && comp[i] != comp[0];
      ReachOutside(g, s, avoid, comp[i]);
    }
  }

  /**
   * dfsComponent: the nodes appended to the result list, and the marked set afterwards. The
   * component starts at `source`, holds every node reached from it without stepping onto a
   * node marked before, and every later node was discovered from an earlier one.
   */
  method DfsComponent<V>(g: Graph<V>, o: Order<V>, source: V, visited: set<V>)
    returns (comp: seq<V>, seen: set<V>, ghost parent: seq<nat>)
    requires OrderOf(g, o)
    ensures |comp| >= 1 && comp[0] == source && Distinct(comp)
    ensures forall i | 1 <= i < |comp| :: comp[i] !in visited
    ensures seen == visited + Elems(comp)
    ensures Elems(comp) == Reach(g, source, visited + {source})
    ensures forall x, y | x in comp && Edge(g, x, y) :: y in seen
    ensures |parent| == |comp| && forall j | 1 <= j < |comp| :: parent[j] < j && Edge(g, comp[parent[j]], comp[j])
  {
    var stack := [source];
    seen := visited + {source};
    comp := [];
    parent := [];
    ghost var par: map<V, nat> := map[];
    InvInit(g, source, visited);
    while stack != []
      invariant Inv(g, source, visited, comp, stack, seen, parent, par)
      decreases |Nodes(g) + {source} - Elems(comp)|
    {
      var x := stack[|stack| - 1];
      ghost var comp0, stack0, seen0, parent0, par0 := comp, stack, seen, parent, par;
      Progress(g, source, visited, comp, stack, seen);
      SuccIsEdge(g, o, x, x);
      var added;
      added, seen := Expand(o, x, seen);
      comp := comp + [x];
      stack := stack[..|stack| - 1] + added;
      parent := parent + [ParentOf(par, x)];
      par := Adopt(par, added, |comp0|);
      InvStep(g, o, source, visited, comp0, stack0, seen0, parent0, par0, added, comp, stack, seen, parent, par);
      assert |Nodes(g) + {source} - Elems(comp)| < |Nodes(g) + {source} - Elems(comp0)|;
    }
    InvFinal(g, source, visited, comp, seen, parent, par);
  }

  lemma Progress<V>(g: Graph<V>, s: V, visited: set<V>, comp: seq<V>, stack: seq<V>, seen: set<V>)
    requires Listed(s, comp, stack) && Marks(g, s, visited, comp, stack, seen) && stack != []
    ensures |Nodes(g) + {s} - Elems(comp + [stack[|stack| - 1]])| < |Nodes(g) + {s} - Elems(comp)|
  {
    var x := stack[|stack| - 1];
    assert x in Elems(stack);
    assert x in Reach(g, s, visited + {s});
    var rest := Nodes(g) + {s} - Elems(comp);
    assert Elems(comp + [x]) == Elems(comp) + {x};
    assert Nodes(g) + {s} - Elems(comp + [x]) == rest - {x};
    assert x in rest;
  }

  /**
   * How node `j` of the listing was discovered: `forest[j] < 0` marks the first node of a
   * component, a vertex whose predecessors in the listing are closed under entries; otherwise
   * it was reached along an entry from the earlier node `forest[j]`.
   */
  ghost predicate Discovered<V>(g: Graph<V>, result: seq<V>, forest: seq<int>, j: int) {
    && 0 <= j < |result| && j < |forest|
    && if forest[j] < 0 then result[j] in g.adj && ClosedUnder(g, Elems(result[..j]))
       else forest[j] < j && Edge(g, result[forest[j]], result[j])
  }

  ghost predicate Forest<V>(g: Graph<V>, result: seq<V>, forest: seq<int>) {
    |forest| == |result| && forall j | 0 <= j < |result| :: Discovered(g, result, forest, j)
  }

  /** The discovery indices of one component, moved past the `k` nodes listed before it. */
  ghost function Shift(pi: seq<nat>, k: nat): seq<int> {
    seq(|pi|, j requires 0 <= j < |pi| => if j == 0 then -1 else pi[j] + k)
  }

  /** Appending a component found past a closed prefix keeps the discovery forest. */
  lemma ForestStep<V>(g: Graph<V>, result: seq<V>, forest: seq<int>, comp: seq<V>, pi: seq<nat>,
                      result': seq<V>, forest': seq<int>)
    requires Forest(g, result, forest) && ClosedUnder(g, Elems(result))
    requires comp != [] && comp[0] in g.adj
    requires |pi| == |comp| && forall j | 1 <= j < |comp| :: pi[j] < j && Edge(g, comp[pi[j]], comp[j])
    requires result' == result + comp && forest' == forest + Shift(pi, |result|)
    ensures Forest(g, result', forest')
  {
    var n := |result|;
    forall j | 0 <= j < |result'| ensures Discovered(g, result', forest', j) {
      if j < n {
        assert result'[..j] == result[..j];
        assert Discovered(g, result, forest, j);
        if forest[j] >= 0 {
          assert result'[forest'[j]] == result[forest[j]];
        }
      } else if j == n {
        assert result'[..j] == result;
      } else {
        var k := j - n;
        assert forest'[j] == pi[k] + n && result'[j] == comp[k];
        assert result'[pi[k] + n] == comp[pi[k]];
      }
    }
  }

  /**
   * execute: every node once, the enumeration's first vertex first; each node either starts
   * a component past a closed prefix of the listing or was discovered along an entry from an
   * earlier node.
   */
  method Execute<V>(g: Graph<V>, o: Order<V>) returns (result: seq<V>, ghost forest: seq<int>)
    requires OrderOf(g, o)
    ensures Distinct(result) && Elems(result) == Nodes(g)
    ensures o.vertices != [] ==> result != [] && result[0] == o.vertices[0]
    ensures Forest(g, result, forest)
  {
    result := [];
    forest := [];
    var visited: set<V> := {};
    SweepInit(g, o);
    for i := 0 to |o.vertices|
      invariant Swept(g, o, i, result, visited)
      invariant Forest(g, result, forest)
      invariant i == 0 ==> result == []
      invariant i > 0 ==> result != [] && result[0] == o.vertices[0]
    {
      var v := o.vertices[i];
      if v !in visited {
        var comp, seen, pi := DfsComponent(g, o, v, visited);
        ghost var result0, forest0 := result, forest;
        result := result + comp;
        forest := forest + Shift(pi, |result0|);
        assert result[0] == (if i == 0 then comp[0] else result0[0]);
        SweptClosed(g, o, i, result0, visited);
        ForestStep(g, result0, forest0, comp, pi, result, forest);
        SweepStep(g, o, i, result0, visited, comp, seen, result);
        visited := seen;
      } else {
        SweepSkip(g, o, i, result, visited);
      }
    }
    SweepFinal(g, o, result, visited);
  }
}
