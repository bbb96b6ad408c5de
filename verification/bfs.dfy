/**
 * Breadth-first traversal (BreadthFirstSearch.java): a FIFO queue, nodes marked when they are
 * enqueued, the unmarked vertices swept in enumeration order to start each component.
 */
module BreadthFirstSearch {
  import opened AbstractGraph
  import opened Walks
  import opened IterationOrder
  import opened Traversal

  /** Each recorded level is the fewest entries over which the node is reached from `s`. */
  ghost predicate ExactLevels<V>(g: Graph<V>, s: V, avoid: set<V>, lvl: map<V, nat>) {
    forall t {:trigger Exact(g, s, avoid, t, lvl[t])} | t in lvl :: Exact(g, s, avoid, t, lvl[t])
  }

  /** `t` is reached from `s` over `n` entries and over no fewer. */
  ghost predicate Exact<V>(g: Graph<V>, s: V, avoid: set<V>, t: V, n: nat) {
    Within(g, s, t, n, avoid) && (n > 0 ==> !Within(g, s, t, n - 1, avoid))
  }

  lemma LevelIsLeast<V>(g: Graph<V>, s: V, avoid: set<V>, lvl: map<V, nat>, t: V, k: nat)
    requires ExactLevels(g, s, avoid, lvl) && t in lvl && Within(g, s, t, k, avoid)
    ensures lvl[t] <= k
  {
    assert Exact(g, s, avoid, t, lvl[t]);
    if k < lvl[t] {
      WithinMono(g, s, t, k, lvl[t] - 1, avoid);
    }
  }

  /**
   * Once every node reached within fewer than `L` entries is expanded, and expansion marks
   * every neighbour, every node reached within `L` entries is marked.
   */
  lemma Frontier<V>(g: Graph<V>, s: V, avoid: set<V>, done: set<V>, seen: set<V>, L: nat, t: V)
    requires s in seen
    requires forall u, m: nat | u in Nodes(g) + {s} && m < L && Within(g, s, u, m, avoid) :: u in done
    requires forall x, y | x in done && Edge(g, x, y) :: y in seen
    requires Within(g, s, t, L, avoid)
    ensures t in seen
  {
    if t != s {
      var y := WithinBack(g, s, t, L, avoid);
      WithinNode(g, s, y, L - 1, avoid);
    }
  }

  /** A neighbour first marked while expanding a node of level `cur` is at level `cur + 1` exactly. */
  lemma NextLevel<V>(g: Graph<V>, s: V, avoid: set<V>, lvl: map<V, nat>, done: set<V>, seen: set<V>,
                     x: V, cur: nat, y: V)
    requires ExactLevels(g, s, avoid, lvl) && x in lvl && lvl[x] == cur
    requires s in seen
    requires forall u, m: nat | u in Nodes(g) + {s} && m < cur && Within(g, s, u, m, avoid) :: u in done || u == x
    requires forall a, b | a in done && Edge(g, a, b) :: b in seen
    requires Edge(g, x, y) && y !in avoid && y !in seen
    ensures Within(g, s, y, cur + 1, avoid) && !Within(g, s, y, cur, avoid)
  {
    assert Exact(g, s, avoid, x, lvl[x]);
    WithinStep(g, s, x, y, cur, avoid);
    forall u, m: nat | u in Nodes(g) + {s} && m < cur && Within(g, s, u, m, avoid) ensures u in done {
      if u == x {
        LevelIsLeast(g, s, avoid, lvl, x, m);
      }
    }
    if Within(g, s, y, cur, avoid) {
      Frontier(g, s, avoid, done, seen, cur, y);
    }
  }

  /**
   * When the head of the queue is one level deeper than the nodes expanded so far, every node
   * reached within `cur` entries has already been expanded.
   */
  lemma AdvanceLevel<V>(g: Graph<V>, s: V, visited: set<V>, lvl: map<V, nat>,
                        comp: seq<V>, queue: seq<V>, cur: nat)
    requires queue != [] && queue[0] in lvl && lvl[queue[0]] == cur + 1
    requires lvl.Keys == Elems(comp + queue) && ExactLevels(g, s, visited + {s}, lvl)
    requires forall j | 0 <= j < |queue| :: queue[j] in lvl && lvl[queue[0]] <= lvl[queue[j]]
    requires s in comp + queue
    requires forall u, m: nat | u in Nodes(g) + {s} && m < cur && Within(g, s, u, m, visited + {s}) :: u in comp
    requires forall x, y | x in comp && Edge(g, x, y) :: y in visited + Elems(comp + queue)
    ensures forall u, m: nat | u in Nodes(g) + {s} && m < cur + 1 && Within(g, s, u, m, visited + {s}) :: u in comp
  {
    var avoid := visited + {s};
    var seen := visited + Elems(comp + queue);
    forall u, m: nat | u in Nodes(g) + {s} && m < cur + 1 && Within(g, s, u, m, avoid) ensures u in comp {
      if m == cur {
        Frontier(g, s, avoid, Elems(comp), seen, cur, u);
        if u != s {
          var y := WithinBack(g, s, u, m, avoid);
        }
        assert u in comp + queue;
        if u !in comp {
          var j :| 0 <= j < |queue| && queue[j] == u;
          LevelIsLeast(g, s, avoid, lvl, u, m);
        }
      }
    }
  }

  /**
   * `z` lists the marked nodes of the component in the order they were marked (expanded
   * nodes first, then the queue): it starts at `s`, has no repeats and meets no node marked
   * before the component started.
   */
  ghost predicate Marked<V>(g: Graph<V>, s: V, visited: set<V>, z: seq<V>, seen: set<V>) {
    && |z| >= 1 && z[0] == s && Distinct(z)
    && (forall i | 1 <= i < |z| :: z[i] !in visited + {s})
    && seen == visited + Elems(z)
    && Elems(z) <= Nodes(g) + {s}
  }

  /** The marked nodes carry their exact levels, nondecreasing in marking order. */
  ghost predicate Leveled<V>(g: Graph<V>, s: V, visited: set<V>, z: seq<V>, lvl: map<V, nat>) {
    && lvl.Keys == Elems(z) && ExactLevels(g, s, visited + {s}, lvl)
    && (forall i, j | 0 <= i < j < |z| :: lvl[z[i]] <= lvl[z[j]])
  }

  /**
   * The queue (the part of `z` after `comp`) spans the levels `cur` and `cur + 1`, and every
   * node reached in fewer than `cur` entries is already expanded.
   */
  ghost predicate Banded<V>(g: Graph<V>, s: V, visited: set<V>, comp: seq<V>, z: seq<V>, lvl: map<V, nat>, cur: nat) {
    && (forall j | |comp| <= j < |z| :: z[j] in lvl && cur <= lvl[z[j]] <= cur + 1)
    && (forall u, m: nat | u in Nodes(g) + {s} && m < cur && Within(g, s, u, m, visited + {s}) :: u in comp)
  }

  /** The loop invariant of bfsComponent. */
  ghost predicate Inv<V>(g: Graph<V>, s: V, visited: set<V>, comp: seq<V>, queue: seq<V>, seen: set<V>,
                         lvl: map<V, nat>, cur: nat)
  {
    && Marked(g, s, visited, comp + queue, seen)
    && Expanded(g, comp, seen)
    && Leveled(g, s, visited, comp + queue, lvl)
    && Banded(g, s, visited, comp, comp + queue, lvl, cur)
  }

  /** The levels after enqueueing `added` one level below the expanded node. */
  ghost function Deepen<V>(lvl: map<V, nat>, added: seq<V>, level: nat): map<V, nat> {
    map t | t in lvl.Keys + Elems(added) :: if t in lvl then lvl[t] else level
  }

  lemma InvInit<V>(g: Graph<V>, s: V, visited: set<V>)
    ensures Inv(g, s, visited, [], [s], visited + {s}, map[s := 0], 0)
  {
    assert Within(g, s, s, 0, visited + {s});
    assert [] + [s] == [s];
  }

  /**
   * Expanding the head of the queue, whose unmarked neighbours are `added`, keeps the
   * invariant; the primed arguments are the state after the step.
   */
  lemma InvStep<V>(g: Graph<V>, o: Order<V>, s: V, visited: set<V>, comp: seq<V>, queue: seq<V>,
                   seen: set<V>, lvl: map<V, nat>, cur: nat, added: seq<V>,
                   comp': seq<V>, queue': seq<V>, seen': set<V>, lvl': map<V, nat>, cur': nat)
    requires OrderOf(g, o) && Inv(g, s, visited, comp, queue, seen, lvl, cur) && queue != []
    requires Distinct(added) && Elems(added) == Elems(Succ(o, queue[0])) - seen
    requires comp' == comp + [queue[0]] && queue' == queue[1..] + added
    requires seen' == seen + Elems(Succ(o, queue[0]))
    requires queue[0] in lvl && cur' == lvl[queue[0]] && lvl' == Deepen(lvl, added, cur' + 1)
    ensures Inv(g, s, visited, comp', queue', seen', lvl', cur')
  {
    var x := queue[0];
    var z := comp + queue;
    ShiftHead(comp, queue, added);
    HeadLevel(g, s, visited, comp, queue, seen, lvl, cur);
    var L := cur';
    StepMarked(g, o, s, visited, z, seen, x, added, comp' + queue', seen');
    StepExpanded(g, o, comp, seen, x, comp', seen');
    AddedLevels(g, o, s, visited, comp, seen, lvl, x, added, L, lvl');
    StepOrder(comp, queue, added, lvl, cur, comp', comp' + queue', lvl', L);
    StepBand(g, s, visited, comp, x, L, comp');
  }

  /**
   * The head of the queue sits at level `cur` or `cur + 1`, and every node reached in fewer
   * entries than the head has been expanded.
   */
  lemma HeadLevel<V>(g: Graph<V>, s: V, visited: set<V>, comp: seq<V>, queue: seq<V>, seen: set<V>,
                     lvl: map<V, nat>, cur: nat)
    requires Inv(g, s, visited, comp, queue, seen, lvl, cur) && queue != []
    ensures queue[0] in lvl && cur <= lvl[queue[0]] <= cur + 1
    ensures forall u, m: nat | u in Nodes(g) + {s} && m < lvl[queue[0]] && Within(g, s, u, m, visited + {s}) :: u in comp
    ensures visited + {s} <= seen && lvl.Keys <= seen
  {
    var z := comp + queue;
    var L := lvl[queue[0]];
    assert queue[0] == z[|comp|];
    assert s == z[0];
    if L > cur {
      forall j | 0 <= j < |queue| ensures queue[j] in lvl && L <= lvl[queue[j]] {
        assert queue[j] == z[|comp| + j];
      }
      AdvanceLevel(g, s, visited, lvl, comp, queue, cur);
    }
  }

  /** Moving the head of the queue to the end of the component leaves the marking order unchanged. */
  lemma ShiftHead<V>(comp: seq<V>, queue: seq<V>, added: seq<V>)
    requires queue != []
    ensures (comp + [queue[0]]) + (queue[1..] + added) == comp + queue + added
  {
    assert queue == [queue[0]] + queue[1..];
  }

  lemma StepMarked<V>(g: Graph<V>, o: Order<V>, s: V, visited: set<V>, z: seq<V>, seen: set<V>, x: V, added: seq<V>,
                      z': seq<V>, seen': set<V>)
    requires OrderOf(g, o) && Marked(g, s, visited, z, seen)
    requires Distinct(added) && Elems(added) == Elems(Succ(o, x)) - seen
    requires z' == z + added && seen' == seen + Elems(Succ(o, x))
    ensures Marked(g, s, visited, z', seen')
  {
    assert s in Elems(z);
    forall i, j | 0 <= i < j < |z'| ensures z'[i] != z'[j] {
      if j >= |z| {
        assert z'[j] == added[j - |z|] && z'[j] in Elems(added);
        if i < |z| {
          assert z'[i] == z[i] && z'[i] in seen;
        } else {
          assert z'[i] == added[i - |z|];
        }
      } else {
        assert z'[i] == z[i] && z'[j] == z[j];
      }
    }
    forall i | 1 <= i < |z'| ensures z'[i] !in visited + {s} {
      if i >= |z| {
        assert z'[i] == added[i - |z|] && z'[i] in Elems(added);
      } else {
        assert z'[i] == z[i];
      }
    }
    assert Elems(z') == Elems(z) + Elems(added);
    forall y | y in Elems(added) ensures y in Nodes(g) {
      assert y in Succ(o, x);
      SuccIsEdge(g, o, x, y);
    }
  }

  /** The levels stay keyed by the marked nodes, nondecreasing, and banded around the new level `L`. */
  lemma StepOrder<V>(comp: seq<V>, queue: seq<V>, added: seq<V>, lvl: map<V, nat>, cur: nat,
                     comp': seq<V>, z': seq<V>, lvl': map<V, nat>, L: nat)
    requires queue != [] && lvl.Keys == Elems(comp + queue)
    requires forall i, j | 0 <= i < j < |comp + queue| :: lvl[(comp + queue)[i]] <= lvl[(comp + queue)[j]]
    requires forall j | |comp| <= j < |comp + queue| :: (comp + queue)[j] in lvl && cur <= lvl[(comp + queue)[j]] <= cur + 1
    requires queue[0] in lvl && L == lvl[queue[0]] && Elems(added) !! lvl.Keys
    requires comp' == comp + [queue[0]] && z' == comp + queue + added && lvl' == Deepen(lvl, added, L + 1)
    ensures lvl'.Keys == Elems(z')
    ensures forall i, j | 0 <= i < j < |z'| :: lvl'[z'[i]] <= lvl'[z'[j]]
    ensures forall j | |comp'| <= j < |z'| :: z'[j] in lvl' && L <= lvl'[z'[j]] <= L + 1
  {
    var z := comp + queue;
    assert queue[0] == z[|comp|];
    DeepenFacts(lvl, added, L + 1);
    assert Elems(z') == Elems(z) + Elems(added);
    assert forall j | |comp| <= j < |z| :: lvl[z[j]] <= L + 1;
    ExtendOrder(z, added, lvl, lvl', |comp|, L);
  }

  /** Every node reached in fewer than `L` entries was expanded before, so also after the step. */
  lemma StepBand<V>(g: Graph<V>, s: V, visited: set<V>, comp: seq<V>, x: V, L: nat, comp': seq<V>)
    requires forall u, m: nat | u in Nodes(g) + {s} && m < L && Within(g, s, u, m, visited + {s}) :: u in comp
    requires comp' == comp + [x]
    ensures forall u, m: nat | u in Nodes(g) + {s} && m < L && Within(g, s, u, m, visited + {s}) :: u in comp'
  {
  }

  /** Every neighbour of `x` first marked now is exactly one level deeper than `x`. */
  lemma AddedLevels<V>(g: Graph<V>, o: Order<V>, s: V, visited: set<V>, comp: seq<V>, seen: set<V>,
                       lvl: map<V, nat>, x: V, added: seq<V>, L: nat, lvl': map<V, nat>)
    requires OrderOf(g, o) && ExactLevels(g, s, visited + {s}, lvl) && x in lvl
    requires visited + {s} <= seen && lvl.Keys <= seen && Expanded(g, comp, seen)
    requires forall u, m: nat | u in Nodes(g) + {s} && m < lvl[x] && Within(g, s, u, m, visited + {s}) :: u in comp
    requires Elems(added) == Elems(Succ(o, x)) - seen
    requires L == lvl[x] && lvl' == Deepen(lvl, added, L + 1)
    ensures ExactLevels(g, s, visited + {s}, lvl')
  {
    var avoid := visited + {s};
    DeepenFacts(lvl, added, L + 1);
    forall t | t in lvl' ensures Exact(g, s, avoid, t, lvl'[t]) {
      if t in lvl {
        assert Exact(g, s, avoid, t, lvl[t]);
      } else {
        assert t in Succ(o, x);
        SuccIsEdge(g, o, x, t);
        forall a, b | a in Elems(comp) && Edge(g, a, b) ensures b in seen {
          assert a in comp;
        }
        NextLevel(g, s, avoid, lvl, Elems(comp), seen, x, L, t);
      }
    }
  }

  lemma DeepenFacts<V>(lvl: map<V, nat>, added: seq<V>, level: nat)
    ensures Deepen(lvl, added, level).Keys == lvl.Keys + Elems(added)
    ensures forall t | t in lvl :: Deepen(lvl, added, level)[t] == lvl[t]
    ensures forall t | t in Elems(added) && t !in lvl :: Deepen(lvl, added, level)[t] == level
  {
  }

  /**
   * Appending nodes of level `L + 1` behind a list whose first `c` entries are at most `L`
   * and whose rest lie between `L` and `L + 1` keeps the list nondecreasing and banded.
   */
  lemma ExtendOrder<V>(z: seq<V>, added: seq<V>, lvl: map<V, nat>, lvl': map<V, nat>, c: nat, L: nat)
    requires c < |z| && Elems(z) <= lvl.Keys && lvl'.Keys == Elems(z + added)
    requires forall t | t in lvl :: t in lvl' && lvl'[t] == lvl[t]
    requires forall t | t in Elems(added) :: t !in lvl && lvl'[t] == L + 1
    requires forall i, j | 0 <= i < j < |z| :: lvl[z[i]] <= lvl[z[j]]
    requires lvl[z[c]] == L
    requires forall j | c <= j < |z| :: lvl[z[j]] <= L + 1
    ensures forall i, j | 0 <= i < j < |z + added| :: lvl'[(z + added)[i]] <= lvl'[(z + added)[j]]
    ensures forall j | c + 1 <= j < |z + added| :: (z + added)[j] in lvl' && L <= lvl'[(z + added)[j]] <= L + 1
  {
    var z' := z + added;
    forall i, j | 0 <= i < j < |z'| ensures lvl'[z'[i]] <= lvl'[z'[j]] {
      if j >= |z| {
        assert z'[j] == added[j - |z|] && z'[j] in Elems(added);
        if i < |z| {
          assert z'[i] == z[i] && z[i] in Elems(z);
          if i < c {
            assert lvl[z[i]] <= lvl[z[c]];
          }
        } else {
          assert z'[i] == added[i - |z|] && z'[i] in Elems(added);
        }
      } else {
        assert z'[i] == z[i] && z'[j] == z[j] && z[i] in Elems(z) && z[j] in Elems(z);
      }
    }
    forall j | c + 1 <= j < |z'| ensures z'[j] in lvl' && L <= lvl'[z'[j]] <= L + 1 {
      if j < |z| {
        assert z'[j] == z[j] && z[j] in Elems(z);
        assert lvl[z[c]] <= lvl[z[j]];
      } else {
        assert z'[j] == added[j - |z|] && z'[j] in Elems(added);
      }
    }
  }

  /**
   * bfsComponent: the nodes appended to the result list, and the marked set afterwards. The
   * component starts at `source`, holds every node reached from it without stepping onto a
   * node marked before, and lists them by nondecreasing distance from `source`.
   */
  method BfsComponent<V>(g: Graph<V>, o: Order<V>, source: V, visited: set<V>)
    returns (comp: seq<V>, seen: set<V>)
    requires OrderOf(g, o)
    ensures |comp| >= 1 && comp[0] == source && Distinct(comp)
    ensures forall i | 1 <= i < |comp| :: comp[i] !in visited
    ensures seen == visited + Elems(comp)
    ensures Elems(comp) == Reach(g, source, visited + {source})
    ensures forall x, y | x in comp && Edge(g, x, y) :: y in seen
    ensures forall i, j, k: nat | 0 <= i < j < |comp| && Within(g, source, comp[j], k, visited + {source}) ::
              Within(g, source, comp[i], k, visited + {source})
  {
    var queue := [source];
    seen := visited + {source};
    comp := [];
    ghost var lvl: map<V, nat> := map[source := 0];
    ghost var cur: nat := 0;
    InvInit(g, source, visited);
    while queue != []
      invariant Inv(g, source, visited, comp, queue, seen, lvl, cur)
      decreases |Nodes(g) + {source} - Elems(comp)|
    {
      var x := queue[0];
      ghost var seen0 := seen;
      Progress(g, source, visited, comp, queue, seen, lvl, cur);
      SuccIsEdge(g, o, x, x);
      var added;
      added, seen := Expand(o, x, seen);
      ghost var comp0, queue0, lvl0, cur0 := comp, queue, lvl, cur;
      cur := lvl[x];
      lvl := Deepen(lvl, added, cur + 1);
      comp := comp + [x];
      queue := queue[1..] + added;
      InvStep(g, o, source, visited, comp0, queue0, seen0, lvl0, cur0, added, comp, queue, seen, lvl, cur);
    }
    InvFinal(g, source, visited, comp, seen, lvl, cur);
  }

  lemma Progress<V>(g: Graph<V>, s: V, visited: set<V>, comp: seq<V>, queue: seq<V>, seen: set<V>,
                    lvl: map<V, nat>, cur: nat)
    requires Inv(g, s, visited, comp, queue, seen, lvl, cur) && queue != []
    ensures |Nodes(g) + {s} - Elems(comp + [queue[0]])| < |Nodes(g) + {s} - Elems(comp)|
  {
    var z := comp + queue;
    var x := queue[0];
    assert x == z[|comp|] && x in Elems(z);
    forall i | 0 <= i < |comp| ensures comp[i] != x {
      assert z[i] == comp[i];
    }
    var rest := Nodes(g) + {s} - Elems(comp);
    assert Elems(comp + [x]) == Elems(comp) + {x};
    assert Nodes(g) + {s} - Elems(comp + [x]) == rest - {x};
    assert x in rest;
  }

  /** With the queue empty the invariant gives the contract of bfsComponent. */
  lemma InvFinal<V>(g: Graph<V>, s: V, visited: set<V>, comp: seq<V>, seen: set<V>, lvl: map<V, nat>, cur: nat)
    requires Inv(g, s, visited, comp, [], seen, lvl, cur)
    ensures |comp| >= 1 && comp[0] == s && Distinct(comp)
    ensures forall i | 1 <= i < |comp| :: comp[i] !in visited
    ensures seen == visited + Elems(comp)
    ensures forall x, y | x in comp && Edge(g, x, y) :: y in seen
    ensures Elems(comp) == Reach(g, s, visited + {s})
    ensures forall i, j, k: nat | 0 <= i < j < |comp| && Within(g, s, comp[j], k, visited + {s}) ::
              Within(g, s, comp[i], k, visited + {s})
  {
    var avoid := visited + {s};
    assert comp + [] == comp;
    assert seen == visited + Elems(comp);
    forall x, y | x in Elems(comp) && Edge(g, x, y) ensures y in Elems(comp) || y in avoid {
      assert x in comp && x in g.adj && y in g.adj[x];
      assert y in seen;
      assert y in visited || y in Elems(comp);
    }
    ClosedHoldsReach(g, s, avoid, Elems(comp));
    forall t | t in Elems(comp) ensures t in Reach(g, s, avoid) {
      assert Exact(g, s, avoid, t, lvl[t]);
    }
    forall i, j, k: nat | 0 <= i < j < |comp| && Within(g, s, comp[j], k, avoid)
      ensures Within(g, s, comp[i], k, avoid)
    {
      LevelIsLeast(g, s, avoid, lvl, comp[j], k);
      assert comp[i] in Elems(comp) && Exact(g, s, avoid, comp[i], lvl[comp[i]]);
      WithinMono(g, s, comp[i], lvl[comp[i]], k, avoid);
    }
  }

  /**
   * execute: every vertex not yet marked, in enumeration order, starts a breadth-first
   * component; the result lists each node the traversal can meet exactly once.
   */
  method Execute<V>(g: Graph<V>, o: Order<V>) returns (result: seq<V>)
    requires OrderOf(g, o)
    ensures Distinct(result) && Elems(result) == Nodes(g)
    ensures o.vertices != [] ==> result != [] && result[0] == o.vertices[0]
  {
    result := [];
    var visited: set<V> := {};
    SweepInit(g, o);
    for i := 0 to |o.vertices|
      invariant Swept(g, o, i, result, visited)
      invariant i == 0 ==> result == []
      invariant i > 0 ==> result != [] && result[0] == o.vertices[0]
    {
      var v := o.vertices[i];
      if v !in visited {
        var comp, seen := BfsComponent(g, o, v, visited);
        ghost var result0 := result;
        result := result + comp;
        assert result[0] == (if i == 0 then comp[0] else result0[0]);
        SweepStep(g, o, i, result0, visited, comp, seen, result);
        visited := seen;
      } else {
        SweepSkip(g, o, i, result, visited);
      }
    }
    SweepFinal(g, o, result, visited);
  }
}
