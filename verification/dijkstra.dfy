/**
 * Single-source shortest paths (Dijkstra.java): a priority queue of (node, distance) entries
 * with lazy deletion, where an entry whose distance exceeds the recorded one is skipped, and a
 * predecessor map from which paths are read back.
 */
module Dijkstra {
  import opened AbstractGraph
  import opened Walks

  /** A recorded distance: a finite value, or the positive infinity of a node not reached. */
  datatype Dist = Fin(d: real) | Inf

  /** A priority-queue entry (NodeDistance): a node with the distance it was queued at. */
  datatype Entry<V> = Entry(node: V, dist: real)

  /** The three collections execute works on: distances, predecessors and the priority queue. */
  datatype State<V> = State(dist: map<V, Dist>, pred: map<V, V>, pq: set<Entry<V>>)

  /** The value execute returns: the source, the distance map and the predecessor map. */
  datatype ShortestPaths<V> = ShortestPaths(source: V, distances: map<V, Dist>, predecessors: map<V, V>)

  /** The outcome of execute: the shortest paths, or the invalid-argument error of an absent source. */
  datatype Outcome<T> = Ok(value: T) | IllegalArgument

  /** `a < b` for a finite `a`, infinity lying above every finite value. */
  predicate Below(a: real, b: Dist) {
    b.Inf? || a < b.d
  }

  /** No recorded distance rises: the same nodes have distances, and a finite one only falls. */
  predicate NoRise<V>(d: map<V, Dist>, d': map<V, Dist>) {
    && d'.Keys == d.Keys
    && forall t {:trigger d[t]} | t in d && d[t].Fin? :: d'[t].Fin? && d'[t].d <= d[t].d
  }

  /** Leaving the distances alone raises none. */
  lemma NoRiseRefl<V>(d: map<V, Dist>)
    ensures NoRise(d, d)
  {
  }

  /** Lowering one recorded distance keeps every distance from rising. */
  lemma NoRiseStep<V>(d0: map<V, Dist>, d: map<V, Dist>, v: V, nd: real)
    requires NoRise(d0, d) && v in d && Below(nd, d[v])
    ensures NoRise(d0, d[v := Fin(nd)])
  {
  }

  /**
   * Ties never replace a predecessor: where a distance is the same as before, the node has a
   * predecessor exactly when it had one, and the same one.
   */
  predicate PredKept<V>(d: map<V, Dist>, p: map<V, V>, d': map<V, Dist>, p': map<V, V>) {
    forall t {:trigger d[t]} | t in d && t in d' && d'[t] == d[t] :: (t in p' <==> t in p) && (t in p ==> p'[t] == p[t])
  }

  /** Leaving distances and predecessors alone keeps every predecessor. */
  lemma PredKeptRefl<V>(d: map<V, Dist>, p: map<V, V>)
    ensures PredKept(d, p, d, p)
  {
  }

  /** A strict decrease of one distance may replace that node's predecessor and no other. */
  lemma PredKeptStep<V>(d0: map<V, Dist>, p0: map<V, V>, d: map<V, Dist>, p: map<V, V>, v: V, nd: real, u: V)
    requires PredKept(d0, p0, d, p) && NoRise(d0, d) && v in d && Below(nd, d[v])
    ensures PredKept(d0, p0, d[v := Fin(nd)], p[v := u])
  {
  }

  /** Every node reached from `s` is a vertex, so each relaxation finds a recorded distance. */
  ghost predicate NoDangling<V>(g: Graph<V>, s: V) {
    forall t | t in Nodes(g) && Reachable(g, s, t) :: t in g.adj
  }

  /** The predecessor walk from any node ends: each predecessor ranks strictly lower. */
  ghost predicate Ranked<V>(pred: map<V, V>, rank: map<V, nat>) {
    forall t | t in pred :: t in rank && pred[t] in rank && rank[pred[t]] < rank[t]
  }

  /** No walk from `s` to a node with a finite distance is lighter than that distance. */
  ghost predicate Shortest<V(!new)>(g: Graph<V>, s: V, dist: map<V, Dist>) {
    forall p | IsWalk(g, p) && p[0] == s && p[|p| - 1] in dist && dist[p[|p| - 1]].Fin? ::
      dist[p[|p| - 1]].d <= WalkWeight(g, p)
  }

  /**
   * The predecessor map is a tree rooted at the source: the source is at 0 and has no
   * predecessor, every other node with a finite distance has one, joined to it by an entry
   * whose weight makes up the difference of their distances.
   */
  ghost predicate PredTree<V>(g: Graph<V>, s: V, dist: map<V, Dist>, pred: map<V, V>) {
    && s in dist && dist[s] == Fin(0.0) && s !in pred
    && (forall t {:trigger t in pred} | t in dist && dist[t].Fin? && t != s :: t in pred)
    && forall t | t in pred ::
         && t in dist && dist[t].Fin? && pred[t] in dist && dist[pred[t]].Fin?
         && Edge(g, pred[t], t) && dist[t].d == dist[pred[t]].d + g.adj[pred[t]][t]
  }

  /**
   * What execute computes from `s`: a distance for every vertex, infinite exactly for the
   * vertices not reached, finite ones no heavier than any walk, and a predecessor tree whose
   * walk from any node ends.
   */
  ghost predicate Solves<V(!new)>(g: Graph<V>, s: V, sp: ShortestPaths<V>, rank: map<V, nat>) {
    && sp.source == s
    && sp.distances.Keys == g.adj.Keys
    && (forall t | t in sp.distances :: sp.distances[t].Inf? <==> !Reachable(g, s, t))
    && Shortest(g, s, sp.distances)
    && PredTree(g, s, sp.distances, sp.predecessors)
    && Ranked(sp.predecessors, rank)
  }

  // ---------------------------------------------------------------------------------------
  // The state of the main loop. `S` holds the settled nodes: those popped with an entry that
  // was not stale. `rank` numbers them in the order they were settled.
  // ---------------------------------------------------------------------------------------

  /** Queue entries never undercut the recorded distance, and every unsettled finite distance is queued. */
  ghost predicate Queued<V>(dist: map<V, Dist>, S: set<V>, pq: set<Entry<V>>) {
    && (forall e | e in pq ::
          && e.node in dist && dist[e.node].Fin? && dist[e.node].d <= e.dist
          && (e.node in S ==> dist[e.node].d < e.dist))
    && forall t | t in dist && dist[t].Fin? && t !in S :: Entry(t, dist[t].d) in pq
  }

  /** Settled distances are finite and at most `top`. */
  ghost predicate Capped<V>(dist: map<V, Dist>, S: set<V>, top: real) {
    forall t | t in S :: t in dist && dist[t].Fin? && dist[t].d <= top
  }

  /** Every queued entry is at least `top`. */
  ghost predicate Floor<V>(pq: set<Entry<V>>, top: real) {
    forall e | e in pq :: top <= e.dist
  }

  /** The queue side of the state: `top` is the distance last settled, a floor to the queue. */
  ghost predicate Frontier<V>(st: State<V>, S: set<V>, top: real) {
    match st
    case State(dist, _, pq) => Queued(dist, S, pq) && Capped(dist, S, top) && Floor(pq, top)
  }

  /** Every entry out of a node of `S` has been relaxed. */
  ghost predicate Relaxed<V>(g: Graph<V>, dist: map<V, Dist>, S: set<V>) {
    forall u, v {:trigger g.adj[u][v]} | u in S && u in g.adj && v in g.adj[u] ::
      u in dist && dist[u].Fin? && v in dist && dist[v].Fin? && dist[v].d <= dist[u].d + g.adj[u][v]
  }

  /** Settled distances are shortest. */
  ghost predicate Lower<V(!new)>(g: Graph<V>, s: V, dist: map<V, Dist>, S: set<V>) {
    forall p | IsWalk(g, p) && p[0] == s && p[|p| - 1] in S ::
      p[|p| - 1] in dist && dist[p[|p| - 1]].Fin? && dist[p[|p| - 1]].d <= WalkWeight(g, p)
  }

  /** The predecessor tree, hanging from settled nodes, ranked by settling order. */
  ghost predicate Tree<V>(g: Graph<V>, s: V, dist: map<V, Dist>, pred: map<V, V>, S: set<V>, rank: map<V, nat>) {
    && PredTree(g, s, dist, pred)
    && rank.Keys == S
    && (forall t | t in S :: rank[t] < |S|)
    && forall t | t in pred :: pred[t] in S && (t in S ==> rank[pred[t]] < rank[t])
  }

  /** Finite distances are non-negative and belong to nodes reached from `s`. */
  ghost predicate Reached<V>(g: Graph<V>, s: V, dist: map<V, Dist>) {
    && (forall t | t in dist && dist[t].Fin? :: dist[t].d >= 0.0)
    && forall t {:trigger Reachable(g, s, t)} | t in dist && dist[t].Fin? :: Reachable(g, s, t)
  }

  /** The path side of the state: settled distances are shortest and the predecessors form a tree. */
  ghost predicate Paths<V(!new)>(g: Graph<V>, s: V, st: State<V>, S: set<V>, rank: map<V, nat>) {
    match st
    case State(dist, pred, _) => Lower(g, s, dist, S) && Tree(g, s, dist, pred, S, rank) && Reached(g, s, dist)
  }

  /** The invariant of the main loop, `top` being the distance settled last. */
  ghost predicate Inv<V(!new)>(g: Graph<V>, s: V, st: State<V>, S: set<V>, rank: map<V, nat>, top: real) {
    match st
    case State(dist, _, _) =>
      && dist.Keys == g.adj.Keys
      && Frontier(st, S, top)
      && Relaxed(g, dist, S)
      && Paths(g, s, st, S, rank)
  }

  /** The entries out of `u` outside `todo` have been relaxed from distance `du`. */
  ghost predicate Done<V>(g: Graph<V>, dist: map<V, Dist>, u: V, du: real, todo: set<V>) {
    && u in g.adj
    && forall v | v in g.adj[u] && v !in todo :: v in dist && dist[v].Fin? && dist[v].d <= du + g.adj[u][v]
  }

  /**
   * The state of the neighbour loop of the node `u`, just settled at distance `du` on top of
   * the nodes `S0` settled before: the entries out of `u` not in `todo` have been relaxed.
   */
  ghost predicate Inner<V(!new)>(g: Graph<V>, s: V, u: V, du: real, todo: set<V>, st: State<V>,
                                 S0: set<V>, S: set<V>, rank: map<V, nat>) {
    match st
    case State(dist, _, _) =>
      && S == S0 + {u} && u !in S0 && u in g.adj && u in dist && dist[u] == Fin(du) && todo <= g.adj[u].Keys
      && dist.Keys == g.adj.Keys
      && Frontier(st, S, du)
      && Relaxed(g, dist, S0)
      && Done(g, dist, u, du, todo)
      && Paths(g, s, st, S, rank)
  }

  /**
   * initializeDistances: every vertex at infinity, then the source at 0, the only queued entry.
   */
  method InitializeDistances<V>(g: Graph<V>, source: V) returns (dist: map<V, Dist>, pq: set<Entry<V>>)
    ensures dist.Keys == g.adj.Keys + {source}
    ensures dist[source] == Fin(0.0)
    ensures forall t | t in dist && t != source :: dist[t] == Inf
    ensures pq == {Entry(source, 0.0)}
  {
    dist := map[];
    var todo := g.adj.Keys;
    while todo != {}
      invariant todo <= g.adj.Keys
      invariant dist.Keys == g.adj.Keys - todo
      invariant forall t | t in dist :: dist[t] == Inf
      decreases |todo|
    {
      var v :| v in todo;
      dist := dist[v := Inf];
      todo := todo - {v};
    }
    dist := dist[source := Fin(0.0)];
    pq := {Entry(source, 0.0)};
  }

  lemma InvInit<V(!new)>(g: Graph<V>, s: V, dist: map<V, Dist>, pq: set<Entry<V>>)
    requires s in g.adj && dist.Keys == g.adj.Keys + {s} && dist[s] == Fin(0.0)
    requires forall t | t in dist && t != s :: dist[t] == Inf
    requires pq == {Entry(s, 0.0)}
    ensures Inv(g, s, State(dist, map[], pq), {}, map[], 0.0)
  {
    assert Within(g, s, s, 0, {});
  }

  /** A non-empty queue has an entry of least distance: what poll returns. */
  lemma {:induction false} LeastEntry<V>(pq: set<Entry<V>>) returns (m: Entry<V>)
    requires pq != {}
    ensures m in pq && forall e | e in pq :: m.dist <= e.dist
    decreases |pq|
  {
    var x :| x in pq;
    if pq == {x} {
      m := x;
    } else {
      var m' := LeastEntry(pq - {x});
      m := if x.dist < m'.dist then x else m';
    }
  }

  /** Popping a stale entry keeps the invariant. */
  lemma StaleStep<V(!new)>(g: Graph<V>, s: V, st: State<V>, S: set<V>, rank: map<V, nat>, top: real,
                           cur: Entry<V>, st': State<V>)
    requires Inv(g, s, st, S, rank, top) && cur in st.pq && st' == st.(pq := st.pq - {cur})
    requires cur.node in st.dist && st.dist[cur.node].Fin? && cur.dist > st.dist[cur.node].d
    ensures Inv(g, s, st', S, rank, top) && |st'.pq| < |st.pq|
  {
    assert Queued(st.dist, S, st'.pq);
    Removed(st.pq, cur);
  }

  /**
   * The heart of the algorithm: a non-stale entry of least distance carries a shortest
   * distance. A walk to its node leaves the settled nodes somewhere; the node it steps onto
   * is queued at no more than the walk's weight up to there.
   */
  lemma PopLower<V(!new)>(g: Graph<V>, s: V, dist: map<V, Dist>, pq: set<Entry<V>>, S: set<V>,
                          u: V, du: real, p: seq<V>)
    requires NonNegative(g) && Queued(dist, S, pq) && Relaxed(g, dist, S) && Lower(g, s, dist, S)
    requires s in dist && dist[s] == Fin(0.0)
    requires Entry(u, du) in pq && (forall e | e in pq :: du <= e.dist) && u !in S
    requires IsWalk(g, p) && p[0] == s && p[|p| - 1] == u
    ensures du <= WalkWeight(g, p)
  {
    var j := FirstOutside(p, S);
    WalkWeightPrefix(g, p, j + 1);
    if j == 0 {
      assert Entry(s, 0.0) in pq;
    } else {
      LeaveSettled(g, s, dist, pq, S, p, j);
    }
  }

  /** Where a walk from the source first steps off the settled nodes, its target is queued at no more than the walk's weight so far. */
  lemma LeaveSettled<V(!new)>(g: Graph<V>, s: V, dist: map<V, Dist>, pq: set<Entry<V>>, S: set<V>, p: seq<V>, j: nat)
    requires NonNegative(g) && Queued(dist, S, pq) && Relaxed(g, dist, S) && Lower(g, s, dist, S)
    requires IsWalk(g, p) && p[0] == s && 1 <= j < |p| && p[j - 1] in S && p[j] !in S
    ensures IsWalk(g, p[..j + 1]) && p[j] in dist && dist[p[j]].Fin?
    ensures Entry(p[j], dist[p[j]].d) in pq && dist[p[j]].d <= WalkWeight(g, p[..j + 1])
  {
    var x, y := p[j - 1], p[j];
    assert Edge(g, x, y);
    WalkWeightLast(g, p, j + 1);
    assert p[..j][|p[..j]| - 1] == x && p[..j][0] == s;
  }

  /** The first node of a walk outside a set that does not hold its last node. */
  lemma FirstOutside<V>(p: seq<V>, S: set<V>) returns (j: nat)
    requires |p| >= 1 && p[|p| - 1] !in S
    ensures j < |p| && p[j] !in S && forall i | 0 <= i < j :: p[i] in S
  {
    j := 0;
    while p[j] in S
      invariant j < |p| && forall i | 0 <= i < j :: p[i] in S
      decreases |p| - j
    {
      j := j + 1;
    }
  }

  /** Settling the node of a non-stale least entry: the state the neighbour loop starts from. */
  lemma SettleStep<V(!new)>(g: Graph<V>, s: V, st: State<V>, S: set<V>, rank: map<V, nat>, top: real, u: V, du: real,
                            st': State<V>, S': set<V>, rank': map<V, nat>)
    requires NonNegative(g) && Inv(g, s, st, S, rank, top)
    requires Entry(u, du) in st.pq && (forall e | e in st.pq :: du <= e.dist) && u in st.dist && st.dist[u] == Fin(du)
    requires st' == st.(pq := st.pq - {Entry(u, du)}) && S' == S + {u} && rank' == rank[u := |S|]
    ensures u !in S && u in g.adj
    ensures Inner(g, s, u, du, g.adj[u].Keys, st', S, S', rank')
  {
    SettleFrontier(st, S, top, u, du, st', S');
    SettlePaths(g, s, st, S, rank, u, du, S', rank');
  }

  lemma SettleFrontier<V>(st: State<V>, S: set<V>, top: real, u: V, du: real, st': State<V>, S': set<V>)
    requires Frontier(st, S, top)
    requires Entry(u, du) in st.pq && (forall e | e in st.pq :: du <= e.dist) && u in st.dist && st.dist[u] == Fin(du)
    requires st' == st.(pq := st.pq - {Entry(u, du)}) && S' == S + {u}
    ensures u !in S && Frontier(st', S', du)
  {
  }

  lemma SettlePaths<V(!new)>(g: Graph<V>, s: V, st: State<V>, S: set<V>, rank: map<V, nat>, u: V, du: real,
                             S': set<V>, rank': map<V, nat>)
    requires NonNegative(g) && Queued(st.dist, S, st.pq) && Relaxed(g, st.dist, S) && Paths(g, s, st, S, rank)
    requires Entry(u, du) in st.pq && (forall e | e in st.pq :: du <= e.dist) && u !in S
    requires u in st.dist && st.dist[u] == Fin(du) && S' == S + {u} && rank' == rank[u := |S|]
    ensures Paths(g, s, st, S', rank')
  {
    SettleLower(g, s, st.dist, st.pq, S, u, du, S');
    SettleTree(g, s, st.dist, st.pred, S, rank, u, S', rank');
  }

  lemma SettleLower<V(!new)>(g: Graph<V>, s: V, dist: map<V, Dist>, pq: set<Entry<V>>,
                             S: set<V>, u: V, du: real, S': set<V>)
    requires NonNegative(g) && Queued(dist, S, pq) && Relaxed(g, dist, S) && Lower(g, s, dist, S)
    requires s in dist && dist[s] == Fin(0.0)
    requires Entry(u, du) in pq && (forall e | e in pq :: du <= e.dist) && u !in S
    requires u in dist && dist[u] == Fin(du) && S' == S + {u}
    ensures Lower(g, s, dist, S')
  {
    forall p | IsWalk(g, p) && p[0] == s && p[|p| - 1] in S'
      ensures p[|p| - 1] in dist && dist[p[|p| - 1]].Fin? && dist[p[|p| - 1]].d <= WalkWeight(g, p)
    {
      if p[|p| - 1] == u {
        PopLower(g, s, dist, pq, S, u, du, p);
      }
    }
  }

  lemma SettleTree<V>(g: Graph<V>, s: V, dist: map<V, Dist>, pred: map<V, V>, S: set<V>, rank: map<V, nat>,
                      u: V, S': set<V>, rank': map<V, nat>)
    requires Tree(g, s, dist, pred, S, rank) && u !in S
    requires S' == S + {u} && rank' == rank[u := |S|]
    ensures Tree(g, s, dist, pred, S', rank')
  {
  }

  /** An entry out of `u` that does not improve the distance of its target leaves the state as it is. */
  lemma KeepStep<V(!new)>(g: Graph<V>, s: V, u: V, du: real, todo: set<V>, st: State<V>,
                          S0: set<V>, S: set<V>, rank: map<V, nat>, v: V, todo': set<V>)
    requires Inner(g, s, u, du, todo, st, S0, S, rank)
    requires v in todo && v in st.dist && !Below(du + g.adj[u][v], st.dist[v]) && todo' == todo - {v}
    ensures Inner(g, s, u, du, todo', st, S0, S, rank)
  {
    assert Done(g, st.dist, u, du, todo');
  }

  /** An entry out of `u` that improves the distance of its target: record, queue, and set the predecessor. */
  lemma RelaxStep<V(!new)>(g: Graph<V>, s: V, u: V, du: real, todo: set<V>, st: State<V>,
                           S0: set<V>, S: set<V>, rank: map<V, nat>, v: V, nd: real, todo': set<V>, st': State<V>)
    requires NonNegative(g) && Inner(g, s, u, du, todo, st, S0, S, rank)
    requires v in todo && v in st.dist && nd == du + g.adj[u][v] && Below(nd, st.dist[v]) && Reachable(g, s, v)
    requires todo' == todo - {v} && st' == State(st.dist[v := Fin(nd)], st.pred[v := u], st.pq + {Entry(v, nd)})
    ensures Inner(g, s, u, du, todo', st', S0, S, rank)
  {
    RelaxQueue(g, u, du, todo, st, S0, S, v, nd, todo', st');
    RelaxPaths(g, s, u, du, st, S, rank, v, nd, st');
  }

  /** A node whose distance can still improve past `du` is not settled. */
  lemma RelaxUnsettled<V>(dist: map<V, Dist>, S: set<V>, du: real, v: V, nd: real)
    requires Capped(dist, S, du) && v in dist && Below(nd, dist[v]) && du <= nd
    ensures v !in S
  {
  }

  /**
   * An entry out of `u` that improves the distance of its target: the queue side. The target
   * cannot be settled, since its distance is about to drop below the last one settled.
   */
  lemma RelaxQueue<V>(g: Graph<V>, u: V, du: real, todo: set<V>, st: State<V>, S0: set<V>, S: set<V>,
                      v: V, nd: real, todo': set<V>, st': State<V>)
    requires NonNegative(g) && Frontier(st, S, du) && Relaxed(g, st.dist, S0) && Done(g, st.dist, u, du, todo)
    requires S == S0 + {u} && v in st.dist && v in g.adj[u] && nd == du + g.adj[u][v] && Below(nd, st.dist[v])
    requires todo' == todo - {v} && st' == State(st.dist[v := Fin(nd)], st.pred[v := u], st.pq + {Entry(v, nd)})
    ensures v !in S && Frontier(st', S, du) && Relaxed(g, st'.dist, S0) && Done(g, st'.dist, u, du, todo')
  {
    assert g.adj[u][v] >= 0.0;
    RelaxUnsettled(st.dist, S, du, v, nd);
    RelaxQueued(st.dist, S, st.pq, v, nd, st'.dist, st'.pq);
    RelaxCapped(st.dist, S, st.pq, du, v, nd, st'.dist, st'.pq);
    RelaxRelaxed(g, st.dist, S0, v, nd, st'.dist);
    RelaxDone(g, st.dist, u, du, todo, v, nd, todo', st'.dist);
  }

  /** The path side of the same relaxation: `u` becomes the predecessor of the target. */
  lemma RelaxPaths<V(!new)>(g: Graph<V>, s: V, u: V, du: real, st: State<V>, S: set<V>, rank: map<V, nat>,
                            v: V, nd: real, st': State<V>)
    requires NonNegative(g) && Paths(g, s, st, S, rank) && u in S && u in g.adj && u in st.dist && st.dist[u] == Fin(du)
    requires v in g.adj[u] && v in st.dist && v !in S && Below(nd, st.dist[v]) && Reachable(g, s, v)
    requires nd == du + g.adj[u][v] && st'.dist == st.dist[v := Fin(nd)] && st'.pred == st.pred[v := u]
    ensures Paths(g, s, st', S, rank)
  {
    assert Edge(g, u, v) && g.adj[u][v] >= 0.0;
    assert du >= 0.0;
    assert s != v;
    RelaxLower(g, s, st.dist, S, v, nd, st'.dist);
    RelaxTree(g, s, st.dist, st.pred, S, rank, u, du, v, nd, st'.dist, st'.pred);
    RelaxReached(g, s, st.dist, v, nd, st'.dist);
  }

  lemma RelaxQueued<V>(dist: map<V, Dist>, S: set<V>, pq: set<Entry<V>>, v: V, nd: real,
                       dist': map<V, Dist>, pq': set<Entry<V>>)
    requires Queued(dist, S, pq) && v in dist && v !in S && Below(nd, dist[v])
    requires dist' == dist[v := Fin(nd)] && pq' == pq + {Entry(v, nd)}
    ensures Queued(dist', S, pq')
  {
  }

  lemma RelaxCapped<V>(dist: map<V, Dist>, S: set<V>, pq: set<Entry<V>>, du: real, v: V, nd: real,
                       dist': map<V, Dist>, pq': set<Entry<V>>)
    requires Capped(dist, S, du) && Floor(pq, du) && v !in S && du <= nd
    requires dist' == dist[v := Fin(nd)] && pq' == pq + {Entry(v, nd)}
    ensures Capped(dist', S, du) && Floor(pq', du)
  {
  }

  lemma RelaxRelaxed<V>(g: Graph<V>, dist: map<V, Dist>, S0: set<V>, v: V, nd: real, dist': map<V, Dist>)
    requires Relaxed(g, dist, S0) && v in dist && v !in S0 && Below(nd, dist[v]) && dist' == dist[v := Fin(nd)]
    ensures Relaxed(g, dist', S0)
  {
  }

  lemma RelaxDone<V>(g: Graph<V>, dist: map<V, Dist>, u: V, du: real, todo: set<V>, v: V, nd: real, todo': set<V>,
                     dist': map<V, Dist>)
    requires Done(g, dist, u, du, todo) && v in g.adj[u] && nd == du + g.adj[u][v] && todo' == todo - {v}
    requires dist' == dist[v := Fin(nd)]
    ensures Done(g, dist', u, du, todo')
  {
  }

  lemma RelaxLower<V(!new)>(g: Graph<V>, s: V, dist: map<V, Dist>, S: set<V>, v: V, nd: real, dist': map<V, Dist>)
    requires Lower(g, s, dist, S) && v !in S && dist' == dist[v := Fin(nd)]
    ensures Lower(g, s, dist', S)
  {
  }

  lemma RelaxTree<V>(g: Graph<V>, s: V, dist: map<V, Dist>, pred: map<V, V>, S: set<V>, rank: map<V, nat>,
                     u: V, du: real, v: V, nd: real, dist': map<V, Dist>, pred': map<V, V>)
    requires Tree(g, s, dist, pred, S, rank) && u in S && u in dist && dist[u] == Fin(du)
    requires Edge(g, u, v) && v in dist && v !in S && v != s && nd == du + g.adj[u][v]
    requires dist' == dist[v := Fin(nd)] && pred' == pred[v := u]
    ensures Tree(g, s, dist', pred', S, rank)
  {
    forall t | t in pred'
      ensures && t in dist' && dist'[t].Fin? && pred'[t] in dist' && dist'[pred'[t]].Fin?
              && Edge(g, pred'[t], t) && dist'[t].d == dist'[pred'[t]].d + g.adj[pred'[t]][t]
    {
      if t != v {
        assert pred[t] in S;
      }
    }
  }

  lemma RelaxReached<V>(g: Graph<V>, s: V, dist: map<V, Dist>, v: V, nd: real, dist': map<V, Dist>)
    requires Reached(g, s, dist) && Reachable(g, s, v) && nd >= 0.0 && dist' == dist[v := Fin(nd)]
    ensures Reached(g, s, dist')
  {
  }

  /** Once every entry out of `u` is relaxed, `u` joins the nodes the invariant holds relaxed. */
  lemma InnerDone<V(!new)>(g: Graph<V>, s: V, u: V, du: real, st: State<V>, S0: set<V>, S: set<V>, rank: map<V, nat>)
    requires Inner(g, s, u, du, {}, st, S0, S, rank)
    ensures Inv(g, s, st, S, rank, du)
  {
    RelaxedJoin(g, st.dist, S0, u, du, S);
  }

  lemma RelaxedJoin<V>(g: Graph<V>, dist: map<V, Dist>, S0: set<V>, u: V, du: real, S: set<V>)
    requires Relaxed(g, dist, S0) && Done(g, dist, u, du, {}) && u in dist && dist[u] == Fin(du) && S == S0 + {u}
    ensures Relaxed(g, dist, S)
  {
  }

  /** With the queue empty, every finite distance is settled, and the invariant yields the result's properties. */
  lemma InvFinal<V(!new)>(g: Graph<V>, s: V, st: State<V>, S: set<V>, rank: map<V, nat>, top: real)
    requires Inv(g, s, st, S, rank, top) && st.pq == {}
    ensures Solves(g, s, ShortestPaths(s, st.dist, st.pred), rank)
  {
    var dist, pred := st.dist, st.pred;
    forall t | t in dist && dist[t].Fin? ensures t in S {
      assert Entry(t, dist[t].d) !in {};
    }
    forall t | t in dist ensures dist[t].Inf? <==> !Reachable(g, s, t) {
      if Reachable(g, s, t) {
        var k: nat :| Within(g, s, t, k, {});
        FiniteWithin(g, s, dist, S, t, k);
      }
    }
    forall p | IsWalk(g, p) && p[0] == s && p[|p| - 1] in dist && dist[p[|p| - 1]].Fin?
      ensures dist[p[|p| - 1]].d <= WalkWeight(g, p)
    {
      assert p[|p| - 1] in S;
    }
  }

  /** Every node reached from the source over settled, relaxed nodes has a finite distance. */
  lemma {:induction false} FiniteWithin<V>(g: Graph<V>, s: V, dist: map<V, Dist>, S: set<V>, t: V, k: nat)
    requires s in dist && dist[s].Fin? && Relaxed(g, dist, S)
    requires forall x | x in dist && dist[x].Fin? :: x in S
    requires Within(g, s, t, k, {})
    ensures t in dist && dist[t].Fin?
    decreases k
  {
    if t != s {
      var y := WithinBack(g, s, t, k, {});
      FiniteWithin(g, s, dist, S, y, k - 1);
      assert y in S && Edge(g, y, t);
    }
  }

  /**
   * execute: an absent source is an invalid argument; otherwise every vertex gets its
   * shortest distance from the source, infinity when it is not reached, and a predecessor
   * on a shortest walk.
   */
  method Execute<V(!new)>(g: Graph<V>, source: V) returns (r: Outcome<ShortestPaths<V>>, ghost rank: map<V, nat>)
    requires source in g.adj ==> NonNegative(g) && NoDangling(g, source)
    ensures r.IllegalArgument? <==> source !in g.adj
    ensures r.Ok? ==> Solves(g, source, r.value, rank)
  {
    rank := map[];
    if source !in g.adj {
      return IllegalArgument, rank;
    }
    var dist, pq := InitializeDistances(g, source);
    var st := State(dist, map[], pq);
    ghost var S: set<V> := {};
    ghost var top := 0.0;
    InvInit(g, source, dist, pq);
    while st.pq != {}
      invariant Inv(g, source, st, S, rank, top)
      decreases |g.adj.Keys - S|, |st.pq|
    {
      st, S, rank, top := Round(g, source, st, S, rank, top);
    }
    InvFinal(g, source, st, S, rank, top);
    r := Ok(ShortestPaths(source, st.dist, st.pred));
  }

  /** Polling an entry shrinks the queue. */
  lemma Removed<T>(A: set<T>, x: T)
    requires x in A
    ensures |A - {x}| < |A|
  {
    assert A == (A - {x}) + {x};
  }

  /** Settling a vertex not settled before leaves fewer vertices unsettled. */
  lemma Shrinks<V>(K: set<V>, S: set<V>, u: V)
    requires u in K && u !in S
    ensures |K - (S + {u})| < |K - S|
  {
    assert K - S == (K - (S + {u})) + {u};
  }

  /**
   * One round of the main loop: poll an entry of least distance; skip it when stale, otherwise
   * settle its node and relax the entries out of it. Either a node is settled or the queue shrinks.
   */
  method Round<V(!new)>(g: Graph<V>, source: V, st: State<V>, ghost S: set<V>, ghost rank: map<V, nat>, ghost top: real)
    returns (st': State<V>, ghost S': set<V>, ghost rank': map<V, nat>, ghost top': real)
    requires NonNegative(g) && NoDangling(g, source)
    requires st.pq != {} && Inv(g, source, st, S, rank, top)
    ensures Inv(g, source, st', S', rank', top')
    ensures NoRise(st.dist, st'.dist) && PredKept(st.dist, st.pred, st'.dist, st'.pred)
    ensures |g.adj.Keys - S'| < |g.adj.Keys - S| || (S' == S && |st'.pq| < |st.pq|)
  {
    ghost var m := LeastEntry(st.pq);
    var current :| current in st.pq && forall e | e in st.pq :: current.dist <= e.dist;
    var u := current.node;
    if current.dist > st.dist[u].d {
      st' := st.(pq := st.pq - {current});
      NoRiseRefl(st.dist);
      PredKeptRefl(st.dist, st.pred);
      StaleStep(g, source, st, S, rank, top, current, st');
      S', rank', top' := S, rank, top;
    } else {
      assert current == Entry(u, current.dist);
      st', S', rank' := Settle(g, source, st, S, rank, top, u, current.dist);
      top' := current.dist;
    }
  }

  /** Settling the node `u` of a least entry that is not stale, then relaxing the entries out of it. */
  method Settle<V(!new)>(g: Graph<V>, source: V, st: State<V>, ghost S: set<V>, ghost rank: map<V, nat>, ghost top: real,
                         u: V, du: real)
    returns (st': State<V>, ghost S': set<V>, ghost rank': map<V, nat>)
    requires NonNegative(g) && NoDangling(g, source) && Inv(g, source, st, S, rank, top)
    requires Entry(u, du) in st.pq && (forall e | e in st.pq :: du <= e.dist) && u in st.dist && st.dist[u] == Fin(du)
    ensures Inv(g, source, st', S', rank', du)
    ensures NoRise(st.dist, st'.dist) && PredKept(st.dist, st.pred, st'.dist, st'.pred)
    ensures |g.adj.Keys - S'| < |g.adj.Keys - S|
  {
    S' := S + {u};
    rank' := rank[u := |S|];
    st' := st.(pq := st.pq - {Entry(u, du)});
    SettleStep(g, source, st, S, rank, top, u, du, st', S', rank');
    Shrinks(g.adj.Keys, S, u);
    st' := RelaxNeighbors(g, source, u, du, st', S, S', rank');
  }

  /**
   * The loop over the entries out of the node `u` just settled at distance `du`: every
   * neighbour whose distance through `u` is smaller gets that distance, `u` as predecessor,
   * and a queue entry.
   */
  method RelaxNeighbors<V(!new)>(g: Graph<V>, source: V, u: V, ghost du: real, st: State<V>,
                                 ghost S0: set<V>, ghost S: set<V>, ghost rank: map<V, nat>)
    returns (st': State<V>)
    requires NonNegative(g) && NoDangling(g, source)
    requires u in g.adj && Inner(g, source, u, du, g.adj[u].Keys, st, S0, S, rank)
    ensures Inv(g, source, st', S, rank, du)
    ensures NoRise(st.dist, st'.dist) && PredKept(st.dist, st.pred, st'.dist, st'.pred)
  {
    var dist, pred, pq := st.dist, st.pred, st.pq;
    var neighbors := g.adj[u];
    var todo := neighbors.Keys;
    PredKeptRefl(dist, pred);
    while todo != {}
      invariant Inner(g, source, u, du, todo, State(dist, pred, pq), S0, S, rank)
      invariant NoRise(st.dist, dist) && PredKept(st.dist, st.pred, dist, pred)
      decreases |todo|
    {
      var v :| v in todo;
      var weight := neighbors[v];
      ReachableStep(g, source, u, v);
      assert v in dist by {
        assert v in Nodes(g);
      }
      var newDistance := dist[u].d + weight;
      ghost var todo0 := todo;
      todo := todo - {v};
      if Below(newDistance, dist[v]) {
        ghost var st0 := State(dist, pred, pq);
        NoRiseStep(st.dist, dist, v, newDistance);
        PredKeptStep(st.dist, st.pred, dist, pred, v, newDistance, u);
        dist := dist[v := Fin(newDistance)];
        pred := pred[v := u];
        pq := pq + {Entry(v, newDistance)};
        RelaxStep(g, source, u, du, todo0, st0, S0, S, rank, v, newDistance, todo, State(dist, pred, pq));
      } else {
        KeepStep(g, source, u, du, todo0, State(dist, pred, pq), S0, S, rank, v, todo);
      }
    }
    st' := State(dist, pred, pq);
    InnerDone(g, source, u, du, st', S0, S, rank);
  }

  /** getDistanceTo: the recorded distance, infinity for a node without one. */
  function DistanceTo<V>(sp: ShortestPaths<V>, target: V): Dist {
    if target in sp.distances then sp.distances[target] else Inf
  }

  /**
   * On the result of execute, getDistanceTo is infinite exactly for the nodes not reached,
   * and a finite answer is no heavier than any walk from the source.
   */
  lemma DistanceIsShortest<V(!new)>(g: Graph<V>, s: V, sp: ShortestPaths<V>, rank: map<V, nat>, t: V, p: seq<V>)
    requires Solves(g, s, sp, rank) && NoDangling(g, s)
    ensures DistanceTo(sp, t).Inf? <==> !Reachable(g, s, t)
    ensures DistanceTo(sp, t).Fin? && IsWalk(g, p) && p[0] == s && p[|p| - 1] == t ==>
              DistanceTo(sp, t).d <= WalkWeight(g, p)
  {
    if Reachable(g, s, t) && t != s {
      var k: nat :| Within(g, s, t, k, {});
      WithinNode(g, s, t, k, {});
    }
  }

  /** `path` follows the predecessor map back from `target` to a node without a predecessor. */
  ghost predicate PredChain<V>(pred: map<V, V>, path: seq<V>, target: V) {
    && |path| >= 1 && path[|path| - 1] == target && path[0] !in pred
    && forall j | 1 <= j < |path| :: path[j] in pred && pred[path[j]] == path[j - 1]
  }

  /**
   * getPathTo: none for a node without a finite distance; otherwise the predecessor walk from
   * `target` back to a node without a predecessor, read front to back.
   */
  method PathTo<V>(sp: ShortestPaths<V>, target: V, ghost rank: map<V, nat>) returns (path: Option<seq<V>>)
    requires Ranked(sp.predecessors, rank)
    ensures path.None? <==> target !in sp.distances || sp.distances[target] == Inf
    ensures path.Some? ==> PredChain(sp.predecessors, path.value, target)
    ensures path.Some? && target !in sp.predecessors ==> path.value == [target]
  {
    if target !in sp.distances || sp.distances[target] == Inf {
      return None;
    }
    var current := target;
    var p := [target];
    while current in sp.predecessors
      invariant |p| >= 1 && p[|p| - 1] == target && p[0] == current
      invariant forall j | 1 <= j < |p| :: p[j] in sp.predecessors && sp.predecessors[p[j]] == p[j - 1]
      invariant target !in sp.predecessors ==> p == [target]
      decreases if current in rank then rank[current] else 0
    {
      var next := sp.predecessors[current];
      p := [next] + p;
      current := next;
    }
    path := Some(p);
  }

  /**
   * On the result of execute, the path read back to a reached node is a walk from the source
   * whose weight is that node's distance: a shortest walk.
   */
  lemma {:induction false} PathIsShortest<V(!new)>(g: Graph<V>, s: V, sp: ShortestPaths<V>, rank: map<V, nat>,
                                             path: seq<V>, t: V)
    requires Solves(g, s, sp, rank) && t in sp.distances && sp.distances[t].Fin?
    requires PredChain(sp.predecessors, path, t)
    ensures IsWalk(g, path) && path[0] == s && WalkWeight(g, path) == sp.distances[t].d
    decreases |path|
  {
    var dist, pred := sp.distances, sp.predecessors;
    if |path| == 1 {
      assert path[0] == t;
    } else {
      var n := |path|;
      var init := path[..n - 1];
      var x := path[n - 2];
      assert pred[t] == x;
      assert PredChain(pred, init, x) by {
        forall j | 1 <= j < |init| ensures init[j] in pred && pred[init[j]] == init[j - 1] {
          assert init[j] == path[j] && init[j - 1] == path[j - 1];
        }
      }
      PathIsShortest(g, s, sp, rank, init, x);
      assert IsWalk(g, path) by {
        forall i | 0 <= i < n - 1 ensures Edge(g, path[i], path[i + 1]) {
          if i < n - 2 {
            assert Edge(g, init[i], init[i + 1]);
          }
        }
      }
      WalkWeightLast(g, path, n);
      assert path[..n] == path;
    }
  }
}
