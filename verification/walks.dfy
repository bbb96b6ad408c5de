/**
 * Reachability through the neighbour maps, as the traversals and Dijkstra's algorithm meet it.
 * A traversal may step onto a dangling entry target (a directed edge added without creating
 * its destination): such a node is met, but has no neighbours of its own.
 */
module Walks {
  import opened AbstractGraph

  /** Everything a traversal can meet: the vertices and every entry target. */
  function Nodes<V>(g: Graph<V>): (ns: set<V>)
    ensures forall u, v | u in g.adj && v in g.adj[u] :: u in ns && v in ns
  {
    g.adj.Keys + (set u, v | u in g.adj && v in g.adj[u] :: v)
  }

  /** One stored entry `u -> v`, as getNeighbors of a vertex lists it. */
  predicate Edge<V>(g: Graph<V>, u: V, v: V) {
    u in g.adj && v in g.adj[u]
  }

  /**
   * `t` is reached from `s` over at most `k` entries, every node after `s` lying outside
   * `avoid` (the nodes a traversal has already marked when it starts from `s`).
   */
  ghost predicate Within<V>(g: Graph<V>, s: V, t: V, k: nat, avoid: set<V>) {
    if k == 0 then s == t
    else
      || Within(g, s, t, k - 1, avoid)
      || (t !in avoid && exists y | y in g.adj && t in g.adj[y] :: Within(g, s, y, k - 1, avoid))
  }

  ghost predicate ReachableAvoiding<V>(g: Graph<V>, s: V, t: V, avoid: set<V>) {
    exists k: nat :: Within(g, s, t, k, avoid)
  }

  ghost predicate Reachable<V>(g: Graph<V>, s: V, t: V) {
    ReachableAvoiding(g, s, t, {})
  }

  /** Every node reached from `s` without stepping onto `avoid`, `s` itself included. */
  ghost function Reach<V>(g: Graph<V>, s: V, avoid: set<V>): set<V> {
    set t | t in Nodes(g) + {s} && ReachableAvoiding(g, s, t, avoid)
  }

  lemma WithinMono<V>(g: Graph<V>, s: V, t: V, k: nat, m: nat, avoid: set<V>)
    requires k <= m && Within(g, s, t, k, avoid)
    ensures Within(g, s, t, m, avoid)
    decreases m
  {
    if k < m {
      WithinMono(g, s, t, k, m - 1, avoid);
    }
  }

  lemma WithinStep<V>(g: Graph<V>, s: V, y: V, t: V, k: nat, avoid: set<V>)
    requires Within(g, s, y, k, avoid) && Edge(g, y, t) && t !in avoid
    ensures Within(g, s, t, k + 1, avoid)
  {
  }

  /** A node other than the start, reached within `k`, has a predecessor reached within `k - 1`. */
  lemma {:induction false} WithinBack<V>(g: Graph<V>, s: V, t: V, k: nat, avoid: set<V>) returns (y: V)
    requires Within(g, s, t, k, avoid) && t != s
    ensures k > 0 && t !in avoid && Edge(g, y, t) && Within(g, s, y, k - 1, avoid)
  {
    if Within(g, s, t, k - 1, avoid) {
      y := WithinBack(g, s, t, k - 1, avoid);
      WithinMono(g, s, y, k - 2, k - 1, avoid);
    } else {
      y :| y in g.adj && t in g.adj[y] && Within(g, s, y, k - 1, avoid);
    }
  }

  /** A node reached from `s` is `s` or an entry target. */
  lemma WithinNode<V>(g: Graph<V>, s: V, t: V, k: nat, avoid: set<V>)
    requires Within(g, s, t, k, avoid)
    ensures t in Nodes(g) + {s}
  {
    if t != s {
      var y := WithinBack(g, s, t, k, avoid);
    }
  }

  /**
   * A set holding `s` whose every entry leads back into it or into `avoid` holds every node
   * reached from `s` avoiding `avoid`.
   */
  lemma {:induction false} ClosedHoldsWithin<V>(g: Graph<V>, s: V, avoid: set<V>, S: set<V>, t: V, k: nat)
    requires s in S
    requires forall x, y | x in S && Edge(g, x, y) :: y in S || y in avoid
    requires Within(g, s, t, k, avoid)
    ensures t in S
  {
    if t != s {
      var y := WithinBack(g, s, t, k, avoid);
      ClosedHoldsWithin(g, s, avoid, S, y, k - 1);
    }
  }

  lemma ClosedHoldsReach<V>(g: Graph<V>, s: V, avoid: set<V>, S: set<V>)
    requires s in S
    requires forall x, y | x in S && Edge(g, x, y) :: y in S || y in avoid
    ensures Reach(g, s, avoid) <= S
  {
    forall t | t in Reach(g, s, avoid) ensures t in S {
      var k: nat :| Within(g, s, t, k, avoid);
      ClosedHoldsWithin(g, s, avoid, S, t, k);
    }
  }

  /** A node reached, and its target through a further entry, are both in `Reach`. */
  lemma ReachStep<V>(g: Graph<V>, s: V, x: V, y: V, avoid: set<V>)
    requires ReachableAvoiding(g, s, x, avoid) && Edge(g, x, y) && y !in avoid
    ensures ReachableAvoiding(g, s, y, avoid) && y in Reach(g, s, avoid)
  {
    var k: nat :| Within(g, s, x, k, avoid);
    WithinStep(g, s, x, y, k, avoid);
    WithinNode(g, s, y, k + 1, avoid);
  }

  lemma ReachStart<V>(g: Graph<V>, s: V, avoid: set<V>)
    ensures ReachableAvoiding(g, s, s, avoid) && s in Reach(g, s, avoid)
  {
    assert Within(g, s, s, 0, avoid);
  }

  /** Every node reached other than the start lies outside `avoid`. */
  lemma ReachOutside<V>(g: Graph<V>, s: V, avoid: set<V>, t: V)
    requires t in Reach(g, s, avoid) && t != s
    ensures t !in avoid
  {
    var k: nat :| Within(g, s, t, k, avoid);
    var y := WithinBack(g, s, t, k, avoid);
  }

  /** A sequence of nodes each joined to the next by a stored entry. */
  ghost predicate IsWalk<V>(g: Graph<V>, p: seq<V>) {
    |p| >= 1 && forall i | 0 <= i < |p| - 1 :: Edge(g, p[i], p[i + 1])
  }

  /** The summed weight of the entries along a walk. */
  ghost function WalkWeight<V>(g: Graph<V>, p: seq<V>): real
    requires IsWalk(g, p)
    decreases |p|
  {
    if |p| == 1 then 0.0
    else
      assert Edge(g, p[|p| - 2], p[|p| - 1]);
      WalkWeight(g, p[..|p| - 1]) + g.adj[p[|p| - 2]][p[|p| - 1]]
  }

  /** A walk from `s` of `k` entries reaches its last node within `k`. */
  lemma {:induction false} WalkWithin<V>(g: Graph<V>, p: seq<V>)
    requires IsWalk(g, p)
    ensures Within(g, p[0], p[|p| - 1], |p| - 1, {})
    decreases |p|
  {
    if |p| > 1 {
      var q := p[..|p| - 1];
      assert IsWalk(g, q) by {
        forall i | 0 <= i < |q| - 1 ensures Edge(g, q[i], q[i + 1]) {
          assert Edge(g, p[i], p[i + 1]);
        }
      }
      WalkWithin(g, q);
      assert Edge(g, p[|p| - 2], p[|p| - 1]);
      WithinStep(g, p[0], q[|q| - 1], p[|p| - 1], |q| - 1, {});
    }
  }

  /** Every node reached within `k` is the end of a walk from `s` of at most `k` entries. */
  lemma {:induction false} WithinWalk<V>(g: Graph<V>, s: V, t: V, k: nat) returns (p: seq<V>)
    requires Within(g, s, t, k, {})
    ensures IsWalk(g, p) && p[0] == s && p[|p| - 1] == t && |p| <= k + 1
  {
    if t == s {
      p := [s];
    } else {
      var y := WithinBack(g, s, t, k, {});
      var q := WithinWalk(g, s, y, k - 1);
      p := q + [t];
      forall i | 0 <= i < |p| - 1 ensures Edge(g, p[i], p[i + 1]) {
        if i < |q| - 1 {
          assert p[i] == q[i] && p[i + 1] == q[i + 1];
        }
      }
    }
  }

  /** Reachability is exactly the existence of a walk. */
  lemma ReachableIffWalk<V>(g: Graph<V>, s: V, t: V)
    ensures Reachable(g, s, t) <==> exists p :: IsWalk(g, p) && p[0] == s && p[|p| - 1] == t
  {
    if Reachable(g, s, t) {
      var k: nat :| Within(g, s, t, k, {});
      var p := WithinWalk(g, s, t, k);
    }
    if p :| IsWalk(g, p) && p[0] == s && p[|p| - 1] == t {
      WalkWithin(g, p);
    }
  }

  /** Every entry from a node of `S` leads back into `S`. */
  ghost predicate ClosedUnder<V>(g: Graph<V>, S: set<V>) {
    forall a, b | a in S && a in g.adj && b in g.adj[a] :: b in S
  }

  /** Reaching `b` and then `c` reaches `c`, over the two counts of entries together. */
  lemma {:induction false} WithinTrans<V>(g: Graph<V>, a: V, b: V, c: V, k: nat, m: nat)
    requires Within(g, a, b, k, {}) && Within(g, b, c, m, {})
    ensures Within(g, a, c, k + m, {})
    decreases m
  {
    if c == b {
      WithinMono(g, a, b, k, k + m, {});
    } else {
      var y := WithinBack(g, b, c, m, {});
      WithinTrans(g, a, b, y, k, m - 1);
      WithinStep(g, a, y, c, k + m - 1, {});
    }
  }

  /** In a graph whose every entry is mirrored, reaching goes both ways. */
  lemma {:induction false} WithinSym<V>(g: Graph<V>, a: V, b: V, k: nat)
    requires Symmetric(g) && Within(g, a, b, k, {})
    ensures Within(g, b, a, k, {})
    decreases k
  {
    if b == a {
      WithinMono(g, a, a, 0, k, {});
    } else {
      var y := WithinBack(g, a, b, k, {});
      WithinSym(g, a, y, k - 1);
      assert Edge(g, b, y);
      WithinStep(g, b, b, y, 0, {});
      WithinTrans(g, b, y, a, 1, k - 1);
    }
  }

  lemma ReachableTrans<V>(g: Graph<V>, a: V, b: V, c: V)
    requires Reachable(g, a, b) && Reachable(g, b, c)
    ensures Reachable(g, a, c)
  {
    var k: nat :| Within(g, a, b, k, {});
    var m: nat :| Within(g, b, c, m, {});
    WithinTrans(g, a, b, c, k, m);
  }

  lemma ReachableSym<V>(g: Graph<V>, a: V, b: V)
    requires Symmetric(g) && Reachable(g, a, b)
    ensures Reachable(g, b, a)
  {
    var k: nat :| Within(g, a, b, k, {});
    WithinSym(g, a, b, k);
  }

  /**
   * In a mirrored graph, a set closed under entries that does not hold `h` is never entered
   * from `h`: so avoiding it, and `h` itself, loses nothing.
   */
  lemma {:induction false} WithinAvoidClosed<V>(g: Graph<V>, h: V, P: set<V>, t: V, k: nat)
    requires Symmetric(g) && ClosedUnder(g, P) && h !in P
    requires Within(g, h, t, k, {})
    ensures t !in P && Within(g, h, t, k, P + {h})
    decreases k
  {
    if t == h {
      WithinMono(g, h, h, 0, k, P + {h});
    } else {
      var y := WithinBack(g, h, t, k, {});
      WithinAvoidClosed(g, h, P, y, k - 1);
      assert Edge(g, t, y);
      WithinStep(g, h, y, t, k - 1, P + {h});
      WithinMono(g, h, t, k, k, P + {h});
    }
  }

  lemma ReachAvoidClosed<V>(g: Graph<V>, h: V, P: set<V>, t: V)
    requires Symmetric(g) && ClosedUnder(g, P) && h !in P
    ensures t in Reach(g, h, P + {h}) <==> t in Nodes(g) + {h} && Reachable(g, h, t)
  {
    if t in Reach(g, h, P + {h}) {
      var k: nat :| Within(g, h, t, k, P + {h});
      WithinUnavoid(g, h, t, k, P + {h});
    }
    if t in Nodes(g) + {h} && Reachable(g, h, t) {
      var k: nat :| Within(g, h, t, k, {});
      WithinAvoidClosed(g, h, P, t, k);
    }
  }

  /** Dropping the set to avoid keeps a node reached. */
  lemma {:induction false} WithinUnavoid<V>(g: Graph<V>, s: V, t: V, k: nat, avoid: set<V>)
    requires Within(g, s, t, k, avoid)
    ensures Within(g, s, t, k, {})
    decreases k
  {
    if k > 0 {
      if Within(g, s, t, k - 1, avoid) {
        WithinUnavoid(g, s, t, k - 1, avoid);
      } else {
        var y :| y in g.adj && t in g.adj[y] && Within(g, s, y, k - 1, avoid);
        WithinUnavoid(g, s, y, k - 1, avoid);
      }
    }
  }

  /** No stored weight is negative. */
  ghost predicate NonNegative<V>(g: Graph<V>) {
    forall u, v {:trigger g.adj[u][v]} | u in g.adj && v in g.adj[u] :: g.adj[u][v] >= 0.0
  }

  /** Every non-empty prefix of a walk is a walk. */
  lemma WalkPrefix<V>(g: Graph<V>, p: seq<V>, k: nat)
    requires IsWalk(g, p) && 1 <= k <= |p|
    ensures IsWalk(g, p[..k])
  {
    forall i | 0 <= i < k - 1 ensures Edge(g, p[..k][i], p[..k][i + 1]) {
      assert Edge(g, p[i], p[i + 1]);
    }
  }

  /** The prefix of `k` nodes weighs the prefix of `k - 1` nodes plus its last entry. */
  lemma WalkWeightLast<V>(g: Graph<V>, p: seq<V>, k: nat)
    requires IsWalk(g, p) && 2 <= k <= |p|
    ensures IsWalk(g, p[..k]) && IsWalk(g, p[..k - 1]) && Edge(g, p[k - 2], p[k - 1])
    ensures WalkWeight(g, p[..k]) == WalkWeight(g, p[..k - 1]) + g.adj[p[k - 2]][p[k - 1]]
  {
    WalkPrefix(g, p, k);
    WalkPrefix(g, p, k - 1);
    assert p[..k][..k - 1] == p[..k - 1];
    assert Edge(g, p[k - 2], p[k - 1]);
  }

  /** With no negative weight, no walk weighs below zero. */
  lemma {:induction false} WalkWeightNonNeg<V>(g: Graph<V>, p: seq<V>)
    requires NonNegative(g) && IsWalk(g, p)
    ensures WalkWeight(g, p) >= 0.0
    decreases |p|
  {
    if |p| >= 2 {
      WalkWeightLast(g, p, |p|);
      assert p[..|p|] == p;
      WalkWeightNonNeg(g, p[..|p| - 1]);
    }
  }

  /** With no negative weight, extending a walk never makes it lighter. */
  lemma {:induction false} WalkWeightPrefix<V>(g: Graph<V>, p: seq<V>, k: nat)
    requires NonNegative(g) && IsWalk(g, p) && 1 <= k <= |p|
    ensures IsWalk(g, p[..k]) && 0.0 <= WalkWeight(g, p[..k]) <= WalkWeight(g, p)
    decreases |p| - k
  {
    WalkPrefix(g, p, k);
    WalkWeightNonNeg(g, p[..k]);
    if k == |p| {
      assert p[..k] == p;
    } else {
      WalkWeightLast(g, p, k + 1);
      WalkWeightPrefix(g, p, k + 1);
    }
  }

  /** One more entry from a reached node reaches its target. */
  lemma ReachableStep<V>(g: Graph<V>, s: V, u: V, v: V)
    requires Reachable(g, s, u) && Edge(g, u, v)
    ensures Reachable(g, s, v)
  {
    var k: nat :| Within(g, s, u, k, {});
    WithinStep(g, s, u, v, k, {});
  }
}
