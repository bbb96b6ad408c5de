/** Cardinalities of the entry sets touching one vertex, used to account for edge counters. */
module Counting {

  /** The entries leaving `v` towards each vertex of `ns`. */
  function OutPairs<V>(v: V, ns: set<V>): set<(V, V)> {
    set n | n in ns :: (v, n)
  }

  /** The entries arriving at `v` from each vertex of `ns`. */
  function InPairs<V>(v: V, ns: set<V>): set<(V, V)> {
    set n | n in ns :: (n, v)
  }

  lemma {:induction false} OutPairsCard<V>(v: V, ns: set<V>)
    ensures |OutPairs(v, ns)| == |ns|
    decreases |ns|
  {
    if ns != {} {
      var x :| x in ns;
      var rest := ns - {x};
      OutPairsCard(v, rest);
      assert OutPairs(v, ns) == OutPairs(v, rest) + {(v, x)};
      assert (v, x) !in OutPairs(v, rest);
    } else {
      assert OutPairs(v, ns) == {};
    }
  }

  lemma {:induction false} InPairsCard<V>(v: V, ns: set<V>)
    ensures |InPairs(v, ns)| == |ns|
    decreases |ns|
  {
    if ns != {} {
      var x :| x in ns;
      var rest := ns - {x};
      InPairsCard(v, rest);
      assert InPairs(v, ns) == InPairs(v, rest) + {(x, v)};
      assert (x, v) !in InPairs(v, rest);
    } else {
      assert InPairs(v, ns) == {};
    }
  }

  /** The ordered pairs of distinct elements of `vs`: every entry a graph on `vs` can hold besides self-loops. */
  function DistinctPairs<V>(vs: set<V>): set<(V, V)> {
    set a, b | a in vs && b in vs && a != b :: (a, b)
  }

  /** The distinct pairs of `vs` are those avoiding `x`, those leaving `x` and those arriving at it. */
  lemma PairsSplit<V>(vs: set<V>, x: V)
    requires x in vs
    ensures DistinctPairs(vs) == DistinctPairs(vs - {x}) + OutPairs(x, vs - {x}) + InPairs(x, vs - {x})
  {
    var rest := vs - {x};
    forall p | p in DistinctPairs(vs) ensures p in DistinctPairs(rest) + OutPairs(x, rest) + InPairs(x, rest) {
      if p.0 == x {
        assert p == (x, p.1) && p.1 in rest;
      } else if p.1 == x {
        assert p == (p.0, x) && p.0 in rest;
      } else {
        assert p.0 in rest && p.1 in rest;
      }
    }
  }

  /** A subset is no larger than its superset. */
  lemma {:induction false} SubsetCard<T>(a: set<T>, b: set<T>)
    requires a <= b
    ensures |a| <= |b|
    decreases |a|
  {
    if a != {} {
      var x :| x in a;
      SubsetCard(a - {x}, b - {x});
    }
  }

  lemma DisjointUnionCard<T>(a: set<T>, b: set<T>, c: set<T>)
    requires a !! b && a !! c && b !! c
    ensures |a + b + c| == |a| + |b| + |c|
  {
    assert |a + b| == |a| + |b|;
  }

  /** `n` elements make `n * (n - 1)` ordered pairs of distinct elements. */
  lemma {:induction false} DistinctPairsCard<V>(vs: set<V>)
    ensures |DistinctPairs(vs)| == |vs| * (|vs| - 1)
    decreases |vs|
  {
    if vs != {} {
      var x :| x in vs;
      var rest := vs - {x};
      DistinctPairsCard(rest);
      OutPairsCard(x, rest);
      InPairsCard(x, rest);
      PairsSplit(vs, x);
      var D, O, I := DistinctPairs(rest), OutPairs(x, rest), InPairs(x, rest);
      assert D !! O && D !! I && O !! I;
      DisjointUnionCard(D, O, I);
      var n := |rest|;
      assert |vs| == n + 1;
      assert n * (n - 1) + 2 * n == (n + 1) * n;
    } else {
      assert DistinctPairs(vs) == {};
    }
  }
}
