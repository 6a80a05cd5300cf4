/** The ConsistOf matcher: can the values and the matchers be paired off?  It asks whether LargestMatching
    returns as many edges as there are values. */
module ConsistOf {
  import opened Wrappers
  import opened Goraph
  import opened GoraphMatching
  import opened GoraphGrouped
  import GoraphCode

  /** Each value has a matcher of its own that accepts it. */
  ghost predicate Pairing<V, M>(values: seq<V>, matchers: seq<M>, accepts: (V, M) -> bool, f: seq<nat>) {
    && |f| == |values| == |matchers|
    && (forall i :: 0 <= i < |f| ==> f[i] < |matchers| && accepts(values[i], matchers[f[i]]))
    && (forall i, j :: 0 <= i < j < |f| ==> f[i] != f[j])
  }

  /** Values that a matcher has in common are in common to all matchers of either: no matcher overlaps another in
      part. */
  ghost predicate NoOverlap<V, M>(values: seq<V>, matchers: seq<M>, accepts: (V, M) -> bool) {
    forall i, j, k, l {:trigger accepts(values[i], matchers[k]), accepts(values[j], matchers[l])} ::
      0 <= i < |values| && 0 <= j < |values| && 0 <= k < |matchers| && 0 <= l < |matchers| &&
      accepts(values[i], matchers[k]) && accepts(values[i], matchers[l]) && accepts(values[j], matchers[l]) ==>
        accepts(values[j], matchers[k])
  }

  /** The graph built for the values and the matchers. */
  ghost predicate Joins<V, M>(values: seq<V>, matchers: seq<M>, accepts: (V, M) -> bool, g: Graph) {
    && WellFormed(g)
    && |g.left| == |values| && (forall i :: 0 <= i < |values| ==> g.left[i] == i)
    && |g.right| == |matchers| && (forall j :: 0 <= j < |matchers| ==> g.right[j] == |values| + j)
    && forall i, j :: 0 <= i < |values| && 0 <= j < |matchers| ==>
         (Edge(i, |values| + j) in g.edges <==> accepts(values[i], matchers[j]))
  }

  lemma EdgesJoin<V, M>(values: seq<V>, matchers: seq<M>, accepts: (V, M) -> bool, g: Graph, e: Edge)
    requires Joins(values, matchers, accepts, g) && e in ShapeOf(g).edges
    ensures 0 <= e.node1 < |values| <= e.node2 < |values| + |matchers|
    ensures accepts(values[e.node1], matchers[e.node2 - |values|])
  {
    var i :| 0 <= i < |g.left| && g.left[i] == e.node1;
    var j :| 0 <= j < |g.right| && g.right[j] == e.node2;
    assert Edge(i, |values| + j) in g.edges;
  }

  lemma NoOverlapIsGrouped<V, M>(values: seq<V>, matchers: seq<M>, accepts: (V, M) -> bool, g: Graph)
    requires Joins(values, matchers, accepts, g) && NoOverlap(values, matchers, accepts)
    ensures Grouped(ShapeOf(g))
  {
    var b, n := ShapeOf(g), |values|;
    forall e, f, h | e in b.edges && f in b.edges && h in b.edges && e.node1 == f.node1 && f.node2 == h.node2
      ensures Edge(h.node1, e.node2) in b.edges
    {
      EdgesJoin(values, matchers, accepts, g, e);
      EdgesJoin(values, matchers, accepts, g, f);
      EdgesJoin(values, matchers, accepts, g, h);
      assert accepts(values[h.node1], matchers[e.node2 - n]);
      assert Edge(h.node1, n + (e.node2 - n)) in g.edges;
    }
  }

  lemma PairingIsPerfect<V, M>(values: seq<V>, matchers: seq<M>, accepts: (V, M) -> bool, f: seq<nat>, g: Graph)
    requires Pairing(values, matchers, accepts, f) && Joins(values, matchers, accepts, g)
    ensures exists m :: Perfect(ShapeOf(g), m)
  {
    var n, left := |values|, ShapeOf(g).left;
    var m := set i | i in left :: Edge(i, n + f[i]);
    assert Matching(ShapeOf(g), m);
    InjectionSize(left, m, map i | i in left :: Edge(i, n + f[i]));
    LeftMatchingSize(ShapeOf(g), m);
    assert Perfect(ShapeOf(g), m);
  }

  /** A perfect matching pairs the values off. */
  lemma PerfectIsPairing<V, M>(values: seq<V>, matchers: seq<M>, accepts: (V, M) -> bool, g: Graph, m: set<Edge>)
    returns (f: seq<nat>)
    requires Joins(values, matchers, accepts, g) && |values| == |matchers| && Perfect(ShapeOf(g), m)
    ensures Pairing(values, matchers, accepts, f)
  {
    var n := |values|;
    CoversLeft(ShapeOf(g), m);
    forall i | 0 <= i < n ensures !Free(m, i) {
      assert g.left[i] in g.left;
    }
    forall i | 0 <= i < n ensures IsPartner(values, matchers, accepts, m, i, EdgeAt(m, i)) {
      EdgesJoin(values, matchers, accepts, g, EdgeAt(m, i));
    }
    f := seq(n, i requires 0 <= i < n => EdgeAt(m, i).node2 - n);
    forall i, j | 0 <= i < j < n ensures f[i] != f[j] {
      assert IsPartner(values, matchers, accepts, m, i, EdgeAt(m, i));
      assert IsPartner(values, matchers, accepts, m, j, EdgeAt(m, j));
    }
    forall i | 0 <= i < n ensures f[i] < n && accepts(values[i], matchers[f[i]]) {
      assert IsPartner(values, matchers, accepts, m, i, EdgeAt(m, i));
    }
  }

  /** The edge at a value leads to a matcher that accepts it. */
  ghost predicate IsPartner<V, M>(values: seq<V>, matchers: seq<M>, accepts: (V, M) -> bool, m: set<Edge>,
                                  i: nat, e: Edge)
    requires i < |values|
  {
    && e in m && e.node1 == i && 0 <= e.node2 - |values| < |matchers|
    && accepts(values[i], matchers[e.node2 - |values|])
  }

  /** Whatever the matchers are, values that can be paired off with them are accepted; if no matchers overlap in
      part, only those are. */
  method Match<V, M>(values: seq<V>, matchers: seq<M>, accepts: (V, M) -> bool) returns (success: bool)
    ensures (exists f :: Pairing(values, matchers, accepts, f)) ==> success
    ensures NoOverlap(values, matchers, accepts) ==> (success <==> exists f :: Pairing(values, matchers, accepts, f))
    ensures |values| != |matchers| ==> !success
  {
    if |values| != |matchers| {
      return false;
    }
    var r := GoraphCode.NewBipartiteGraph(values, matchers, (v, m) => Some(accepts(v, m)));
    var matching := GoraphCode.LargestMatching(r.value);
    success := |matching| == |values|;
    DistinctSize(matching);
    Decides(values, matchers, accepts, r.value);
  }

  /** What the number of edges returned says. */
  lemma Decides<V, M>(values: seq<V>, matchers: seq<M>, accepts: (V, M) -> bool, g: Graph)
    requires Joins(values, matchers, accepts, g) && |values| == |matchers|
    ensures (exists f :: Pairing(values, matchers, accepts, f)) ==> |Largest(g, {})| == |values|
    ensures NoOverlap(values, matchers, accepts) && |Largest(g, {})| == |values| ==>
      exists f :: Pairing(values, matchers, accepts, f)
  {
    DistinctSize(g.left);
    if f :| Pairing(values, matchers, accepts, f) {
      PairingIsPerfect(values, matchers, accepts, f, g);
      PairingIsFound(g);
    }
    if NoOverlap(values, matchers, accepts) && |Largest(g, {})| == |values| {
      NoOverlapIsGrouped(values, matchers, accepts, g);
      GroupedIsMatched(g);
      var m :| Perfect(ShapeOf(g), m);
      var f := PerfectIsPairing(values, matchers, accepts, g, m);
    }
  }

  /** Elements that are no matchers are compared by equality; then exactly the permutations are accepted. */
  method MatchEqual<T(==)>(values: seq<T>, elements: seq<T>) returns (success: bool)
    ensures success <==> multiset(values) == multiset(elements)
  {
    if |values| != |elements| {
      assert |multiset(values)| != |multiset(elements)|;
      return false;
    }
    var r := GoraphCode.NewBipartiteGraph(values, elements, (v, e) => Some(v == e));
    var matching := GoraphCode.LargestMatching(r.value);
    AcceptsPermutations(values, elements, r.value);
    DistinctSize(matching);
    success := |matching| == |values|;
  }
}
