/** Graphs that fall into groups: nodes that share a neighbour share all of them, as when values are
    compared with one another.  There the first phase already gives a largest matching, and ConsistOf
    accepts exactly the permutations. */
module GoraphGrouped {
  import opened Sequences
  import opened Goraph
  import opened GoraphMatching

  ghost predicate Grouped(b: Shape) {
    forall e, f, g :: e in b.edges && f in b.edges && g in b.edges && e.node1 == f.node1 && f.node2 == g.node2 ==>
      Edge(g.node1, e.node2) in b.edges
  }

  // ------------------------------------------------------- the first phase

  /** From no edges at all, a path is a single edge. */
  lemma FirstPathsAreEdges(b: Shape, p: seq<Node>)
    requires Augmenting(b, {}, p)
    ensures |p| == 2 && Edge(p[1], p[0]) in b.edges && PathEdges(p) == {Edge(p[1], p[0])}
  {
    if |p| > 2 {
      TailLinks(b, {}, p);
      assert false;
    }
    assert p[1..] == [p[1]];
  }

  ghost predicate AllEdges(paths: seq<seq<Node>>) {
    forall i :: 0 <= i < |paths| ==> |paths[i]| == 2 && PathEdges(paths[i]) == {Edge(paths[i][1], paths[i][0])}
  }

  ghost predicate Apart(m: set<Edge>, nodes: set<Node>) {
    forall e :: e in m ==> e.node1 !in nodes && e.node2 !in nodes
  }

  /** Flipping disjoint single edges covers their ends and uncovers nothing. */
  lemma {:induction false} FlipCovers(m: set<Edge>, paths: seq<seq<Node>>, x: Node)
    requires AllEdges(paths) && Disjoint(paths) && Apart(m, NodesIn(paths))
    requires x in NodesIn(paths) || !Free(m, x)
    ensures !Free(Flip(m, paths), x)
    decreases |paths|
  {
    if paths != [] {
      var p := paths[0];
      var e := Edge(p[1], p[0]);
      assert p[0] in Elems(p) && p[1] in Elems(p);
      assert SymDiff(m, PathEdges(p)) == m + {e};
      if x in p {
        assert e in m + {e};
      }
      FlipCovers(m + {e}, paths[1..], x);
    }
  }

  /** The first guide has two layers, and the second holds every right node with an edge. */
  lemma FirstLayers(g: Graph, e: Edge)
    requires WellFormed(g) && e in ShapeOf(g).edges
    ensures |Layers(g, {})| == 2 && Layers(g, {})[0] == g.left && e.node2 in Layers(g, {})[1]
  {
    var b := ShapeOf(g);
    FreeOfNothing(g.left);
    assert e.node1 in g.left && g.left != [];
    var next := Expand(b, {}, 1, g.left, g.right, Elems(g.left));
    ExpandIs(b, {}, 1, g.left, g.right, Elems(g.left));
    assert Link(b, {}, 1, e.node2, e.node1);
    assert LinkedFrom(b, {}, 1, Elems(g.left), e.node2);
    assert e.node2 in Elems(next);
    assert Free({}, e.node2) && AnyFree({}, next);
  }

  /** After the first phase every edge of the graph has an end that is taken. */
  lemma FirstPhaseIsMaximal(g: Graph, e: Edge)
    requires WellFormed(g) && e in ShapeOf(g).edges
    ensures var m := Flip({}, Paths(g, {})); !Free(m, e.node1) || !Free(m, e.node2)
  {
    var b, ps := ShapeOf(g), Paths(g, {});
    FirstLayers(g, e);
    var depth := PathsIs(g, {});
    forall i | 0 <= i < |ps| ensures |ps[i]| == 2 && PathEdges(ps[i]) == {Edge(ps[i][1], ps[i][0])} {
      FirstPathsAreEdges(b, ps[i]);
    }
    var p := [e.node2, e.node1];
    if e.node1 in NodesIn(ps) {
      FlipCovers({}, ps, e.node1);
    } else {
      FirstPathFrom(g, depth, e, NodesIn(ps));
      FlipCovers({}, ps, e.node2);
    }
  }

  lemma FirstPathFrom(g: Graph, depth: map<Node, nat>, e: Edge, used: set<Node>)
    requires WellFormed(g) && e in ShapeOf(g).edges && e.node1 !in used
    requires |Layers(g, {})| == 2 && Layers(g, {})[0] == g.left && e.node2 in Layers(g, {})[1]
    requires Guide(ShapeOf(g), {}, Layers(g, {}), depth)
    ensures PathFrom(ShapeOf(g), {}, depth, used, e.node2, [e.node2, e.node1])
  {
    var b, layers, p := ShapeOf(g), Layers(g, {}), [e.node2, e.node1];
    assert LayerIs(layers[0], 0, depth) && LayerIs(layers[1], 1, depth);
    assert e.node1 in Elems(layers[0]) && e.node2 in Elems(layers[1]);
    assert p[1..] == [e.node1];
    assert Descends(b, {}, p[1..]) && Link(b, {}, 1, p[0], p[1]);
  }

  // --------------------------------------------------- one phase is enough

  /** In a grouped graph an alternating path has a shortcut: its ends are joined. */
  lemma {:induction false} Shortcut(b: Shape, m: set<Edge>, p: seq<Node>)
    requires Grouped(b) && |p| >= 2 && |p| % 2 == 0 && Descends(b, m, p)
    ensures Edge(p[|p|-1], p[0]) in b.edges
    decreases |p|
  {
    if |p| > 2 {
      var q := p[2..];
      TailLinks(b, m, p);
      Shortcut(b, m, q);
      var e, f, h := Edge(p[1], p[0]), Edge(p[1], p[2]), Edge(q[|q|-1], q[0]);
      assert f in b.edges by { assert p[1..][1] == p[2] && Link(b, m, |p| - 2, p[1], p[2]); }
      assert e in b.edges && h in b.edges && e.node1 == f.node1 && f.node2 == h.node2;
    }
  }

  /** Wherever the layers of a grouped graph lead, there is an edge with both ends free. */
  lemma FreeEnds(b: Shape, m: set<Edge>, layers: seq<seq<Node>>, depth: map<Node, nat>) returns (e: Edge)
    requires Grouped(b) && Guide(b, m, layers, depth)
    ensures e in b.edges && Free(m, e.node1) && Free(m, e.node2)
  {
    var n := |layers|;
    var x :| x in layers[n-1] && Free(m, x);
    assert LayerIs(layers[n-1], n - 1, depth);
    assert x in Elems(layers[n-1]);
    var p := PathExists(b, m, depth, n, x);
    FromIsAugmenting(b, m, depth, n, x, p);
    Shortcut(b, m, p);
    e := Edge(p[n-1], x);
  }

  /** In a grouped graph there is nothing left to augment after the first phase. */
  lemma OnePhaseIsEnough(g: Graph)
    requires WellFormed(g) && Grouped(ShapeOf(g))
    ensures Paths(g, Flip({}, Paths(g, {}))) == []
  {
    var m := Flip({}, Paths(g, {}));
    var depth := PathsIs(g, m);
    if Paths(g, m) != [] {
      var e := FreeEnds(ShapeOf(g), m, Layers(g, m), depth);
      FirstPhaseIsMaximal(g, e);
      assert false;
    }
  }

  /** In a grouped graph no phase starts at a taken node: the result is a largest matching that leaves no
      edge with both ends free, and it covers the left side exactly if some matching does. */
  lemma GroupedIsMatched(g: Graph)
    requires WellFormed(g) && Grouped(ShapeOf(g))
    ensures StartsFree(g, {}) && Matching(ShapeOf(g), Largest(g, {}))
    ensures forall e :: e in ShapeOf(g).edges ==> !Free(Largest(g, {}), e.node1) || !Free(Largest(g, {}), e.node2)
    ensures |Largest(g, {})| == |ShapeOf(g).left| <==> exists m :: Perfect(ShapeOf(g), m)
  {
    PhaseIs(g, {});
    OnePhaseIsEnough(g);
    var first := Flip({}, Paths(g, {}));
    assert AllFree({}, Paths(g, {}));
    assert StartsFree(g, first);
    assert Largest(g, {}) == first;
    LargestIs(g, {});
    PairingIsFound(g);
    forall e | e in ShapeOf(g).edges ensures !Free(first, e.node1) || !Free(first, e.node2) {
      FirstPhaseIsMaximal(g, e);
    }
  }

  // ------------------------------------------------------ values and elements

  /** The graph that NewBipartiteGraph builds when the neighbours are the equal values. */
  ghost predicate ByEquality<T>(values: seq<T>, elements: seq<T>, g: Graph) {
    && WellFormed(g)
    && |g.left| == |values| && (forall i :: 0 <= i < |values| ==> g.left[i] == i)
    && |g.right| == |elements| && (forall j :: 0 <= j < |elements| ==> g.right[j] == |values| + j)
    && forall i, j :: 0 <= i < |values| && 0 <= j < |elements| ==>
         (Edge(i, |values| + j) in g.edges <==> values[i] == elements[j])
  }

  lemma EdgesJoinEquals<T>(values: seq<T>, elements: seq<T>, g: Graph, e: Edge)
    requires ByEquality(values, elements, g) && e in ShapeOf(g).edges
    ensures 0 <= e.node1 < |values| <= e.node2 < |values| + |elements| &&
      values[e.node1] == elements[e.node2 - |values|]
  {
    var i :| 0 <= i < |g.left| && g.left[i] == e.node1;
    var j :| 0 <= j < |g.right| && g.right[j] == e.node2;
  }

  lemma EqualityIsGrouped<T>(values: seq<T>, elements: seq<T>, g: Graph)
    requires ByEquality(values, elements, g)
    ensures Grouped(ShapeOf(g))
  {
    var b, n := ShapeOf(g), |values|;
    forall e, f, h | e in b.edges && f in b.edges && h in b.edges && e.node1 == f.node1 && f.node2 == h.node2
      ensures Edge(h.node1, e.node2) in b.edges
    {
      EdgesJoinEquals(values, elements, g, e);
      EdgesJoinEquals(values, elements, g, f);
      EdgesJoinEquals(values, elements, g, h);
      assert values[h.node1] == elements[e.node2 - n];
      assert Edge(h.node1, n + (e.node2 - n)) in g.edges;
    }
  }

  ghost function Indices<T>(s: seq<T>, v: T): set<int> {
    set i | 0 <= i < |s| && s[i] == v
  }

  lemma {:induction false} CountIs<T>(s: seq<T>, v: T)
    ensures multiset(s)[v] == |Indices(s, v)|
  {
    if s != [] {
      var n := |s| - 1;
      var init := s[..n];
      CountIs(init, v);
      assert s == init + [s[n]];
      assert Indices(s, v) == Indices(init, v) + if s[n] == v then {n} else {};
    }
  }

  ghost function EdgeAt(m: set<Edge>, x: Node): (e: Edge)
    requires !Free(m, x)
    ensures e in m && (e.node1 == x || e.node2 == x)
  {
    var e :| e in m && (e.node1 == x || e.node2 == x);
    e
  }

  /** At most one edge for each left node: as many edges as left nodes if and only if all are covered. */
  lemma CoversLeft(b: Shape, m: set<Edge>)
    requires Bipartite(b) && LeftMatching(b, m)
    ensures |m| == |b.left| <==> forall x :: x in b.left ==> !Free(m, x)
  {
    if x :| x in b.left && Free(m, x) {
      InjectionSize(m, b.left - {x}, map e | e in m :: e.node1);
    } else {
      LeftMatchingSize(b, m);
      CoveredSize(b, m);
    }
  }

  lemma CoveredSize(b: Shape, m: set<Edge>)
    requires Bipartite(b) && m <= b.edges && forall x :: x in b.left ==> !Free(m, x)
    ensures |b.left| <= |m|
  {
    var f := map x | x in b.left :: EdgeAt(m, x);
    forall x | x in b.left ensures f[x] in m && f[x].node1 == x {
      assert f[x] in b.edges;
    }
    InjectionSize(b.left, m, f);
  }

  lemma CoversRight(b: Shape, m: set<Edge>, x: Node)
    requires Bipartite(b) && Matching(b, m) && |m| == |b.right| && x in b.right
    ensures !Free(m, x)
  {
    if Free(m, x) {
      InjectionSize(m, b.right - {x}, map e | e in m :: e.node2);
    }
  }

  ghost predicate JoinsEquals<T>(values: seq<T>, elements: seq<T>, m: set<Edge>) {
    forall e :: e in m ==>
      && 0 <= e.node1 < |values| <= e.node2 < |values| + |elements|
      && values[e.node1] == elements[e.node2 - |values|]
  }

  ghost predicate LeftSingle(m: set<Edge>) {
    forall e, f :: e in m && f in m && e.node1 == f.node1 ==> e == f
  }

  ghost predicate RightSingle(m: set<Edge>) {
    forall e, f :: e in m && f in m && e.node2 == f.node2 ==> e == f
  }

  /** If every element equal to v has an edge, no value but those in `ends` being at the other end, there are
      at most as many of them. */
  lemma ElementsAtMost<T>(values: seq<T>, elements: seq<T>, m: set<Edge>, v: T, ends: set<int>)
    requires JoinsEquals(values, elements, m) && LeftSingle(m)
    requires forall j :: j in Indices(elements, v) ==> !Free(m, |values| + j)
    requires forall e :: e in m && e.node1 in Indices(values, v) ==> e.node1 in ends
    ensures |Indices(elements, v)| <= |ends|
  {
    var n, js := |values|, Indices(elements, v);
    var f := map j | j in js :: EdgeAt(m, n + j).node1;
    forall j | j in js ensures f[j] in ends && Edge(f[j], n + j) in m {
      assert EdgeAt(m, n + j) == Edge(f[j], n + j);
      assert f[j] in Indices(values, v);
    }
    forall j, k | j in js && k in js && j != k ensures f[j] != f[k] {
      assert Edge(f[j], n + j) != Edge(f[k], n + k);
    }
    InjectionSize(js, ends, f);
  }

  lemma ValuesAtMost<T>(values: seq<T>, elements: seq<T>, m: set<Edge>, v: T)
    requires JoinsEquals(values, elements, m) && RightSingle(m)
    requires forall i :: i in Indices(values, v) ==> !Free(m, i)
    ensures |Indices(values, v)| <= |Indices(elements, v)|
  {
    var n, ks := |values|, Indices(values, v);
    var f := map i | i in ks :: EdgeAt(m, i).node2 - n;
    forall i | i in ks ensures f[i] in Indices(elements, v) && Edge(i, f[i] + n) in m {
      assert EdgeAt(m, i) == Edge(i, f[i] + n);
    }
    forall i, k | i in ks && k in ks && i != k ensures f[i] != f[k] {
      assert Edge(i, f[i] + n) != Edge(k, f[k] + n);
    }
    InjectionSize(ks, Indices(elements, v), f);
  }

  lemma Sides<T>(values: seq<T>, elements: seq<T>, g: Graph)
    requires ByEquality(values, elements, g)
    ensures |ShapeOf(g).left| == |values| && |ShapeOf(g).right| == |elements|
    ensures forall x :: x in ShapeOf(g).left <==> 0 <= x < |values|
    ensures forall y :: |values| <= y < |values| + |elements| ==> y in ShapeOf(g).right
  {
    forall x | 0 <= x < |values| ensures x in ShapeOf(g).left {
      assert g.left[x] in g.left;
    }
    forall y | |values| <= y < |values| + |elements| ensures y in ShapeOf(g).right {
      assert g.right[y - |values|] in g.right;
    }
    DistinctSize(g.left);
    DistinctSize(g.right);
  }

  lemma MatchedEquals<T>(values: seq<T>, elements: seq<T>, g: Graph, m: set<Edge>)
    requires ByEquality(values, elements, g) && m <= ShapeOf(g).edges
    ensures JoinsEquals(values, elements, m)
  {
    forall e | e in m
      ensures 0 <= e.node1 < |values| <= e.node2 < |values| + |elements| &&
        values[e.node1] == elements[e.node2 - |values|]
    {
      EdgesJoinEquals(values, elements, g, e);
    }
  }

  lemma CoveredCounts<T>(values: seq<T>, elements: seq<T>, m: set<Edge>, v: T)
    requires JoinsEquals(values, elements, m) && LeftSingle(m) && RightSingle(m)
    requires forall x :: 0 <= x < |values| + |elements| ==> !Free(m, x)
    ensures multiset(values)[v] == multiset(elements)[v]
  {
    ValuesAtMost(values, elements, m, v);
    ElementsAtMost(values, elements, m, v, Indices(values, v));
    CountIs(values, v);
    CountIs(elements, v);
  }

  lemma FreeCounts<T>(values: seq<T>, elements: seq<T>, m: set<Edge>, i: int)
    requires JoinsEquals(values, elements, m) && LeftSingle(m)
    requires 0 <= i < |values| && Free(m, i)
    requires forall j :: j in Indices(elements, values[i]) ==> !Free(m, |values| + j)
    ensures multiset(values)[values[i]] != multiset(elements)[values[i]]
  {
    var v := values[i];
    ElementsAtMost(values, elements, m, v, Indices(values, v) - {i});
    CountIs(values, v);
    CountIs(elements, v);
  }

  lemma AllCovered<T>(values: seq<T>, elements: seq<T>, g: Graph, m: set<Edge>)
    requires ByEquality(values, elements, g) && Matching(ShapeOf(g), m) && |m| == |values| == |elements|
    ensures forall x :: 0 <= x < |values| + |elements| ==> !Free(m, x)
  {
    Sides(values, elements, g);
    CoversLeft(ShapeOf(g), m);
    forall x | 0 <= x < |values| + |elements| ensures !Free(m, x) {
      if x >= |values| {
        CoversRight(ShapeOf(g), m, x);
      }
    }
  }

  lemma SomeFree<T>(values: seq<T>, elements: seq<T>, g: Graph, m: set<Edge>) returns (i: int)
    requires ByEquality(values, elements, g) && LeftMatching(ShapeOf(g), m) && |m| != |values|
    requires forall e :: e in ShapeOf(g).edges ==> !Free(m, e.node1) || !Free(m, e.node2)
    ensures 0 <= i < |values| && Free(m, i)
    ensures forall j :: j in Indices(elements, values[i]) ==> !Free(m, |values| + j)
  {
    Sides(values, elements, g);
    CoversLeft(ShapeOf(g), m);
    i :| i in ShapeOf(g).left && Free(m, i);
    forall j | j in Indices(elements, values[i]) ensures !Free(m, |values| + j) {
      assert Edge(i, |values| + j) in ShapeOf(g).edges;
    }
  }

  lemma CoveredIsPermutation<T>(values: seq<T>, elements: seq<T>, m: set<Edge>)
    requires JoinsEquals(values, elements, m) && LeftSingle(m) && RightSingle(m)
    requires forall x :: 0 <= x < |values| + |elements| ==> !Free(m, x)
    ensures multiset(values) == multiset(elements)
  {
    forall v: T ensures multiset(values)[v] == multiset(elements)[v] {
      CoveredCounts(values, elements, m, v);
    }
  }

  /** A matching that leaves no edge with both ends free covers the values exactly if they are a permutation
      of the elements. */
  lemma CoversPermutations<T>(values: seq<T>, elements: seq<T>, g: Graph, m: set<Edge>)
    requires ByEquality(values, elements, g) && |values| == |elements| && Matching(ShapeOf(g), m)
    requires forall e :: e in ShapeOf(g).edges ==> !Free(m, e.node1) || !Free(m, e.node2)
    ensures |m| == |values| <==> multiset(values) == multiset(elements)
  {
    MatchedEquals(values, elements, g, m);
    if |m| == |values| {
      AllCovered(values, elements, g, m);
      CoveredIsPermutation(values, elements, m);
    } else {
      var i := SomeFree(values, elements, g, m);
      FreeCounts(values, elements, m, i);
    }
  }

  /** ConsistOf on plain values: as many values as elements are accepted exactly if one list is a permutation
      of the other. */
  lemma AcceptsPermutations<T>(values: seq<T>, elements: seq<T>, g: Graph)
    requires ByEquality(values, elements, g) && |values| == |elements|
    ensures |Largest(g, {})| == |values| <==> multiset(values) == multiset(elements)
  {
    EqualityIsGrouped(values, elements, g);
    GroupedIsMatched(g);
    CoversPermutations(values, elements, g, Largest(g, {}));
  }
}
