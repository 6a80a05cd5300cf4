/** A graph on which LargestMatching returns more edges than any matching has, because
    its second phase starts a path at a right node that is already taken. */
module GoraphSample {
  import opened Sequences
  import opened Goraph
  import opened Wrappers
  import opened GoraphMatching

  const EDGES := {Edge(0, 5), Edge(0, 8), Edge(1, 6), Edge(1, 7), Edge(2, 7), Edge(3, 5), Edge(4, 6)}
  const SAMPLE := Graph([0, 1, 2, 3, 4], [5, 6, 7, 8, 9],
                        [Edge(0, 5), Edge(0, 8), Edge(1, 6), Edge(1, 7), Edge(2, 7), Edge(3, 5), Edge(4, 6)])

  /** The same graph with an edge to the right node that had none. */
  const PAIRED := Graph([0, 1, 2, 3, 4], [5, 6, 7, 8, 9],
                        [Edge(0, 5), Edge(0, 8), Edge(1, 6), Edge(1, 7), Edge(2, 7), Edge(3, 5), Edge(4, 6), Edge(2,
                          9)])

  const GREEDY := {Edge(0, 5), Edge(1, 6), Edge(2, 7)}
  const FINAL := {Edge(2, 7), Edge(0, 8), Edge(3, 5), Edge(1, 7), Edge(4, 6)}

  /** The two graphs, seen as sets: nothing below depends on which it is. */
  ghost predicate Like(b: Shape) {
    b.left == {0, 1, 2, 3, 4} && b.right == {5, 6, 7, 8, 9} && EDGES <= b.edges <= EDGES + {Edge(2, 9)}
  }

  /** The second layer's last part. */
  function Extra(b: Shape): seq<Node> {
    if Edge(2, 9) in b.edges then [9] else []
  }

  // ---------------------------------------- computing rows and descents

  predicate Taken(b: Shape, m: set<Edge>, level: nat, lower: Node, used: set<Node>, y: Node) {
    y !in used && Link(b, m, level, y, lower)
  }

  function Keep(b: Shape, m: set<Edge>, level: nat, lower: Node, used: set<Node>, y: Node): seq<Node> {
    if Taken(b, m, level, lower, used, y) then [y] else []
  }

  lemma RowIgnores(b: Shape, m: set<Edge>, level: nat, lower: Node, uppers: seq<Node>, used: set<Node>, x: Node)
    requires x !in uppers
    ensures Row(b, m, level, lower, uppers, used + {x}) == Row(b, m, level, lower, uppers, used)
  {
    if uppers != [] {
      assert used + {x} + {uppers[0]} == used + {uppers[0]} + {x};
      RowIgnores(b, m, level, lower, uppers[1..], used, x);
      RowIgnores(b, m, level, lower, uppers[1..], used + {uppers[0]}, x);
    }
  }

  lemma RowCons(b: Shape, m: set<Edge>, level: nat, lower: Node, x: Node, rest: seq<Node>, used: set<Node>)
    requires x !in rest
    ensures Row(b, m, level, lower, [x] + rest, used) ==
      Keep(b, m, level, lower, used, x) + Row(b, m, level, lower, rest, used)
  {
    assert ([x] + rest)[1..] == rest;
    RowIgnores(b, m, level, lower, rest, used, x);
  }

  /** A row over five distinct nodes keeps those that are taken. */
  lemma Row5(b: Shape, m: set<Edge>, level: nat, x: Node, u: Node, v: Node, w: Node, y: Node, z: Node, used: set<Node>)
    requires u < v < w < y < z
    ensures Row(b, m, level, x, [u, v, w, y, z], used) ==
      Keep(b, m, level, x, used, u) + (Keep(b, m, level, x, used, v) + (Keep(b, m, level, x, used, w) +
        (Keep(b, m, level, x, used, y) + Keep(b, m, level, x, used, z))))
  {
    calc {
      Row(b, m, level, x, [u, v, w, y, z], used);
      { RowCons(b, m, level, x, u, [v, w, y, z], used); assert [u, v, w, y, z] == [u] + [v, w, y, z]; }
      Keep(b, m, level, x, used, u) + Row(b, m, level, x, [v, w, y, z], used);
      { RowCons(b, m, level, x, v, [w, y, z], used); assert [v, w, y, z] == [v] + [w, y, z]; }
      Keep(b, m, level, x, used, u) + (Keep(b, m, level, x, used, v) + Row(b, m, level, x, [w, y, z], used));
      { Row3(b, m, level, x, w, y, z, used); }
      Keep(b, m, level, x, used, u) + (Keep(b, m, level, x, used, v) + (Keep(b, m, level, x, used, w) +
        (Keep(b, m, level, x, used, y) + Keep(b, m, level, x, used, z))));
    }
  }

  lemma Row3(b: Shape, m: set<Edge>, level: nat, x: Node, w: Node, y: Node, z: Node, used: set<Node>)
    requires w < y < z
    ensures Row(b, m, level, x, [w, y, z], used) ==
      Keep(b, m, level, x, used, w) + (Keep(b, m, level, x, used, y) + Keep(b, m, level, x, used, z))
  {
    assert [w, y, z] == [w] + [y, z] && [y, z] == [y] + [z] && [z] == [z] + [];
    RowCons(b, m, level, x, z, [], used);
    RowCons(b, m, level, x, y, [z], used);
    RowCons(b, m, level, x, w, [y, z], used);
  }

  lemma ExpandNone(b: Shape, m: set<Edge>, level: nat, last: seq<Node>, uppers: seq<Node>, used: set<Node>)
    requires forall x, y :: x in last && y in uppers ==> !Taken(b, m, level, x, used, y)
    ensures Expand(b, m, level, last, uppers, used) == []
  {
    ExpandIs(b, m, level, last, uppers, used);
    var r := Expand(b, m, level, last, uppers, used);
    if r != [] {
      var y := r[0];
      assert y in Elems(r);
      var x :| x in Elems(last) && Link(b, m, level, y, x);
      assert Taken(b, m, level, x, used, y);
    }
  }

  /** Two rows, and what comes from the nodes after them. */
  lemma ExpandTwo(b: Shape, m: set<Edge>, level: nat, x: Node, y: Node, rest: seq<Node>, uppers: seq<Node>,
                  used: set<Node>, row1: seq<Node>, row2: seq<Node>, more: seq<Node>)
    requires Row(b, m, level, x, uppers, used) == row1
    requires Row(b, m, level, y, uppers, used + Elems(row1)) == row2
    requires Expand(b, m, level, rest, uppers, used + Elems(row1) + Elems(row2)) == more
    ensures Expand(b, m, level, [x] + ([y] + rest), uppers, used) == row1 + row2 + more
  {
    assert ([y] + rest)[1..] == rest && ([x] + ([y] + rest))[1..] == [y] + rest;
    assert Expand(b, m, level, [y] + rest, uppers, used + Elems(row1)) == row2 + more;
  }

  lemma LayersTwo(g: Graph, b: Shape, m: set<Edge>, l0: seq<Node>, l1: seq<Node>, x: Node)
    requires b == ShapeOf(g) && FreeOf(m, g.left) == l0 != []
    requires Expand(b, m, 1, l0, g.right, Elems(l0)) == l1 && x in l1 && Free(m, x)
    ensures Layers(g, m) == [l0, l1]
  {
    assert [l0] + [l1] == [l0, l1];
  }

  lemma GrowDone(g: Graph, b: Shape, m: set<Edge>, layers: seq<seq<Node>>, used: set<Node>, next: seq<Node>, x: Node)
    requires layers != [] && Elems(g.left) == b.left && Elems(g.right) == b.right && |layers| % 2 == 1
    requires Expand(b, m, |layers|, layers[|layers|-1], g.right, used) == next && x in next && Free(m, x)
    ensures Grow(g, b, m, layers, used) == layers + [next]
  {
  }

  lemma GrowOn(g: Graph, b: Shape, m: set<Edge>, layers: seq<seq<Node>>, used: set<Node>, next: seq<Node>)
    requires layers != [] && Elems(g.left) == b.left && Elems(g.right) == b.right
    requires Expand(b, m, |layers|, layers[|layers|-1], SideList(g, |layers|), used) == next
    requires next != [] && !(|layers| % 2 == 1 && AnyFree(m, next))
    ensures Grow(g, b, m, layers, used) == Grow(g, b, m, layers + [next], used + Elems(next))
  {
  }

  lemma LayersFour(g: Graph, b: Shape, m: set<Edge>, l0: seq<Node>, l1: seq<Node>, l2: seq<Node>, l3: seq<Node>,
                   x: Node)
    requires b == ShapeOf(g) && FreeOf(m, g.left) == l0 != [] && l1 != [] && l2 != []
    requires Expand(b, m, 1, l0, g.right, Elems(l0)) == l1 && !AnyFree(m, l1)
    requires Expand(b, m, 2, l1, g.left, Elems(l0) + Elems(l1)) == l2
    requires Expand(b, m, 3, l2, g.right, Elems(l0) + Elems(l1) + Elems(l2)) == l3 && x in l3 && Free(m, x)
    ensures Layers(g, m) == [l0, l1, l2, l3]
  {
    GrowOn(g, b, m, [l0], Elems(l0), l1);
    assert [l0] + [l1] == [l0, l1];
    GrowTwoMore(g, b, m, [l0, l1], Elems(l0) + Elems(l1), l2, l3, x);
    assert [l0, l1] + [l2, l3] == [l0, l1, l2, l3];
  }

  lemma GrowTwoMore(g: Graph, b: Shape, m: set<Edge>, layers: seq<seq<Node>>, used: set<Node>, l2: seq<Node>,
                    l3: seq<Node>, x: Node)
    requires Elems(g.left) == b.left && Elems(g.right) == b.right && |layers| == 2 && l2 != []
    requires Expand(b, m, 2, layers[1], g.left, used) == l2
    requires Expand(b, m, 3, l2, g.right, used + Elems(l2)) == l3 && x in l3 && Free(m, x)
    ensures Grow(g, b, m, layers, used) == layers + [l2, l3]
  {
    GrowOn(g, b, m, layers, used, l2);
    GrowDone(g, b, m, layers + [l2], used + Elems(l2), l3, x);
    assert layers + [l2] + [l3] == layers + [l2, l3];
  }

  predicate Blocked(b: Shape, m: set<Edge>, used: set<Node>, cur: Node, level: nat, x: Node) {
    x in used || !Link(b, m, level, cur, x)
  }

  /** The first candidate that is not blocked and leads down decides. */
  lemma TryValue(b: Shape, m: set<Edge>, layers: seq<seq<Node>>, used: set<Node>, cur: Node, level: nat,
                 candidates: seq<Node>, k: nat, below: seq<Node>)
    requires 0 < level < |layers| && k < |candidates|
    requires forall i :: 0 <= i < k ==> Blocked(b, m, used, cur, level, candidates[i])
    requires !Blocked(b, m, used, cur, level, candidates[k])
    requires Find(b, m, layers, used, candidates[k], level - 1) == Some(below)
    ensures Try(b, m, layers, used, cur, level, candidates) == Some([cur] + below)
  {
    if k > 0 {
      assert Blocked(b, m, used, cur, level, candidates[0]);
      TryValue(b, m, layers, used, cur, level, candidates[1..], k - 1, below);
    }
  }

  lemma TryNone(b: Shape, m: set<Edge>, layers: seq<seq<Node>>, used: set<Node>, cur: Node, level: nat,
                candidates: seq<Node>)
    requires 0 < level < |layers|
    requires forall i :: 0 <= i < |candidates| ==> Blocked(b, m, used, cur, level, candidates[i])
    ensures Try(b, m, layers, used, cur, level, candidates) == None
  {
    if candidates != [] {
      assert Blocked(b, m, used, cur, level, candidates[0]);
      TryNone(b, m, layers, used, cur, level, candidates[1..]);
    }
  }

  lemma CollectCons1(b: Shape, m: set<Edge>, layers: seq<seq<Node>>, u: Node, rest: seq<Node>, used: set<Node>,
                     p: seq<Node>)
    requires layers != [] && Find(b, m, layers, used, u, |layers| - 1) == Some(p)
    ensures Collect(b, m, layers, [u] + rest, used) == [p] + Collect(b, m, layers, rest, used + Elems(p))
  {
    assert ([u] + rest)[1..] == rest;
  }

  lemma CollectCons0(b: Shape, m: set<Edge>, layers: seq<seq<Node>>, u: Node, rest: seq<Node>, used: set<Node>)
    requires layers != [] && Find(b, m, layers, used, u, |layers| - 1) == None
    ensures Collect(b, m, layers, [u] + rest, used) == Collect(b, m, layers, rest, used)
  {
    assert ([u] + rest)[1..] == rest;
  }

  // ------------------------------------------------------ the first phase

  ghost predicate Listed(g: Graph) {
    && g.left == [0, 1, 2, 3, 4] && g.right == [5, 6, 7, 8, 9]
    && Like(ShapeOf(g))
  }

  lemma SidesSample()
    ensures Elems([0, 1, 2, 3, 4]) == {0, 1, 2, 3, 4} && Elems([5, 6, 7, 8, 9]) == {5, 6, 7, 8, 9}
    ensures Distinct([0, 1, 2, 3, 4]) && Distinct([5, 6, 7, 8, 9])
  {
  }

  lemma ListedIs(g: Graph, b: Shape)
    requires Listed(g) && b == ShapeOf(g)
    ensures WellFormed(g) && Like(b)
  {
    SidesSample();
    LikeIsBipartite(b);
  }

  lemma LikeIsBipartite(b: Shape)
    requires Like(b)
    ensures Bipartite(b)
  {
    forall e | e in b.edges ensures e.node1 in b.left && e.node2 in b.right {
      assert e in EDGES + {Edge(2, 9)};
    }
  }

  lemma SampleListed()
    ensures Listed(SAMPLE) && Listed(PAIRED)
    ensures Elems(SAMPLE.edges) == EDGES && Elems(PAIRED.edges) == EDGES + {Edge(2, 9)}
  {
    SidesSample();
    SampleEdges(SAMPLE.edges);
    PairedEdges(SAMPLE.edges, PAIRED.edges);
  }

  lemma PairedEdges(s: seq<Edge>, t: seq<Edge>)
    requires Elems(s) == EDGES && t == s + [Edge(2, 9)]
    ensures Elems(t) == EDGES + {Edge(2, 9)}
  {
  }

  lemma SampleEdges(s: seq<Edge>)
    requires s == SAMPLE.edges
    ensures Elems(s) == EDGES
  {
    forall e | e in s ensures e in EDGES {
      var i :| 0 <= i < |s| && s[i] == e;
    }
    assert s[0] in s && s[1] in s && s[2] in s && s[3] in s && s[4] in s && s[5] in s && s[6] in s;
  }

  lemma Row1of0(b: Shape)
    requires Like(b)
    ensures Row(b, {}, 1, 0, [5, 6, 7, 8, 9], {0, 1, 2, 3, 4}) == [5, 8]
  {
    Row5(b, {}, 1, 0, 5, 6, 7, 8, 9, {0, 1, 2, 3, 4});
  }

  lemma Row1of1(b: Shape)
    requires Like(b)
    ensures Row(b, {}, 1, 1, [5, 6, 7, 8, 9], {0, 1, 2, 3, 4, 5, 8}) == [6, 7]
  {
    Row5(b, {}, 1, 1, 5, 6, 7, 8, 9, {0, 1, 2, 3, 4, 5, 8});
  }

  lemma Row1of2(b: Shape, used: set<Node>)
    requires Like(b) && {5, 6, 7, 8} <= used && 9 !in used
    ensures Row(b, {}, 1, 2, [5, 6, 7, 8, 9], used) == Extra(b)
  {
    Row5(b, {}, 1, 2, 5, 6, 7, 8, 9, used);
  }

  lemma Rest1(b: Shape, used: set<Node>)
    requires Like(b) && {5, 6, 7, 8} <= used && 9 !in used
    ensures Expand(b, {}, 1, [2, 3, 4], [5, 6, 7, 8, 9], used) == Extra(b)
  {
    var uppers := [5, 6, 7, 8, 9];
    Row1of2(b, used);
    var after := used + Elems(Extra(b));
    forall x, y | x in [3, 4] && y in uppers ensures !Taken(b, {}, 1, x, after, y) {
      assert y == 9 || y in {5, 6, 7, 8};
    }
    ExpandNone(b, {}, 1, [3, 4], uppers, after);
    assert [2, 3, 4][1..] == [3, 4];
  }

  lemma Rows1(b: Shape, uppers: seq<Node>, used: set<Node>)
    requires Like(b) && uppers == [5, 6, 7, 8, 9] && used == {0, 1, 2, 3, 4}
    ensures Row(b, {}, 1, 0, uppers, used) == [5, 8] && Row(b, {}, 1, 1, uppers, used + Elems([5, 8])) == [6, 7]
    ensures Expand(b, {}, 1, [2, 3, 4], uppers, used + Elems([5, 8]) + Elems([6, 7])) == Extra(b)
  {
    Row1of0(b); Row1of1(b); Used1();
    Rest1(b, used + Elems([5, 8]) + Elems([6, 7]));
  }

  lemma Layer1(b: Shape, last: seq<Node>, uppers: seq<Node>, used: set<Node>)
    requires Like(b) && last == [0, 1, 2, 3, 4] && uppers == [5, 6, 7, 8, 9] && used == {0, 1, 2, 3, 4}
    ensures Expand(b, {}, 1, last, uppers, used) == [5, 8, 6, 7] + Extra(b)
  {
    Rows1(b, uppers, used);
    ExpandTwo(b, {}, 1, 0, 1, [2, 3, 4], uppers, used, [5, 8], [6, 7], Extra(b));
    assert last == [0] + ([1] + [2, 3, 4]);
    assert [5, 8] + [6, 7] == [5, 8, 6, 7];
  }

  lemma Used1()
    ensures {0, 1, 2, 3, 4} + Elems([5, 8]) == {0, 1, 2, 3, 4, 5, 8}
    ensures {5, 6, 7, 8} <= {0, 1, 2, 3, 4} + Elems([5, 8]) + Elems([6, 7])
    ensures 9 !in {0, 1, 2, 3, 4} + Elems([5, 8]) + Elems([6, 7])
  {
  }

  function FirstGuide(b: Shape): (r: seq<seq<Node>>)
    ensures |r| == 2
  {
    [[0, 1, 2, 3, 4], [5, 8, 6, 7] + Extra(b)]
  }

  lemma Layers1(g: Graph, b: Shape)
    requires Listed(g) && b == ShapeOf(g)
    ensures Layers(g, {}) == FirstGuide(b)
  {
    FreeOfNothing([0, 1, 2, 3, 4]);
    Layer1(b, g.left, g.right, {0, 1, 2, 3, 4});
    SidesSample();
    var last := [5, 8, 6, 7] + Extra(b);
    assert last[0] == 5;
    LayersTwo(g, b, {}, [0, 1, 2, 3, 4], last, 5);
  }

  /** A descent from the second layer, whatever else that layer holds. */
  lemma Find1(b: Shape, layers: seq<seq<Node>>, used: set<Node>, cur: Node, k: nat)
    requires Like(b) && |layers| == 2 && layers[0] == [0, 1, 2, 3, 4] && k < 5
    requires forall i :: 0 <= i < k ==> Blocked(b, {}, used + {cur}, cur, 1, layers[0][i])
    requires !Blocked(b, {}, used + {cur}, cur, 1, k)
    ensures Find(b, {}, layers, used, cur, 1) == Some([cur, k])
  {
    TryValue(b, {}, layers, used + {cur}, cur, 1, layers[0], k, [k]);
    assert [cur] + [k] == [cur, k];
  }

  lemma Find1None(b: Shape, layers: seq<seq<Node>>, used: set<Node>, cur: Node)
    requires Like(b) && |layers| == 2 && layers[0] == [0, 1, 2, 3, 4]
    requires forall x :: 0 <= x < 5 ==> Blocked(b, {}, used + {cur}, cur, 1, x)
    ensures Find(b, {}, layers, used, cur, 1) == None
  {
    TryNone(b, {}, layers, used + {cur}, cur, 1, layers[0]);
  }

  lemma CollectExtra(b: Shape, layers: seq<seq<Node>>)
    requires Like(b) && |layers| == 2 && layers[0] == [0, 1, 2, 3, 4]
    ensures Collect(b, {}, layers, Extra(b), {5, 0, 6, 1, 7, 2}) == []
  {
    if Edge(2, 9) in b.edges {
      Find1None(b, layers, {5, 0, 6, 1, 7, 2}, 9);
      CollectCons0(b, {}, layers, 9, [], {5, 0, 6, 1, 7, 2});
      assert [9] + [] == [9];
    }
  }

  lemma Collect1(b: Shape, layers: seq<seq<Node>>)
    requires Like(b) && |layers| == 2 && layers[0] == [0, 1, 2, 3, 4]
    ensures Collect(b, {}, layers, [6] + ([7] + Extra(b)), {5, 0}) == [[6, 1]] + ([[7, 2]] + [])
  {
    Find1(b, layers, {5, 0}, 6, 1);
    Find1(b, layers, {5, 0, 6, 1}, 7, 2);
    assert {5, 0} + Elems([6, 1]) == {5, 0, 6, 1} && {5, 0, 6, 1} + Elems([7, 2]) == {5, 0, 6, 1, 7, 2};
    CollectExtra(b, layers);
    CollectCons1(b, {}, layers, 7, Extra(b), {5, 0, 6, 1}, [7, 2]);
    CollectCons1(b, {}, layers, 6, [7] + Extra(b), {5, 0}, [6, 1]);
  }

  lemma CollectFirst(b: Shape, m: set<Edge>, layers: seq<seq<Node>>, u: Node, v: Node, rest: seq<Node>,
                     p: seq<Node>, after: set<Node>, ps: seq<seq<Node>>)
    requires layers != [] && Find(b, m, layers, {}, u, |layers| - 1) == Some(p) && after == Elems(p)
    requires Find(b, m, layers, after, v, |layers| - 1) == None && Collect(b, m, layers, rest, after) == ps
    ensures Collect(b, m, layers, [u] + ([v] + rest), {}) == [p] + ps
  {
    CollectCons0(b, m, layers, v, rest, after);
    CollectCons1(b, m, layers, u, [v] + rest, {}, p);
    assert {} + Elems(p) == after;
  }

  lemma Collects1(b: Shape, layers: seq<seq<Node>>, last: seq<Node>)
    requires Like(b) && layers == FirstGuide(b) && last == layers[1]
    ensures Collect(b, {}, layers, last, {}) == [[5, 0], [6, 1], [7, 2]]
  {
    Find1(b, layers, {}, 5, 0);
    Find1None(b, layers, {5, 0}, 8);
    Collect1(b, layers);
    assert Elems([5, 0]) == {5, 0};
    CollectFirst(b, {}, layers, 5, 8, [6] + ([7] + Extra(b)), [5, 0], {5, 0}, [[6, 1]] + ([[7, 2]] + []));
    assert last == [5] + ([8] + ([6] + ([7] + Extra(b))));
  }

  lemma Paths1(g: Graph)
    requires Listed(g)
    ensures Paths(g, {}) == [[5, 0], [6, 1], [7, 2]]
  {
    var b := ShapeOf(g);
    Layers1(g, b);
    PathsFrom(g, b, {}, FirstGuide(b));
    Collects1(b, FirstGuide(b), FirstGuide(b)[1]);
  }

  lemma PathsFrom(g: Graph, b: Shape, m: set<Edge>, layers: seq<seq<Node>>)
    requires Layers(g, m) == layers != [] && b == ShapeOf(g)
    ensures Paths(g, m) == Collect(b, m, layers, layers[|layers|-1], {})
  {
  }

  lemma Edge2(r: Node, l: Node)
    ensures PathEdges([r, l]) == {Edge(l, r)}
  {
    assert [r, l][1..] == [l];
  }

  lemma FlipCons(m: set<Edge>, p: seq<Node>, rest: seq<seq<Node>>)
    ensures Flip(m, [p] + rest) == Flip(SymDiff(m, PathEdges(p)), rest)
  {
    assert ([p] + rest)[1..] == rest;
  }

  lemma Flips1()
    ensures Flip({}, [[5, 0], [6, 1], [7, 2]]) == GREEDY
  {
    Edge2(5, 0); Edge2(6, 1); Edge2(7, 2);
    assert [[5, 0], [6, 1], [7, 2]] == [[5, 0]] + [[6, 1], [7, 2]] && [[6, 1], [7, 2]] == [[6, 1]] + [[7, 2]]
        && [[7, 2]] == [[7, 2]] + [];
    FlipCons({}, [5, 0], [[6, 1], [7, 2]]);
    FlipCons({Edge(0, 5)}, [6, 1], [[7, 2]]);
    FlipCons({Edge(0, 5), Edge(1, 6)}, [7, 2], []);
    assert SymDiff({}, {Edge(0, 5)}) == {Edge(0, 5)};
    assert SymDiff({Edge(0, 5)}, {Edge(1, 6)}) == {Edge(0, 5), Edge(1, 6)};
    assert SymDiff({Edge(0, 5), Edge(1, 6)}, {Edge(2, 7)}) == GREEDY;
  }

  // ----------------------------------------------------- the second phase

  lemma TakenRow1of3(b: Shape)
    requires Like(b)
    ensures Row(b, GREEDY, 1, 3, [5, 6, 7, 8, 9], {3, 4}) == [5]
  {
    Row5(b, GREEDY, 1, 3, 5, 6, 7, 8, 9, {3, 4});
  }

  lemma TakenRow1of4(b: Shape)
    requires Like(b)
    ensures Row(b, GREEDY, 1, 4, [5, 6, 7, 8, 9], {3, 4, 5}) == [6]
  {
    Row5(b, GREEDY, 1, 4, 5, 6, 7, 8, 9, {3, 4, 5});
  }

  lemma Layer21(b: Shape)
    requires Like(b)
    ensures Expand(b, GREEDY, 1, [3, 4], [5, 6, 7, 8, 9], {3, 4}) == [5, 6]
  {
    TakenRow1of3(b); TakenRow1of4(b);
    assert {3, 4} + Elems([5]) == {3, 4, 5};
    ExpandTwo(b, GREEDY, 1, 3, 4, [], [5, 6, 7, 8, 9], {3, 4}, [5], [6], []);
    assert [3] + ([4] + []) == [3, 4] && [5] + [6] == [5, 6];
  }

  lemma TakenRow2of5(b: Shape)
    requires Like(b)
    ensures Row(b, GREEDY, 2, 5, [0, 1, 2, 3, 4], {3, 4, 5, 6}) == [0]
  {
    Row5(b, GREEDY, 2, 5, 0, 1, 2, 3, 4, {3, 4, 5, 6});
  }

  lemma TakenRow2of6(b: Shape)
    requires Like(b)
    ensures Row(b, GREEDY, 2, 6, [0, 1, 2, 3, 4], {3, 4, 5, 6, 0}) == [1]
  {
    Row5(b, GREEDY, 2, 6, 0, 1, 2, 3, 4, {3, 4, 5, 6, 0});
  }

  lemma Layer22(b: Shape)
    requires Like(b)
    ensures Expand(b, GREEDY, 2, [5, 6], [0, 1, 2, 3, 4], {3, 4, 5, 6}) == [0, 1]
  {
    TakenRow2of5(b); TakenRow2of6(b);
    assert {3, 4, 5, 6} + Elems([0]) == {3, 4, 5, 6, 0};
    ExpandTwo(b, GREEDY, 2, 5, 6, [], [0, 1, 2, 3, 4], {3, 4, 5, 6}, [0], [1], []);
    assert [5] + ([6] + []) == [5, 6] && [0] + [1] == [0, 1];
  }

  lemma TakenRow3of0(b: Shape)
    requires Like(b)
    ensures Row(b, GREEDY, 3, 0, [5, 6, 7, 8, 9], {3, 4, 5, 6, 0, 1}) == [8]
  {
    Row5(b, GREEDY, 3, 0, 5, 6, 7, 8, 9, {3, 4, 5, 6, 0, 1});
  }

  lemma TakenRow3of1(b: Shape)
    requires Like(b)
    ensures Row(b, GREEDY, 3, 1, [5, 6, 7, 8, 9], {3, 4, 5, 6, 0, 1, 8}) == [7]
  {
    Row5(b, GREEDY, 3, 1, 5, 6, 7, 8, 9, {3, 4, 5, 6, 0, 1, 8});
  }

  lemma Layer23(b: Shape)
    requires Like(b)
    ensures Expand(b, GREEDY, 3, [0, 1], [5, 6, 7, 8, 9], {3, 4, 5, 6, 0, 1}) == [8, 7]
  {
    TakenRow3of0(b); TakenRow3of1(b);
    assert {3, 4, 5, 6, 0, 1} + Elems([8]) == {3, 4, 5, 6, 0, 1, 8};
    ExpandTwo(b, GREEDY, 3, 0, 1, [], [5, 6, 7, 8, 9], {3, 4, 5, 6, 0, 1}, [8], [7], []);
    assert [0] + ([1] + []) == [0, 1] && [8] + [7] == [8, 7];
  }

  const SECOND := [[3, 4], [5, 6], [0, 1], [8, 7]]

  lemma FreeLeft2()
    ensures FreeOf(GREEDY, [0, 1, 2, 3, 4]) == [3, 4]
  {
    var s := [0, 1, 2, 3, 4];
    assert !Free(GREEDY, 0) by { assert Edge(0, 5) in GREEDY; }
    assert !Free(GREEDY, 1) by { assert Edge(1, 6) in GREEDY; }
    assert !Free(GREEDY, 2) by { assert Edge(2, 7) in GREEDY; }
    assert s[1..] == [1, 2, 3, 4] && [1, 2, 3, 4][1..] == [2, 3, 4] && [2, 3, 4][1..] == [3, 4] && [3, 4][1..] == [4];
    assert FreeOf(GREEDY, [3, 4]) == [3, 4];
    assert FreeOf(GREEDY, [1, 2, 3, 4]) == [3, 4];
  }

  lemma Layers2(g: Graph, b: Shape)
    requires Listed(g) && b == ShapeOf(g)
    ensures Layers(g, GREEDY) == SECOND
  {
    SidesSample(); FreeLeft2(); Layer21(b); Layer22(b); Layer23(b); Taken2();
    ElemsPairs();
    LayersFour(g, b, GREEDY, [3, 4], [5, 6], [0, 1], [8, 7], 8);
  }

  lemma ElemsPairs()
    ensures Elems([3, 4]) == {3, 4} && Elems([3, 4]) + Elems([5, 6]) == {3, 4, 5, 6}
    ensures Elems([3, 4]) + Elems([5, 6]) + Elems([0, 1]) == {3, 4, 5, 6, 0, 1}
  {
  }

  lemma Taken2()
    ensures !AnyFree(GREEDY, [5, 6]) && Free(GREEDY, 8)
  {
    assert !Free(GREEDY, 5) by { assert Edge(0, 5) in GREEDY; }
    assert !Free(GREEDY, 6) by { assert Edge(1, 6) in GREEDY; }
  }

  lemma FindValue(b: Shape, m: set<Edge>, layers: seq<seq<Node>>, used: set<Node>, cur: Node, level: nat, k: nat,
                  below: seq<Node>)
    requires 0 < level < |layers| && k < |layers[level-1]|
    requires k == 1 ==> Blocked(b, m, used + {cur}, cur, level, layers[level-1][0])
    requires k <= 1 && !Blocked(b, m, used + {cur}, cur, level, layers[level-1][k])
    requires Find(b, m, layers, used + {cur}, layers[level-1][k], level - 1) == Some(below)
    ensures Find(b, m, layers, used, cur, level) == Some([cur] + below)
  {
    TryValue(b, m, layers, used + {cur}, cur, level, layers[level-1], k, below);
  }

  lemma Find2of8(b: Shape)
    requires Like(b)
    ensures Find(b, GREEDY, SECOND, {}, 8, 3) == Some([8, 0, 5, 3])
  {
    FindValue(b, GREEDY, SECOND, {} + {8} + {0}, 5, 1, 0, [3]);
    FindValue(b, GREEDY, SECOND, {} + {8}, 0, 2, 0, [5] + [3]);
    FindValue(b, GREEDY, SECOND, {}, 8, 3, 0, [0] + ([5] + [3]));
    assert [8] + ([0] + ([5] + [3])) == [8, 0, 5, 3];
  }

  lemma Find2of7(b: Shape, used: set<Node>)
    requires Like(b) && used == {8, 0, 5, 3}
    ensures Find(b, GREEDY, SECOND, used, 7, 3) == Some([7, 1, 6, 4])
  {
    FindValue(b, GREEDY, SECOND, used + {7} + {1}, 6, 1, 1, [4]);
    FindValue(b, GREEDY, SECOND, used + {7}, 1, 2, 1, [6] + [4]);
    FindValue(b, GREEDY, SECOND, used, 7, 3, 1, [1] + ([6] + [4]));
    assert [7] + ([1] + ([6] + [4])) == [7, 1, 6, 4];
  }

  lemma Collects2(b: Shape)
    requires Like(b)
    ensures Collect(b, GREEDY, SECOND, [8, 7], {}) == [[8, 0, 5, 3], [7, 1, 6, 4]]
  {
    assert {} + Elems([8, 0, 5, 3]) == {8, 0, 5, 3};
    Find2of8(b); Find2of7(b, {8, 0, 5, 3});
    CollectCons1(b, GREEDY, SECOND, 7, [], {8, 0, 5, 3}, [7, 1, 6, 4]);
    CollectCons1(b, GREEDY, SECOND, 8, [7] + [], {}, [8, 0, 5, 3]);
    assert [8] + ([7] + []) == [8, 7];
    assert [[8, 0, 5, 3]] + ([[7, 1, 6, 4]] + []) == [[8, 0, 5, 3], [7, 1, 6, 4]];
  }

  lemma Paths2(g: Graph)
    requires Listed(g)
    ensures Paths(g, GREEDY) == [[8, 0, 5, 3], [7, 1, 6, 4]]
  {
    Layers2(g, ShapeOf(g));
    PathsFrom(g, ShapeOf(g), GREEDY, SECOND);
    Collects2(ShapeOf(g));
  }

  lemma Edges4(a: Node, b: Node, c: Node, d: Node)
    ensures PathEdges([a, b, c, d]) == {Edge(b, a), Edge(b, c), Edge(d, c)}
  {
    assert [a, b, c, d][2..] == [c, d];
    TailEdges([a, b, c, d]);
    Edge2(c, d);
  }

  lemma Flips2()
    ensures Flip(GREEDY, [[8, 0, 5, 3], [7, 1, 6, 4]]) == FINAL
  {
    Edges4(8, 0, 5, 3); Edges4(7, 1, 6, 4);
    var mid := {Edge(1, 6), Edge(2, 7), Edge(0, 8), Edge(3, 5)};
    assert SymDiff(GREEDY, {Edge(0, 8), Edge(0, 5), Edge(3, 5)}) == mid;
    assert SymDiff(mid, {Edge(1, 7), Edge(1, 6), Edge(4, 6)}) == FINAL;
    FlipCons(mid, [7, 1, 6, 4], []);
    FlipCons(GREEDY, [8, 0, 5, 3], [[7, 1, 6, 4]] + []);
    assert [[8, 0, 5, 3]] + ([[7, 1, 6, 4]] + []) == [[8, 0, 5, 3], [7, 1, 6, 4]];
  }

  lemma Paths3(g: Graph)
    requires Listed(g)
    ensures Paths(g, FINAL) == []
  {
    var s := [0, 1, 2, 3, 4];
    assert !Free(FINAL, 0) by { assert Edge(0, 8) in FINAL; }
    assert !Free(FINAL, 1) by { assert Edge(1, 7) in FINAL; }
    assert !Free(FINAL, 2) by { assert Edge(2, 7) in FINAL; }
    assert !Free(FINAL, 3) by { assert Edge(3, 5) in FINAL; }
    assert !Free(FINAL, 4) by { assert Edge(4, 6) in FINAL; }
    assert s[1..] == [1, 2, 3, 4] && [1, 2, 3, 4][1..] == [2, 3, 4] && [2, 3, 4][1..] == [3, 4] && [3, 4][1..] == [4];
    assert FreeOf(FINAL, [3, 4]) == [];
    assert FreeOf(FINAL, [1, 2, 3, 4]) == [];
  }

  // -------------------------------------------------------------- theorem

  lemma LargestOn(g: Graph, m: set<Edge>, m': set<Edge>)
    requires WellFormed(g) && LeftMatching(ShapeOf(g), m) && Paths(g, m) != [] && Flip(m, Paths(g, m)) == m'
    ensures LeftMatching(ShapeOf(g), m') && Largest(g, m) == Largest(g, m')
  {
    PhaseIs(g, m);
  }

  lemma LargestListed(g: Graph)
    requires Listed(g)
    ensures WellFormed(g) && LeftMatching(ShapeOf(g), {}) && Largest(g, {}) == FINAL
  {
    ListedIs(g, ShapeOf(g));
    Paths1(g); Flips1();
    LargestOn(g, {}, GREEDY);
    Paths2(g); Flips2();
    LargestOn(g, GREEDY, FINAL);
    Paths3(g);
  }

  lemma FinalIsNoMatching(b: Shape)
    ensures |FINAL| == 5 && !Matching(b, FINAL)
  {
    assert Edge(1, 7) in FINAL && Edge(2, 7) in FINAL;
  }

  /** The edges of a matching of the sample end in the four right nodes 5 to 8. */
  lemma SampleMatchings(b: Shape, other: set<Edge>)
    requires b.edges == EDGES && Matching(b, other)
    ensures |other| <= 4
  {
    forall e | e in other ensures e.node2 in {5, 6, 7, 8} {
      assert e in EDGES;
    }
    InjectionSize(other, {5, 6, 7, 8}, map e | e in other :: e.node2);
  }

  /** LargestMatching returns five edges, one for each left node, on a graph whose
      matchings have at most four: it is no matching, and a test that compares its
      length with the number of nodes accepts a graph without a perfect matching. */
  lemma SampleExceeds()
    ensures WellFormed(SAMPLE) && LeftMatching(ShapeOf(SAMPLE), {})
    ensures |Largest(SAMPLE, {})| == |SAMPLE.left| == |SAMPLE.right| == 5
    ensures forall other :: Matching(ShapeOf(SAMPLE), other) ==> |other| <= 4
    ensures !Matching(ShapeOf(SAMPLE), Largest(SAMPLE, {}))
  {
    SampleListed();
    LargestListed(SAMPLE);
    forall other | Matching(ShapeOf(SAMPLE), other) ensures |other| <= 4 {
      SampleMatchings(ShapeOf(SAMPLE), other);
    }
    FinalIsNoMatching(ShapeOf(SAMPLE));
  }

  const PAIRS := {Edge(0, 8), Edge(1, 7), Edge(2, 9), Edge(3, 5), Edge(4, 6)}

  /** With one more edge there is a perfect matching, so the answer "yes" is right, although what is returned
      is no matching: a phase that starts at a taken node does not make the answer wrong. */
  lemma PairedIsAcceptedAnyway()
    ensures WellFormed(PAIRED) && LeftMatching(ShapeOf(PAIRED), {})
    ensures Perfect(ShapeOf(PAIRED), PAIRS) && |Largest(PAIRED, {})| == |PAIRED.left|
    ensures !StartsFree(PAIRED, {}) && !Matching(ShapeOf(PAIRED), Largest(PAIRED, {}))
  {
    SampleListed();
    LargestListed(PAIRED);
    FinalIsNoMatching(ShapeOf(PAIRED));
    LargestIs(PAIRED, {});
    PairsMatch(ShapeOf(PAIRED));
  }

  lemma PairsMatch(b: Shape)
    requires Like(b) && Edge(2, 9) in b.edges
    ensures Perfect(b, PAIRS)
  {
    assert |PAIRS| == 5 && |b.left| == 5;
  }
}
