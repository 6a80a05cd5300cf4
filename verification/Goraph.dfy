/** Bipartite graphs, edge sets and the guide layers / alternating paths of one
    Hopcroft-Karp phase, stated on values.  `GoraphMatching` holds the phase and
    whole-run theorems, `GoraphCode` the loops of the program. */
module Goraph {
  import opened Sequences

  /** A node is its Id. */
  type Node = int

  datatype Edge = Edge(node1: Node, node2: Node)

  datatype Graph = Graph(left: seq<Node>, right: seq<Node>, edges: seq<Edge>)

  function Elems<T>(s: seq<T>): set<T> {
    set x | x in s
  }

  /** The graph as sets; the lists of a Graph only fix the order of exploration. */
  datatype Shape = Shape(left: set<Node>, right: set<Node>, edges: set<Edge>)

  function ShapeOf(g: Graph): Shape {
    Shape(Elems(g.left), Elems(g.right), Elems(g.edges))
  }

  predicate Bipartite(b: Shape) {
    && b.left !! b.right
    && (forall e :: e in b.edges ==> e.node1 in b.left && e.node2 in b.right)
  }

  /** What NewBipartiteGraph builds: two disjoint lists of distinct nodes and
      edges that always go from left to right. */
  predicate WellFormed(g: Graph) {
    Distinct(g.left) && Distinct(g.right) && Bipartite(ShapeOf(g))
  }

  /** No edge of m touches x. */
  predicate Free(m: set<Edge>, x: Node) {
    forall e :: e in m ==> e.node1 != x && e.node2 != x
  }

  /** Edges of the graph, at most one for each left node: what every phase keeps. */
  ghost predicate LeftMatching(b: Shape, m: set<Edge>) {
    && m <= b.edges
    && forall e, f :: e in m && f in m && e.node1 == f.node1 ==> e == f
  }

  ghost predicate Matching(b: Shape, m: set<Edge>) {
    && LeftMatching(b, m)
    && forall e, f :: e in m && f in m && e.node2 == f.node2 ==> e == f
  }

  // ---------------------------------------------------------------- layers

  /** The side of the graph that layer `level` is drawn from. */
  function Side(b: Shape, level: nat): set<Node> {
    if level % 2 == 1 then b.right else b.left
  }

  function SideList(g: Graph, level: nat): seq<Node> {
    if level % 2 == 1 then g.right else g.left
  }

  function LinkEdge(level: nat, upper: Node, lower: Node): Edge {
    if level % 2 == 1 then Edge(lower, upper) else Edge(upper, lower)
  }

  /** A path may go from `upper` in layer `level` down to `lower` in the layer below. */
  predicate Link(b: Shape, m: set<Edge>, level: nat, upper: Node, lower: Node) {
    var e := LinkEdge(level, upper, lower);
    e in b.edges && ((e in m) != (level % 2 == 1))
  }

  function Row(b: Shape, m: set<Edge>, level: nat, lower: Node, uppers: seq<Node>, used: set<Node>): seq<Node> {
    if uppers == [] then []
    else if uppers[0] !in used && Link(b, m, level, uppers[0], lower)
    then [uppers[0]] + Row(b, m, level, lower, uppers[1..], used + {uppers[0]})
    else Row(b, m, level, lower, uppers[1..], used)
  }

  function Expand(b: Shape, m: set<Edge>, level: nat, last: seq<Node>, uppers: seq<Node>, used: set<Node>): seq<Node> {
    if last == [] then []
    else
      var row := Row(b, m, level, last[0], uppers, used);
      row + Expand(b, m, level, last[1..], uppers, used + Elems(row))
  }

  function FreeOf(m: set<Edge>, nodes: seq<Node>): seq<Node> {
    if nodes == [] then []
    else if Free(m, nodes[0]) then [nodes[0]] + FreeOf(m, nodes[1..])
    else FreeOf(m, nodes[1..])
  }

  /** Some node of `last` leads up to y. */
  ghost predicate LinkedFrom(b: Shape, m: set<Edge>, level: nat, last: set<Node>, y: Node) {
    exists x :: x in last && Link(b, m, level, y, x)
  }

  lemma DistinctConcat<T>(a: seq<T>, b: seq<T>)
    requires Distinct(a) && Distinct(b) && Elems(a) !! Elems(b)
    ensures Distinct(a + b) && Elems(a + b) == Elems(a) + Elems(b)
  {
    forall i, j | 0 <= i < j < |a + b| ensures (a + b)[i] != (a + b)[j] {
      if i < |a| <= j {
        assert a[i] in Elems(a) && b[j - |a|] in Elems(b);
      }
    }
  }

  lemma ElemsCons<T>(s: seq<T>)
    requires s != []
    ensures Elems(s) == {s[0]} + Elems(s[1..])
  {
    assert s == [s[0]] + s[1..];
  }

  lemma {:induction false} DistinctSize<T>(s: seq<T>)
    requires Distinct(s)
    ensures |Elems(s)| == |s|
  {
    if s != [] {
      ElemsCons(s);
      DistinctSize(s[1..]);
    }
  }

  lemma RowIs(b: Shape, m: set<Edge>, level: nat, lower: Node, uppers: seq<Node>, used: set<Node>)
    ensures var r := Row(b, m, level, lower, uppers, used);
      && Distinct(r)
      && Elems(r) == set y | y in Elems(uppers) && y !in used && Link(b, m, level, y, lower)
  {
    if uppers != [] {
      ElemsCons(uppers);
      if uppers[0] !in used && Link(b, m, level, uppers[0], lower) {
        RowIs(b, m, level, lower, uppers[1..], used + {uppers[0]});
        DistinctConcat([uppers[0]], Row(b, m, level, lower, uppers[1..], used + {uppers[0]}));
      } else {
        RowIs(b, m, level, lower, uppers[1..], used);
      }
    }
  }

  lemma ExpandIs(b: Shape, m: set<Edge>, level: nat, last: seq<Node>, uppers: seq<Node>, used: set<Node>)
    ensures var r := Expand(b, m, level, last, uppers, used);
      && Distinct(r)
      && Elems(r) == set y | y in Elems(uppers) && y !in used && LinkedFrom(b, m, level, Elems(last), y)
  {
    if last != [] {
      var row := Row(b, m, level, last[0], uppers, used);
      RowIs(b, m, level, last[0], uppers, used);
      ExpandIs(b, m, level, last[1..], uppers, used + Elems(row));
      DistinctConcat(row, Expand(b, m, level, last[1..], uppers, used + Elems(row)));
      ElemsCons(last);
    }
  }

  lemma FreeOfIs(m: set<Edge>, nodes: seq<Node>)
    requires Distinct(nodes)
    ensures Distinct(FreeOf(m, nodes))
    ensures Elems(FreeOf(m, nodes)) == set x | x in Elems(nodes) && Free(m, x)
  {
    if nodes != [] {
      ElemsCons(nodes);
      FreeOfIs(m, nodes[1..]);
      if Free(m, nodes[0]) {
        DistinctConcat([nodes[0]], FreeOf(m, nodes[1..]));
      }
    }
  }

  // ------------------------------------------------------- depths of nodes

  /** What the layers so far say about the nodes in them: depth[x] < n is the
      index of the layer that holds x. */
  ghost predicate Depths(b: Shape, m: set<Edge>, depth: map<Node, nat>, n: nat) {
    && (forall x :: x in depth ==> depth[x] < n && x in Side(b, depth[x]))
    && (forall x :: x in b.left && Free(m, x) <==> x in depth && depth[x] == 0)
    && (forall x {:trigger HasLower(b, m, depth, x)} :: x in depth && depth[x] > 0 ==> HasLower(b, m, depth, x))
  }

  ghost predicate HasLower(b: Shape, m: set<Edge>, depth: map<Node, nat>, y: Node)
    requires y in depth && depth[y] > 0
  {
    exists x :: x in depth && depth[x] == depth[y] - 1 && Link(b, m, depth[y], y, x)
  }

  ghost function AtDepth(depth: map<Node, nat>, i: int): set<Node> {
    set x | x in depth && depth[x] == i
  }

  /** The layers as lists. */
  ghost predicate Listing(layers: seq<seq<Node>>, depth: map<Node, nat>) {
    && |layers| > 0
    && forall i :: 0 <= i < |layers| ==> LayerIs(layers[i], i, depth)
  }

  ghost predicate LayerIs(layer: seq<Node>, i: nat, depth: map<Node, nat>) {
    layer != [] && Distinct(layer) && Elems(layer) == AtDepth(depth, i)
  }

  /** Every node linked above a node of depth below `bound` has been reached, at most one deeper. */
  ghost predicate Explored(b: Shape, m: set<Edge>, depth: map<Node, nat>, bound: int) {
    forall x, y :: x in depth && depth[x] < bound && y in Side(b, depth[x] + 1) && Link(b, m, depth[x] + 1, y, x)
      ==> y in depth && depth[y] <= depth[x] + 1
  }

  ghost predicate NoFreeRight(m: set<Edge>, depth: map<Node, nat>) {
    forall x :: x in depth && depth[x] % 2 == 1 ==> !Free(m, x)
  }

  ghost function NextSet(b: Shape, m: set<Edge>, depth: map<Node, nat>, n: nat): set<Node> {
    set y | y in Side(b, n) && y !in depth && LinkedFrom(b, m, n, AtDepth(depth, n - 1), y)
  }

  ghost function Deepen(depth: map<Node, nat>, next: set<Node>, n: nat): map<Node, nat> {
    map x | x in depth.Keys + next :: if x in depth then depth[x] else n
  }

  lemma {:induction false} FreeOfNothing(nodes: seq<Node>)
    ensures FreeOf({}, nodes) == nodes
  {
    if nodes != [] {
      FreeOfNothing(nodes[1..]);
      assert nodes == [nodes[0]] + nodes[1..];
    }
  }

  lemma DepthsExtend(b: Shape, m: set<Edge>, depth: map<Node, nat>, n: nat)
    requires n > 0 && Depths(b, m, depth, n)
    ensures Depths(b, m, Deepen(depth, NextSet(b, m, depth, n), n), n + 1)
  {
    var next := NextSet(b, m, depth, n);
    var deeper := Deepen(depth, next, n);
    forall y | y in deeper && deeper[y] > 0 ensures HasLower(b, m, deeper, y) {
      if y in depth {
        assert HasLower(b, m, depth, y);
        var x :| x in depth && depth[x] == depth[y] - 1 && Link(b, m, depth[y], y, x);
        assert x in deeper;
      } else {
        var x :| x in AtDepth(depth, n - 1) && Link(b, m, n, y, x);
        assert x in deeper;
      }
    }
  }

  lemma ExploredExtends(b: Shape, m: set<Edge>, depth: map<Node, nat>, n: nat)
    requires n > 0 && Explored(b, m, depth, n - 1) && forall x :: x in depth ==> depth[x] < n
    ensures Explored(b, m, Deepen(depth, NextSet(b, m, depth, n), n), n)
    ensures NextSet(b, m, depth, n) == {} ==> Explored(b, m, depth, n)
  {
    var next := NextSet(b, m, depth, n);
    var deeper := Deepen(depth, next, n);
    forall x, y | x in depth && depth[x] < n && y in Side(b, depth[x] + 1) && Link(b, m, depth[x] + 1, y, x)
      ensures y in deeper && deeper[y] <= depth[x] + 1
    {
      if depth[x] == n - 1 {
        assert x in AtDepth(depth, n - 1);
        assert LinkedFrom(b, m, n, AtDepth(depth, n - 1), y);
      }
    }
  }

  lemma ListingExtends(layers: seq<seq<Node>>, depth: map<Node, nat>, next: seq<Node>)
    requires Listing(layers, depth) && next != [] && Distinct(next) && Elems(next) !! depth.Keys
    requires forall x :: x in depth ==> depth[x] < |layers|
    ensures Deepen(depth, Elems(next), |layers|).Keys == depth.Keys + Elems(next)
    ensures Listing(layers + [next], Deepen(depth, Elems(next), |layers|))
  {
    var n := |layers|;
    var deeper := Deepen(depth, Elems(next), n);
    forall i | 0 <= i < n + 1 ensures LayerIs((layers + [next])[i], i, deeper) {
      if i < n {
        assert LayerIs(layers[i], i, depth);
        assert AtDepth(deeper, i) == AtDepth(depth, i);
      } else {
        assert forall x :: x in deeper && deeper[x] == n <==> x in Elems(next);
      }
    }
  }

  // ---------------------------------------------------------- guide layers

  predicate AnyFree(m: set<Edge>, layer: seq<Node>) {
    exists x :: x in layer && Free(m, x)
  }

  /** createSLAPGuideLayers from the layers built so far; [] when it gives up. */
  function Grow(g: Graph, b: Shape, m: set<Edge>, layers: seq<seq<Node>>, used: set<Node>): seq<seq<Node>>
    requires layers != [] && Elems(g.left) == b.left && Elems(g.right) == b.right
    decreases b.left + b.right - used
  {
    var level := |layers|;
    var next := Expand(b, m, level, layers[level-1], SideList(g, level), used);
    if next == [] then []
    else if level % 2 == 1 && AnyFree(m, next) then layers + [next]
    else
      ExpandShrinks(g, b, m, level, layers[level-1], used);
      Grow(g, b, m, layers + [next], used + Elems(next))
  }

  lemma ExpandShrinks(g: Graph, b: Shape, m: set<Edge>, level: nat, last: seq<Node>, used: set<Node>)
    requires Elems(g.left) == b.left && Elems(g.right) == b.right
    requires Expand(b, m, level, last, SideList(g, level), used) != []
    ensures b.left + b.right - (used + Elems(Expand(b, m, level, last, SideList(g, level), used)))
          < b.left + b.right - used
  {
    var next := Expand(b, m, level, last, SideList(g, level), used);
    ExpandIs(b, m, level, last, SideList(g, level), used);
    assert next[0] in Elems(next);
    assert next[0] in b.left + b.right - used;
  }

  function Layers(g: Graph, m: set<Edge>): seq<seq<Node>> {
    var first := FreeOf(m, g.left);
    if first == [] then [] else Grow(g, ShapeOf(g), m, [first], Elems(first))
  }

  /** What is known when the layers reach a free right node. */
  ghost predicate Guide(b: Shape, m: set<Edge>, layers: seq<seq<Node>>, depth: map<Node, nat>) {
    && Listing(layers, depth)
    && Depths(b, m, depth, |layers|)
    && |layers| % 2 == 0
    && AnyFree(m, layers[|layers|-1])
  }

  /** The layers leave nothing out: whatever is linked to a lower layer has been reached at most one deeper, and no
      right node below the last layer is free. */
  ghost predicate Nearest(b: Shape, m: set<Edge>, layers: seq<seq<Node>>, depth: map<Node, nat>) {
    && Explored(b, m, depth, |layers| - 1)
    && forall x :: x in depth && depth[x] % 2 == 1 && depth[x] < |layers| - 1 ==> !Free(m, x)
  }

  /** The nodes reached when no free right node can be: closed under alternating
      steps, with every left node either free or entered along its matched edge. */
  ghost predicate Stuck(b: Shape, m: set<Edge>, reached: set<Node>) {
    && (forall x :: x in b.left && Free(m, x) ==> x in reached)
    && (forall x :: x in b.right && x in reached ==> !Free(m, x))
    && (forall e :: e in b.edges && e !in m && e.node1 in reached ==> e.node2 in reached)
    && (forall e :: e in b.edges && e in m && e.node2 in reached ==> e.node1 in reached)
    && (forall x {:trigger EnteredBack(m, reached, x)} :: x in b.left && x in reached && !Free(m, x) ==>
      EnteredBack(m, reached, x))
  }

  ghost predicate EnteredBack(m: set<Edge>, reached: set<Node>, x: Node) {
    exists e :: e in m && e.node1 == x && e.node2 in reached
  }

  lemma StuckForward(b: Shape, m: set<Edge>, depth: map<Node, nat>, n: nat, e: Edge)
    requires Bipartite(b) && Explored(b, m, depth, n)
    requires forall x :: x in depth ==> depth[x] < n && x in Side(b, depth[x])
    requires e in b.edges
    ensures e !in m && e.node1 in depth ==> e.node2 in depth
    ensures e in m && e.node2 in depth ==> e.node1 in depth
  {
    if e !in m && e.node1 in depth {
      assert depth[e.node1] % 2 == 0;
      assert Link(b, m, depth[e.node1] + 1, e.node2, e.node1);
    }
    if e in m && e.node2 in depth {
      assert depth[e.node2] % 2 == 1;
      assert Link(b, m, depth[e.node2] + 1, e.node1, e.node2);
    }
  }

  lemma StuckEntered(b: Shape, m: set<Edge>, depth: map<Node, nat>, x: Node)
    requires Bipartite(b) && x in b.left && x in depth && x in Side(b, depth[x]) && depth[x] > 0
    requires HasLower(b, m, depth, x)
    ensures EnteredBack(m, depth.Keys, x)
  {
    var y :| y in depth && depth[y] == depth[x] - 1 && Link(b, m, depth[x], x, y);
    assert Edge(x, y) in m;
  }

  lemma StuckAt(b: Shape, m: set<Edge>, depth: map<Node, nat>, n: nat)
    requires Bipartite(b) && Depths(b, m, depth, n) && Explored(b, m, depth, n) && NoFreeRight(m, depth)
    ensures Stuck(b, m, depth.Keys)
  {
    forall e | e in b.edges
      ensures e !in m && e.node1 in depth ==> e.node2 in depth
      ensures e in m && e.node2 in depth ==> e.node1 in depth
    {
      StuckForward(b, m, depth, n, e);
    }
    forall x | x in b.left && x in depth && !Free(m, x) ensures EnteredBack(m, depth.Keys, x) {
      assert HasLower(b, m, depth, x);
      StuckEntered(b, m, depth, x);
    }
  }

  /** The next layer as the program computes it is the next depth. */
  lemma NextLayer(g: Graph, b: Shape, m: set<Edge>, layers: seq<seq<Node>>, depth: map<Node, nat>)
    requires Elems(g.left) == b.left && Elems(g.right) == b.right && Listing(layers, depth)
    ensures var next := Expand(b, m, |layers|, layers[|layers|-1], SideList(g, |layers|), depth.Keys);
      Distinct(next) && Elems(next) == NextSet(b, m, depth, |layers|) && Elems(next) !! depth.Keys
  {
    var n := |layers|;
    ExpandIs(b, m, n, layers[n-1], SideList(g, n), depth.Keys);
    assert LayerIs(layers[n-1], n - 1, depth);
  }

  ghost predicate Growing(b: Shape, m: set<Edge>, layers: seq<seq<Node>>, depth: map<Node, nat>) {
    && Listing(layers, depth)
    && Depths(b, m, depth, |layers|)
    && Explored(b, m, depth, |layers| - 1)
  }

  lemma GrowStep(g: Graph, b: Shape, m: set<Edge>, layers: seq<seq<Node>>, depth: map<Node, nat>, next: seq<Node>)
    requires Elems(g.left) == b.left && Elems(g.right) == b.right && Growing(b, m, layers, depth)
    requires next == Expand(b, m, |layers|, layers[|layers|-1], SideList(g, |layers|), depth.Keys)
    ensures next == [] ==> Explored(b, m, depth, |layers|)
    ensures next != [] ==> Growing(b, m, layers + [next], Deepen(depth, Elems(next), |layers|))
    ensures Deepen(depth, Elems(next), |layers|).Keys == depth.Keys + Elems(next)
  {
    var n, reached := |layers|, NextSet(b, m, depth, |layers|);
    NextLayer(g, b, m, layers, depth);
    ExploredExtends(b, m, depth, n);
    if next == [] {
      assert reached == {};
    } else {
      GrowMore(b, m, layers, depth, next);
    }
  }

  lemma GrowMore(b: Shape, m: set<Edge>, layers: seq<seq<Node>>, depth: map<Node, nat>, next: seq<Node>)
    requires Growing(b, m, layers, depth) && Explored(b, m, Deepen(depth, Elems(next), |layers|), |layers|)
    requires next != [] && Distinct(next) && Elems(next) == NextSet(b, m, depth, |layers|) && Elems(next) !! depth.Keys
    ensures Growing(b, m, layers + [next], Deepen(depth, Elems(next), |layers|))
  {
    DepthsExtend(b, m, depth, |layers|);
    ListingExtends(layers, depth, next);
  }

  lemma GrowLast(b: Shape, m: set<Edge>, layers: seq<seq<Node>>, next: seq<Node>, depth: map<Node, nat>)
    requires Growing(b, m, layers + [next], depth) && |layers| % 2 == 1 && AnyFree(m, next)
    ensures Guide(b, m, layers + [next], depth)
  {
  }

  lemma LastIsNearest(b: Shape, m: set<Edge>, layers: seq<seq<Node>>, next: seq<Node>, depth: map<Node, nat>)
    requires Growing(b, m, layers + [next], Deepen(depth, Elems(next), |layers|)) && NoFreeRight(m, depth)
    ensures Nearest(b, m, layers + [next], Deepen(depth, Elems(next), |layers|))
  {
    var deeper := Deepen(depth, Elems(next), |layers|);
    forall x | x in deeper && deeper[x] % 2 == 1 && deeper[x] < |layers| ensures !Free(m, x) {
      assert x in depth;
    }
  }

  lemma {:induction false} GrowIs(g: Graph, b: Shape, m: set<Edge>, layers: seq<seq<Node>>, depth: map<Node, nat>)
    returns (d: map<Node, nat>)
    requires Bipartite(b) && Elems(g.left) == b.left && Elems(g.right) == b.right
    requires Growing(b, m, layers, depth) && NoFreeRight(m, depth)
    ensures Grow(g, b, m, layers, depth.Keys) == [] ==> Stuck(b, m, d.Keys)
    ensures Grow(g, b, m, layers, depth.Keys) != [] ==>
      Guide(b, m, Grow(g, b, m, layers, depth.Keys), d) && Nearest(b, m, Grow(g, b, m, layers, depth.Keys), d)
    decreases b.left + b.right - depth.Keys
  {
    var level := |layers|;
    var next := Expand(b, m, level, layers[level-1], SideList(g, level), depth.Keys);
    GrowStep(g, b, m, layers, depth, next);
    if next == [] {
      StuckAt(b, m, depth, level);
      d := depth;
    } else {
      d := Deepen(depth, Elems(next), level);
      if level % 2 == 1 && AnyFree(m, next) {
        GrowLast(b, m, layers, next, d);
        LastIsNearest(b, m, layers, next, depth);
      } else {
        ExpandShrinks(g, b, m, level, layers[level-1], depth.Keys);
        NoFreeRightExtends(m, depth, next, level);
        assert Grow(g, b, m, layers, depth.Keys) == Grow(g, b, m, layers + [next], d.Keys);
        d := GrowIs(g, b, m, layers + [next], d);
      }
    }
  }

  lemma NoFreeRightExtends(m: set<Edge>, depth: map<Node, nat>, next: seq<Node>, level: nat)
    requires NoFreeRight(m, depth) && !(level % 2 == 1 && AnyFree(m, next))
    ensures NoFreeRight(m, Deepen(depth, Elems(next), level))
  {
  }

  /** createSLAPGuideLayers either certifies that no free right node is reachable
      or returns complete guide layers ending in the first layer with a free right node. */
  lemma LayersIs(g: Graph, m: set<Edge>) returns (d: map<Node, nat>)
    requires WellFormed(g)
    ensures var r := Layers(g, m);
      if r == [] then Stuck(ShapeOf(g), m, d.Keys) else Guide(ShapeOf(g), m, r, d) && Nearest(ShapeOf(g), m, r, d)
  {
    var first := FreeOf(m, g.left);
    FreeOfIs(m, g.left);
    if first == [] {
      d := map[];
      assert forall x :: x in Elems(g.left) && Free(m, x) ==> x in Elems(first);
    } else {
      d := map x | x in Elems(first) :: 0;
      assert d.Keys == Elems(first) == AtDepth(d, 0);
      assert LayerIs(first, 0, d);
      d := GrowIs(g, ShapeOf(g), m, [first], d);
    }
  }
}
