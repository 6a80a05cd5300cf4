/** The loops of goraph's edge sets and bipartite matching, proved against the
    functions of `Goraph` and `GoraphMatching`. */
module GoraphCode {
  import opened Sequences
  import opened Goraph
  import opened Wrappers
  import GM = GoraphMatching

  // ------------------------------------------------------------- edge sets

  method IsFree(edges: seq<Edge>, node: Node) returns (free: bool)
    ensures free <==> Free(Elems(edges), node)
  {
    for i := 0 to |edges|
      invariant forall k :: 0 <= k < i ==> edges[k].node1 != node && edges[k].node2 != node
    {
      if edges[i].node1 == node || edges[i].node2 == node {
        assert edges[i] in Elems(edges);
        return false;
      }
    }
    return true;
  }

  method Contains(edges: seq<Edge>, edge: Edge) returns (found: bool)
    ensures found <==> edge in edges
  {
    for i := 0 to |edges|
      invariant edge !in edges[..i]
    {
      if edges[i] == edge {
        return true;
      }
    }
    assert edges[..|edges|] == edges;
    return false;
  }

  predicate NoneJoins(edges: seq<Edge>, node1: Node, node2: Node) {
    forall k :: 0 <= k < |edges| ==> edges[k] != Edge(node1, node2) && edges[k] != Edge(node2, node1)
  }

  /** The first edge joining the two nodes, in either direction. */
  method FindByNodes(edges: seq<Edge>, node1: Node, node2: Node) returns (edge: Edge, found: bool)
    ensures found <==> Edge(node1, node2) in edges || Edge(node2, node1) in edges
    ensures found ==> edge in edges && (edge == Edge(node1, node2) || edge == Edge(node2, node1))
    ensures found ==> exists i :: 0 <= i < |edges| && edges[i] == edge && NoneJoins(edges[..i], node1, node2)
  {
    for i := 0 to |edges|
      invariant NoneJoins(edges[..i], node1, node2)
    {
      var e := edges[i];
      if (e.node1 == node1 && e.node2 == node2) || (e.node1 == node2 && e.node2 == node1) {
        return e, true;
      }
      assert edges[..i+1] == edges[..i] + [e];
    }
    assert edges[..|edges|] == edges;
    return Edge(0, 0), false;
  }

  ghost predicate Toggled(first: seq<Edge>, second: seq<Edge>, e: Edge) {
    (e in first) != (multiset(second)[e] % 2 == 1)
  }

  /** An edge stays exactly when it is in the first list and occurs an even number of
      times in the second, or the other way about; the order is that of a map. */
  method SymmetricDifference(first: seq<Edge>, second: seq<Edge>) returns (result: seq<Edge>)
    ensures Distinct(result)
    ensures forall e :: e in result <==> Toggled(first, second, e)
  {
    var edgesToInclude := EdgesToInclude(first, second);
    result := [];
    var left := edgesToInclude.Keys;
    while left != {}
      invariant left <= edgesToInclude.Keys && Distinct(result)
      invariant forall e :: e in result <==> e in edgesToInclude && e !in left && edgesToInclude[e]
    {
      var e :| e in left;
      if edgesToInclude[e] {
        result := result + [e];
      }
      left := left - {e};
    }
  }

  /** Its first two loops. */
  method EdgesToInclude(first: seq<Edge>, second: seq<Edge>) returns (edges: map<Edge, bool>)
    ensures forall e :: (e in edges && edges[e]) <==> Toggled(first, second, e)
  {
    edges := map[];
    for i := 0 to |first|
      invariant forall e :: e in edges <==> e in first[..i]
      invariant forall e :: e in edges ==> edges[e]
    {
      edges := edges[first[i] := true];
    }
    assert first[..|first|] == first;
    for i := 0 to |second|
      invariant forall e :: (e in edges && edges[e]) <==> Toggled(first, second[..i], e)
    {
      var e := second[i];
      assert second[..i+1] == second[..i] + [e];
      edges := edges[e := !(e in edges && edges[e])];
    }
    assert second[..|second|] == second;
  }

  // ---------------------------------------------------------- construction

  datatype Result<T> = Success(value: T) | Failure(leftIndex: nat, rightIndex: nat)

  /** Left nodes get the ids 0.., right nodes the ids after them, and there is an edge
      for exactly the neighbouring pairs; the first failing pair is reported. */
  method NewBipartiteGraph<L, R>(leftValues: seq<L>, rightValues: seq<R>, neighbours: (L, R) -> Option<bool>)
    returns (r: Result<Graph>)
    ensures r.Success? <==>
      forall i, j :: 0 <= i < |leftValues| && 0 <= j < |rightValues| ==> neighbours(leftValues[i], rightValues[j]).Some?
    ensures r.Success? ==>
      && WellFormed(r.value)
      && Distinct(r.value.edges)
      && |r.value.left| == |leftValues| && (forall i :: 0 <= i < |leftValues| ==> r.value.left[i] == i)
      && |r.value.right| == |rightValues| && (forall j :: 0 <= j < |rightValues| ==>
        r.value.right[j] == |leftValues| + j)
      && forall i, j :: 0 <= i < |leftValues| && 0 <= j < |rightValues| ==>
           (Edge(i, |leftValues| + j) in r.value.edges <==> neighbours(leftValues[i], rightValues[j]) == Some(true))
    ensures r.Failure? ==>
      && r.leftIndex < |leftValues| && r.rightIndex < |rightValues|
      && neighbours(leftValues[r.leftIndex], rightValues[r.rightIndex]).None?
      && forall i, j :: 0 <= i < |leftValues| && 0 <= j < |rightValues| && Before(i, j, r.leftIndex, r.rightIndex) ==>
           neighbours(leftValues[i], rightValues[j]).Some?
  {
    var n := |leftValues|;
    var left, right := [], [];
    for i := 0 to n
      invariant |left| == i && forall k :: 0 <= k < i ==> left[k] == k
    {
      left := left + [i];
    }
    for j := 0 to |rightValues|
      invariant |right| == j && forall k :: 0 <= k < j ==> right[k] == k + n
    {
      right := right + [j + |left|];
    }
    var edges := [];
    for i := 0 to n
      invariant Edges(leftValues, rightValues, neighbours, edges, i, 0)
    {
      for j := 0 to |rightValues|
        invariant Edges(leftValues, rightValues, neighbours, edges, i, j)
      {
        var joined := neighbours(leftValues[i], rightValues[j]);
        if joined.None? {
          return Failure(i, j);
        }
        if joined.value {
          edges := edges + [Edge(left[i], right[j])];
        }
      }
    }
    var g := Graph(left, right, edges);
    assert forall k :: 0 <= k < n ==> left[k] in left;
    assert forall k :: 0 <= k < |right| ==> right[k] in right;
    forall e | e in edges ensures e.node1 in left && e.node2 in right {
      assert left[e.node1] == e.node1 && right[e.node2 - n] == e.node2;
    }
    return Success(g);
  }

  predicate Before(i: int, j: int, row: nat, col: nat) {
    i < row || (i == row && j < col)
  }

  /** The pairs before (row, col), row by row, have been looked at. */
  ghost predicate Edges<L, R>(leftValues: seq<L>, rightValues: seq<R>, neighbours: (L, R) -> Option<bool>,
                              edges: seq<Edge>, row: nat, col: nat)
  {
    && Distinct(edges)
    && (forall e :: e in edges ==>
          && 0 <= e.node1 < |leftValues| && 0 <= e.node2 - |leftValues| < |rightValues|
          && Before(e.node1, e.node2 - |leftValues|, row, col))
    && (forall i, j {:trigger neighbours(leftValues[i], rightValues[j])} ::
          0 <= i < |leftValues| && 0 <= j < |rightValues| && Before(i, j, row, col) ==>
            && neighbours(leftValues[i], rightValues[j]).Some?
            && (Edge(i, |leftValues| + j) in edges <==> neighbours(leftValues[i], rightValues[j]) == Some(true)))
  }

  // ---------------------------------------------------------- guide layers

  /** What the tests on FindByNodes and Contains decide between two nodes of opposite sides. */
  method Linked(g: Graph, matching: seq<Edge>, level: nat, upper: Node, lower: Node) returns (linked: bool, edge: Edge)
    requires WellFormed(g) && upper in Side(ShapeOf(g), level) && lower in Side(ShapeOf(g), level + 1)
    ensures linked <==> Link(ShapeOf(g), Elems(matching), level, upper, lower)
    ensures linked ==> edge == LinkEdge(level, upper, lower)
  {
    var e, found := FindByNodes(g.edges, upper, lower);
    edge := e;
    if !found {
      assert LinkEdge(level, upper, lower) !in g.edges;
      return false, edge;
    }
    assert e in ShapeOf(g).edges;
    var inMatching := Contains(matching, e);
    if inMatching == (level % 2 == 1) {
      return false, edge;
    }
    return true, edge;
  }

  /** The inner loop: the unused nodes of the other side linked to one node below. */
  method ExpandNode(g: Graph, matching: seq<Edge>, level: nat, lower: Node, layer: seq<Node>, used: set<Node>)
    returns (layer': seq<Node>, used': set<Node>, freeSeen: bool)
    requires WellFormed(g) && lower in Side(ShapeOf(g), level + 1)
    ensures var row := Row(ShapeOf(g), Elems(matching), level, lower, SideList(g, level), used);
      layer' == layer + row && used' == used + Elems(row) && freeSeen == AnyFree(Elems(matching), row)
  {
    var b, m := ShapeOf(g), Elems(matching);
    var uppers := SideList(g, level);
    var row: seq<Node> := [];
    used' := used;
    freeSeen := false;
    assert uppers[0..] == uppers;
    for j := 0 to |uppers|
      invariant row + Row(b, m, level, lower, uppers[j..], used') == Row(b, m, level, lower, uppers, used)
      invariant used' == used + Elems(row)
      invariant freeSeen == AnyFree(m, row)
    {
      assert uppers[j..][1..] == uppers[j+1..];
      if uppers[j] !in used' {
        assert uppers[j] in Side(b, level);
        var linked, _ := Linked(g, matching, level, uppers[j], lower);
        if linked {
          var free := IsFree(matching, uppers[j]);
          freeSeen := freeSeen || free;
          row, used' := row + [uppers[j]], used' + {uppers[j]};
        }
      }
    }
    layer' := layer + row;
  }

  method ExpandLayer(g: Graph, matching: seq<Edge>, level: nat, last: seq<Node>, used: set<Node>)
    returns (layer: seq<Node>, used': set<Node>, freeSeen: bool)
    requires WellFormed(g) && Elems(last) <= Side(ShapeOf(g), level + 1)
    ensures layer == Expand(ShapeOf(g), Elems(matching), level, last, SideList(g, level), used)
    ensures used' == used + Elems(layer)
    ensures freeSeen == AnyFree(Elems(matching), layer)
  {
    ghost var b, m, uppers := ShapeOf(g), Elems(matching), SideList(g, level);
    layer, used', freeSeen := [], used, false;
    assert last[0..] == last;
    for i := 0 to |last|
      invariant layer + Expand(b, m, level, last[i..], uppers, used') == Expand(b, m, level, last, uppers, used)
      invariant used' == used + Elems(layer)
      invariant freeSeen == AnyFree(m, layer)
    {
      ghost var before, usedBefore := layer, used';
      assert last[i] in Elems(last);
      var seen;
      layer, used', seen := ExpandNode(g, matching, level, last[i], layer, used');
      ExpandNext(b, m, level, last, i, uppers, before, usedBefore);
      freeSeen := freeSeen || seen;
    }
  }

  /** One turn of the outer loop. */
  lemma ExpandNext(b: Shape, m: set<Edge>, level: nat, last: seq<Node>, i: nat, uppers: seq<Node>, layer: seq<Node>,
                   used: set<Node>)
    requires i < |last|
    ensures var row := Row(b, m, level, last[i], uppers, used);
      && layer + Expand(b, m, level, last[i..], uppers, used)
         == layer + row + Expand(b, m, level, last[i+1..], uppers, used + Elems(row))
      && Elems(layer + row) == Elems(layer) + Elems(row)
      && (AnyFree(m, layer + row) <==> AnyFree(m, layer) || AnyFree(m, row))
  {
    var row := Row(b, m, level, last[i], uppers, used);
    assert last[i..][1..] == last[i+1..];
    AnyFreeConcat(m, layer, row);
  }

  lemma AnyFreeConcat(m: set<Edge>, s: seq<Node>, t: seq<Node>)
    ensures AnyFree(m, s + t) <==> AnyFree(m, s) || AnyFree(m, t)
  {
    if AnyFree(m, s) {
      var x :| x in s && Free(m, x);
      assert x in s + t;
    }
    if AnyFree(m, t) {
      var x :| x in t && Free(m, x);
      assert x in s + t;
    }
  }

  method CreateSLAPGuideLayers(g: Graph, matching: seq<Edge>) returns (guideLayers: seq<seq<Node>>)
    requires WellFormed(g)
    ensures guideLayers == Layers(g, Elems(matching))
  {
    var b, m := ShapeOf(g), Elems(matching);
    var currentLayer: seq<Node> := [];
    var used: set<Node> := {};
    assert g.left[0..] == g.left;
    for i := 0 to |g.left|
      invariant currentLayer + FreeOf(m, g.left[i..]) == FreeOf(m, g.left)
      invariant used == Elems(currentLayer) <= b.left
    {
      assert g.left[i..][1..] == g.left[i+1..];
      var free := IsFree(matching, g.left[i]);
      if free {
        currentLayer, used := currentLayer + [g.left[i]], used + {g.left[i]};
      }
    }
    assert g.left[|g.left|..] == [] && currentLayer == FreeOf(m, g.left);
    if currentLayer == [] {
      return [];
    }
    guideLayers := [currentLayer];
    var done := false;
    while !done
      invariant guideLayers != [] && currentLayer == guideLayers[|guideLayers|-1]
      invariant Elems(currentLayer) <= Side(b, |guideLayers| - 1)
      invariant Layers(g, m) == if done then guideLayers else Grow(g, b, m, guideLayers, used)
      decreases !done, b.left + b.right - used
    {
      var level := |guideLayers|;
      var lastLayer, before := currentLayer, used;
      assert Side(b, level + 1) == Side(b, level - 1);
      var freeSeen;
      currentLayer, used, freeSeen := ExpandLayer(g, matching, level, lastLayer, used);
      ExpandIs(b, m, level, lastLayer, SideList(g, level), before);
      if currentLayer == [] {
        return [];
      }
      ExpandShrinks(g, b, m, level, lastLayer, before);
      done := level % 2 == 1 && freeSeen;
      guideLayers := guideLayers + [currentLayer];
    }
  }

  // ------------------------------------------------------ disjoint paths

  /** The map from nodes to true that the recursive search shares and updates. */
  class Marks {
    var used: set<Node>

    constructor ()
      ensures used == {}
    {
      used := {};
    }
  }

  function PathEdgeList(p: seq<Node>): seq<Edge> {
    if |p| < 2 then [] else [LinkEdge(|p| - 1, p[0], p[1])] + PathEdgeList(p[1..])
  }

  lemma PathEdgeListIs(p: seq<Node>)
    ensures Elems(PathEdgeList(p)) == GM.PathEdges(p)
    ensures Distinct(p) ==> Distinct(PathEdgeList(p))
    ensures |p| >= 2 ==> forall x :: x in p <==> exists e :: e in PathEdgeList(p) && (x == e.node1 || x == e.node2)
  {
    if |p| >= 2 {
      var e := LinkEdge(|p| - 1, p[0], p[1]);
      ElemsCons(PathEdgeList(p));
      PathEdgeListIs(p[1..]);
      GM.PathEdgesTouch(p[1..]);
      if Distinct(p) {
        assert p[0] !in p[1..];
        DistinctConcat([e], PathEdgeList(p[1..]));
      }
      assert e in PathEdgeList(p);
      forall x | x in p ensures exists e :: e in PathEdgeList(p) && (x == e.node1 || x == e.node2) {
        if x != p[0] && x != p[1] {
          assert x in p[1..];
          var f :| f in PathEdgeList(p[1..]) && (x == f.node1 || x == f.node2);
          assert f in PathEdgeList(p);
        }
      }
    }
  }

  lemma FoundBelow(b: Shape, m: set<Edge>, layers: seq<seq<Node>>, depth: map<Node, nat>, used: set<Node>,
                   cur: Node, next: Node, level: nat, path: seq<Node>)
    requires Listing(layers, depth) && 0 < level <= |layers| && next in depth && depth[next] == level - 1
    requires GM.Find(b, m, layers, used, next, level - 1) == Some(path)
    ensures PathEdgeList([cur] + path) == [LinkEdge(level, cur, next)] + PathEdgeList(path)
  {
    GM.FindIs(b, m, layers, depth, used, next, level - 1);
    assert depth[path[0]] == |path| - 1;
    assert ([cur] + path)[1..] == path;
  }

  /** Marks the nodes of the path it returns; restores the marks when it fails. */
  method FindDisjointSLAPHelper(g: Graph, currentNode: Node, currentSLAP: seq<Edge>, level: nat, matching: seq<Edge>,
                                guideLayers: seq<seq<Node>>, marks: Marks, ghost depth: map<Node, nat>)
    returns (slap: seq<Edge>, found: bool, ghost path: seq<Node>)
    requires WellFormed(g) && Guide(ShapeOf(g), Elems(matching), guideLayers, depth)
    requires currentNode in depth && depth[currentNode] == level < |guideLayers| && currentNode !in marks.used
    modifies marks
    ensures found == GM.Find(ShapeOf(g), Elems(matching), guideLayers, old(marks.used), currentNode, level).Some?
    ensures found ==>
      GM.Find(ShapeOf(g), Elems(matching), guideLayers, old(marks.used), currentNode, level) == Option.Some(path)
    ensures found ==> slap == currentSLAP + PathEdgeList(path) && marks.used == old(marks.used) + Elems(path)
    ensures !found ==> marks.used == old(marks.used)
    decreases level
  {
    ghost var b, m := ShapeOf(g), Elems(matching);
    ghost var before := marks.used;
    marks.used := marks.used + {currentNode};
    if level == 0 {
      path := [currentNode];
      return currentSLAP, true, path;
    }
    var layer := guideLayers[level-1];
    assert LayerIs(layer, level - 1, depth);
    assert layer[0..] == layer;
    for k := 0 to |layer|
      invariant marks.used == before + {currentNode}
      invariant GM.Find(b, m, guideLayers, before, currentNode, level)
             == GM.Try(b, m, guideLayers, marks.used, currentNode, level, layer[k..])
    {
      var nextNode := layer[k];
      assert layer[k..][1..] == layer[k+1..];
      if nextNode !in marks.used {
        assert nextNode in AtDepth(depth, level - 1);
        var linked, edge := Linked(g, matching, level, currentNode, nextNode);
        if linked {
          slap, found, path := FindDisjointSLAPHelper(g, nextNode, currentSLAP + [edge], level - 1, matching,
                                                      guideLayers, marks, depth);
          if found {
            FoundBelow(b, m, guideLayers, depth, before + {currentNode}, currentNode, nextNode, level, path);
            path := [currentNode] + path;
            return slap, true, path;
          }
        }
      }
    }
    marks.used := marks.used - {currentNode};
    path := [];
    return [], false, path;
  }

  /** One list of edges per collected path, in the order of the last guide layer. */
  method MaximalDisjointSLAPCollection(g: Graph, matching: seq<Edge>) returns (result: seq<seq<Edge>>)
    requires WellFormed(g)
    ensures Lists(result, GM.Paths(g, Elems(matching)))
  {
    var guideLayers := CreateSLAPGuideLayers(g, matching);
    if |guideLayers| == 0 {
      return [];
    }
    ghost var depth := LayersIs(g, Elems(matching));
    result := CollectFrom(g, matching, guideLayers, depth);
  }

  /** Its loop over the last guide layer. */
  method CollectFrom(g: Graph, matching: seq<Edge>, guideLayers: seq<seq<Node>>, ghost depth: map<Node, nat>)
    returns (result: seq<seq<Edge>>)
    requires WellFormed(g) && Guide(ShapeOf(g), Elems(matching), guideLayers, depth)
    ensures Lists(result, GM.Collect(ShapeOf(g), Elems(matching), guideLayers, guideLayers[|guideLayers|-1], {}))
  {
    ghost var b, m := ShapeOf(g), Elems(matching);
    var marks := new Marks();
    var last, top := guideLayers[|guideLayers|-1], |guideLayers| - 1;
    ghost var done: seq<seq<Node>> := [];
    result := [];
    assert LayerIs(last, top, depth) && last[0..] == last;
    for i := 0 to |last|
      invariant done + GM.Collect(b, m, guideLayers, last[i..], marks.used) == GM.Collect(b, m, guideLayers, last, {})
      invariant Lists(result, done)
      invariant forall k :: i <= k < |last| ==> last[k] !in marks.used
    {
      ghost var before := marks.used;
      assert last[i] in AtDepth(depth, top);
      var slap, found;
      ghost var path;
      slap, found, path := FindDisjointSLAPHelper(g, last[i], [], top, matching, guideLayers, marks, depth);
      CollectNext(b, m, guideLayers, last, i, before, done);
      if found {
        GM.FindIs(b, m, guideLayers, depth, before, last[i], top);
        ApartFromRest(depth, path, last, i, top);
        MarkEdges(slap, path, marks);
        result, done := result + [slap], done + [path];
      }
    }
    assert last[|last|..] == [] && done + [] == done;
  }

  lemma CollectNext(b: Shape, m: set<Edge>, layers: seq<seq<Node>>, last: seq<Node>, i: nat, used: set<Node>,
                    done: seq<seq<Node>>)
    requires layers != [] && i < |last|
    ensures var found := GM.Find(b, m, layers, used, last[i], |layers| - 1);
      done + GM.Collect(b, m, layers, last[i..], used) ==
        if found.Some? then done + [found.value] + GM.Collect(b, m, layers, last[i+1..], used + Elems(found.value))
        else done + GM.Collect(b, m, layers, last[i+1..], used)
  {
    assert last[i..][1..] == last[i+1..];
  }

  ghost predicate Lists(result: seq<seq<Edge>>, paths: seq<seq<Node>>) {
    |result| == |paths| && forall i :: 0 <= i < |paths| ==> result[i] == PathEdgeList(paths[i])
  }

  /** The loop that marks the nodes of a collected path: the search has marked them already. */
  method MarkEdges(slap: seq<Edge>, ghost path: seq<Node>, marks: Marks)
    requires slap == PathEdgeList(path) && Elems(path) <= marks.used
    modifies marks
    ensures marks.used == old(marks.used)
  {
    PathEdgeListIs(path);
    GM.PathEdgesTouch(path);
    for k := 0 to |slap|
      invariant marks.used == old(marks.used)
    {
      assert slap[k] in Elems(slap);
      marks.used := marks.used + {slap[k].node1, slap[k].node2};
    }
  }

  lemma ApartFromRest(depth: map<Node, nat>, path: seq<Node>, last: seq<Node>, i: nat, top: nat)
    requires i < |last| && LayerIs(last, top, depth) && GM.Guided(depth, path) && path != [] && path[0] == last[i]
    ensures forall k :: i < k < |last| ==> last[k] !in Elems(path)
  {
    assert last[i] in AtDepth(depth, top);
    assert depth[path[0]] == |path| - 1;
    forall x | x in last[i+1..] ensures x in depth && depth[x] == top && x != path[0] {
      assert x in Elems(last);
    }
    GM.AvoidsTop(depth, path, last[i+1..], top);
    forall k | i < k < |last| ensures last[k] !in Elems(path) {
      assert last[i+1..][k-i-1] == last[k];
      assert last[k] in Elems(last[i+1..]);
    }
  }

  // ------------------------------------------------------ largest matching

  lemma SymmetricDifferenceIs(first: seq<Edge>, second: seq<Edge>, result: seq<Edge>)
    requires Distinct(second)
    requires forall e :: e in result <==> Toggled(first, second, e)
    ensures Elems(result) == GM.SymDiff(Elems(first), Elems(second))
  {
    forall e ensures Toggled(first, second, e) <==> (e in first) != (e in second) {
      DistinctCount(second, e);
    }
  }

  lemma DistinctCount<T>(s: seq<T>, x: T)
    requires Distinct(s)
    ensures multiset(s)[x] == if x in s then 1 else 0
  {
    if s != [] {
      assert s == [s[0]] + s[1..];
      DistinctCount(s[1..], x);
    }
  }

  /** LargestMatching stops on every graph.  Its result is a list of distinct edges with
      at most one edge per left node, never fewer than any matching has; it is a matching,
      hence a largest one, exactly when every phase's paths start at free right nodes. */
  method LargestMatching(g: Graph) returns (matching: seq<Edge>)
    requires WellFormed(g)
    ensures Distinct(matching) && Elems(matching) == GM.Largest(g, {})
    ensures LeftMatching(ShapeOf(g), Elems(matching)) && |matching| <= |g.left|
    ensures forall other :: Matching(ShapeOf(g), other) ==> |other| <= |matching|
    ensures Matching(ShapeOf(g), Elems(matching)) <==> GM.StartsFree(g, {})
  {
    ghost var b := ShapeOf(g);
    matching := [];
    GM.LargestIs(g, {});
    DistinctSize(g.left);
    GM.PhaseIs(g, {});
    var paths := MaximalDisjointSLAPCollection(g, matching);
    while |paths| > 0
      invariant Distinct(matching) && LeftMatching(b, Elems(matching))
      invariant Lists(paths, GM.Paths(g, Elems(matching)))
      invariant GM.Largest(g, Elems(matching)) == GM.Largest(g, {})
      decreases |b.left| - |Elems(matching)|
    {
      ghost var before := Elems(matching);
      GM.PhaseIs(g, before);
      matching := FlipAll(g, matching, paths);
      paths := MaximalDisjointSLAPCollection(g, matching);
    }
    DistinctSize(matching);
  }

  /** The inner loop of LargestMatching. */
  method FlipAll(g: Graph, matching: seq<Edge>, paths: seq<seq<Edge>>) returns (flipped: seq<Edge>)
    requires WellFormed(g) && Distinct(matching) && Lists(paths, GM.Paths(g, Elems(matching)))
    ensures Distinct(flipped) && Elems(flipped) == GM.Flip(Elems(matching), GM.Paths(g, Elems(matching)))
  {
    ghost var nodes := GM.Paths(g, Elems(matching));
    ghost var depth := GM.PathsIs(g, Elems(matching));
    flipped := matching;
    assert nodes[0..] == nodes;
    for i := 0 to |paths|
      invariant Distinct(flipped)
      invariant GM.Flip(Elems(flipped), nodes[i..]) == GM.Flip(Elems(matching), nodes)
    {
      assert nodes[i..][1..] == nodes[i+1..];
      assert GM.Augmenting(ShapeOf(g), Elems(matching), nodes[i]);
      PathEdgeListIs(nodes[i]);
      var before := flipped;
      flipped := SymmetricDifference(flipped, paths[i]);
      SymmetricDifferenceIs(before, paths[i], flipped);
    }
  }
}
