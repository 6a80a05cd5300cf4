/** Alternating paths, augmentation and the whole of LargestMatching, on values. */
module GoraphMatching {
  import opened Sequences
  import opened Goraph
  import opened Wrappers

  // ------------------------------------------------- depth-first descent

  /** findDisjointSLAPHelper: the first path down to layer 0 that avoids `used`. */
  function Find(b: Shape, m: set<Edge>, layers: seq<seq<Node>>, used: set<Node>, cur: Node, level: nat)
    : Option<seq<Node>>
    requires level < |layers|
    decreases level, 1, 0
  {
    if level == 0 then Some([cur])
    else Try(b, m, layers, used + {cur}, cur, level, layers[level-1])
  }

  function Try(b: Shape, m: set<Edge>, layers: seq<seq<Node>>, used: set<Node>, cur: Node, level: nat,
               candidates: seq<Node>): Option<seq<Node>>
    requires 0 < level < |layers|
    decreases level, 0, |candidates|
  {
    if candidates == [] then None
    else
      var next := candidates[0];
      var below := if next !in used && Link(b, m, level, cur, next)
                   then Find(b, m, layers, used, next, level - 1) else None;
      if below.Some? then Some([cur] + below.value)
      else Try(b, m, layers, used, cur, level, candidates[1..])
  }

  /** Consecutive nodes are linked, the last one standing in layer 0. */
  predicate Descends(b: Shape, m: set<Edge>, p: seq<Node>) {
    |p| > 0 && (|p| > 1 ==> Link(b, m, |p| - 1, p[0], p[1]) && Descends(b, m, p[1..]))
  }

  ghost predicate Guided(depth: map<Node, nat>, p: seq<Node>) {
    forall k :: 0 <= k < |p| ==> p[k] in depth && depth[p[k]] == |p| - 1 - k
  }

  /** A path from cur through the layers whose further nodes avoid `used`. */
  ghost predicate PathFrom(b: Shape, m: set<Edge>, depth: map<Node, nat>, used: set<Node>, cur: Node, p: seq<Node>) {
    && Descends(b, m, p)
    && p[0] == cur
    && Guided(depth, p)
    && forall k :: 1 <= k < |p| ==> p[k] !in used
  }

  lemma Prepend(b: Shape, m: set<Edge>, depth: map<Node, nat>, used: set<Node>, cur: Node, next: Node, p: seq<Node>)
    requires PathFrom(b, m, depth, used, next, p) && next !in used
    requires cur in depth && depth[cur] == |p| && Link(b, m, |p|, cur, next)
    ensures PathFrom(b, m, depth, used, cur, [cur] + p)
  {
    assert ([cur] + p)[1..] == p;
  }

  lemma Behead(b: Shape, m: set<Edge>, depth: map<Node, nat>, used: set<Node>, cur: Node, p: seq<Node>)
    requires PathFrom(b, m, depth, used, cur, p) && |p| > 1
    ensures PathFrom(b, m, depth, used, p[1], p[1..]) && p[1] !in used && Link(b, m, |p| - 1, cur, p[1])
  {
  }

  /** The descent finds a path exactly when there is one. */
  lemma {:induction false} FindIs(b: Shape, m: set<Edge>, layers: seq<seq<Node>>, depth: map<Node, nat>,
                                  used: set<Node>, cur: Node, level: nat)
    requires Listing(layers, depth) && level < |layers| && cur in depth && depth[cur] == level
    ensures Find(b, m, layers, used, cur, level).Some? ==>
      PathFrom(b, m, depth, used, cur, Find(b, m, layers, used, cur, level).value)
    ensures Find(b, m, layers, used, cur, level).None? ==>
      forall p :: !PathFrom(b, m, depth, used, cur, p)
    decreases level, 1, 0
  {
    if level > 0 {
      assert LayerIs(layers[level-1], level - 1, depth);
      forall p | PathFrom(b, m, depth, used, cur, p)
        ensures PathFrom(b, m, depth, used + {cur}, cur, p) && |p| > 1 && p[1] in layers[level-1]
      {
        assert |p| == level + 1;
        assert p[1] in AtDepth(depth, level - 1);
      }
      TryIs(b, m, layers, depth, used + {cur}, cur, level, layers[level-1]);
    }
  }

  lemma {:induction false} TryIs(b: Shape, m: set<Edge>, layers: seq<seq<Node>>, depth: map<Node, nat>,
                                 used: set<Node>, cur: Node, level: nat, candidates: seq<Node>)
    requires Listing(layers, depth) && 0 < level < |layers| && cur in depth && depth[cur] == level
    requires Elems(candidates) <= AtDepth(depth, level - 1)
    ensures Try(b, m, layers, used, cur, level, candidates).Some? ==>
      PathFrom(b, m, depth, used, cur, Try(b, m, layers, used, cur, level, candidates).value)
    ensures Try(b, m, layers, used, cur, level, candidates).None? ==>
      forall p :: PathFrom(b, m, depth, used, cur, p) ==> |p| > 1 && p[1] !in candidates
    decreases level, 0, |candidates|
  {
    if candidates == [] {
      forall p | PathFrom(b, m, depth, used, cur, p) ensures |p| > 1 {
        assert depth[p[0]] == |p| - 1;
      }
    } else {
      var next := candidates[0];
      ElemsCons(candidates);
      FindIs(b, m, layers, depth, used, next, level - 1);
      TryIs(b, m, layers, depth, used, cur, level, candidates[1..]);
      var open := next !in used && Link(b, m, level, cur, next);
      if open && Find(b, m, layers, used, next, level - 1).Some? {
        var q := Find(b, m, layers, used, next, level - 1).value;
        assert depth[q[0]] == |q| - 1;
        Prepend(b, m, depth, used, cur, next, q);
      } else if Try(b, m, layers, used, cur, level, candidates[1..]).None? {
        forall p | PathFrom(b, m, depth, used, cur, p) ensures |p| > 1 && p[1] !in candidates {
          Behead(b, m, depth, used, cur, p);
          assert |p| - 1 == depth[p[0]];
        }
      }
    }
  }

  /** Every layered node starts some path, by its recorded predecessors. */
  lemma {:induction false} PathExists(b: Shape, m: set<Edge>, depth: map<Node, nat>, n: nat, x: Node)
    returns (p: seq<Node>)
    requires Depths(b, m, depth, n) && x in depth
    ensures PathFrom(b, m, depth, {}, x, p)
    decreases depth[x]
  {
    if depth[x] == 0 {
      p := [x];
    } else {
      assert HasLower(b, m, depth, x);
      var y :| y in depth && depth[y] == depth[x] - 1 && Link(b, m, depth[x], x, y);
      var q := PathExists(b, m, depth, n, y);
      assert depth[q[0]] == |q| - 1;
      Prepend(b, m, depth, {}, x, y, q);
      p := [x] + q;
    }
  }

  // ------------------------------------------------------------ one phase

  /** maximalDisjointSLAPCollection's loop over the last guide layer. */
  function Collect(b: Shape, m: set<Edge>, layers: seq<seq<Node>>, starts: seq<Node>, used: set<Node>): seq<seq<Node>>
    requires layers != []
  {
    if starts == [] then []
    else
      var found := Find(b, m, layers, used, starts[0], |layers| - 1);
      if found.Some? then [found.value] + Collect(b, m, layers, starts[1..], used + Elems(found.value))
      else Collect(b, m, layers, starts[1..], used)
  }

  function NodesIn(paths: seq<seq<Node>>): set<Node> {
    if paths == [] then {} else Elems(paths[0]) + NodesIn(paths[1..])
  }

  /** Pairwise node-disjoint. */
  predicate Disjoint(paths: seq<seq<Node>>) {
    paths == [] || (Elems(paths[0]) !! NodesIn(paths[1..]) && Disjoint(paths[1..]))
  }

  ghost predicate AllFrom(b: Shape, m: set<Edge>, depth: map<Node, nat>, starts: set<Node>, paths: seq<seq<Node>>) {
    forall i :: 0 <= i < |paths| ==>
      paths[i] != [] && paths[i][0] in starts && PathFrom(b, m, depth, {}, paths[i][0], paths[i])
  }

  lemma GuidedDistinct(depth: map<Node, nat>, p: seq<Node>)
    requires Guided(depth, p)
    ensures Distinct(p)
  {
    forall i, j | 0 <= i < j < |p| ensures p[i] != p[j] {
      assert depth[p[i]] != depth[p[j]];
    }
  }

  /** The collected paths are layered paths, node-disjoint from `used` and from each
      other, and no further path can be added: each start that is left is blocked. */
  lemma {:induction false} CollectIs(b: Shape, m: set<Edge>, layers: seq<seq<Node>>, depth: map<Node, nat>,
                                     starts: seq<Node>, used: set<Node>)
    requires Listing(layers, depth) && Distinct(starts)
    requires forall x :: x in starts ==> x in depth && depth[x] == |layers| - 1 && x !in used
    ensures var ps := Collect(b, m, layers, starts, used);
      && AllFrom(b, m, depth, Elems(starts), ps)
      && Disjoint(ps)
      && NodesIn(ps) !! used
    ensures var ps := Collect(b, m, layers, starts, used);
      forall u, p :: u in starts && PathFrom(b, m, depth, used + NodesIn(ps), u, p) ==> u in NodesIn(ps)
  {
    if starts != [] {
      var top := |layers| - 1;
      var u := starts[0];
      var rest := starts[1..];
      FindIs(b, m, layers, depth, used, u, top);
      if Find(b, m, layers, used, u, top).Some? {
        var p := Find(b, m, layers, used, u, top).value;
        AvoidsTop(depth, p, rest, top);
        CollectIs(b, m, layers, depth, rest, used + Elems(p));
        CollectCons(b, m, depth, starts, p, Collect(b, m, layers, rest, used + Elems(p)), used);
      } else {
        CollectIs(b, m, layers, depth, rest, used);
        CollectSkip(b, m, depth, starts, Collect(b, m, layers, rest, used), used);
      }
    }
  }

  lemma AvoidsTop(depth: map<Node, nat>, p: seq<Node>, rest: seq<Node>, top: nat)
    requires Guided(depth, p) && |p| == top + 1
    requires forall x :: x in rest ==> x in depth && depth[x] == top && x != p[0]
    ensures Elems(rest) !! Elems(p)
  {
    forall x | x in Elems(p) ensures x !in Elems(rest) {
      var k :| 0 <= k < |p| && p[k] == x;
      assert depth[p[k]] == top - k;
    }
  }

  lemma CollectCons(b: Shape, m: set<Edge>, depth: map<Node, nat>, starts: seq<Node>, p: seq<Node>,
                    ps: seq<seq<Node>>, used: set<Node>)
    requires starts != [] && starts[0] !in used && PathFrom(b, m, depth, used, starts[0], p)
    requires AllFrom(b, m, depth, Elems(starts[1..]), ps) && Disjoint(ps) && NodesIn(ps) !! used + Elems(p)
    requires forall u, q :: u in starts[1..] && PathFrom(b, m, depth, used + Elems(p) + NodesIn(ps), u, q) ==>
      u in NodesIn(ps)
    ensures AllFrom(b, m, depth, Elems(starts), [p] + ps) && Disjoint([p] + ps) && NodesIn([p] + ps) !! used
    ensures forall u, q :: u in starts && PathFrom(b, m, depth, used + NodesIn([p] + ps), u, q) ==>
      u in NodesIn([p] + ps)
  {
    assert ([p] + ps)[1..] == ps;
    ElemsCons(starts);
    assert PathFrom(b, m, depth, {}, p[0], p);
    assert used + (Elems(p) + NodesIn(ps)) == used + Elems(p) + NodesIn(ps);
    assert p[0] in Elems(p);
    forall i | 0 <= i < |[p] + ps|
      ensures ([p] + ps)[i] != [] && ([p] + ps)[i][0] in Elems(starts)
      ensures PathFrom(b, m, depth, {}, ([p] + ps)[i][0], ([p] + ps)[i])
    {
      if i > 0 {
        assert ([p] + ps)[i] == ps[i-1];
      }
    }
    forall u, q | u in starts && PathFrom(b, m, depth, used + NodesIn([p] + ps), u, q) ensures u in NodesIn([p] + ps) {
      if u != starts[0] {
        assert u in starts[1..];
      }
    }
  }

  lemma CollectSkip(b: Shape, m: set<Edge>, depth: map<Node, nat>, starts: seq<Node>, ps: seq<seq<Node>>,
                    used: set<Node>)
    requires starts != []
    requires AllFrom(b, m, depth, Elems(starts[1..]), ps)
    requires forall q :: !PathFrom(b, m, depth, used, starts[0], q)
    requires forall u, q :: u in starts[1..] && PathFrom(b, m, depth, used + NodesIn(ps), u, q) ==> u in NodesIn(ps)
    ensures AllFrom(b, m, depth, Elems(starts), ps)
    ensures forall u, q :: u in starts && PathFrom(b, m, depth, used + NodesIn(ps), u, q) ==> u in NodesIn(ps)
  {
    ElemsCons(starts);
    forall u, q | u in starts && PathFrom(b, m, depth, used + NodesIn(ps), u, q) ensures u in NodesIn(ps) {
      assert PathFrom(b, m, depth, used, u, q);
      assert u in starts[1..];
    }
  }

  // --------------------------------------------------------- augmentation

  function PathEdges(p: seq<Node>): set<Edge> {
    if |p| < 2 then {} else {LinkEdge(|p| - 1, p[0], p[1])} + PathEdges(p[1..])
  }

  function SymDiff(m: set<Edge>, s: set<Edge>): set<Edge> {
    (m - s) + (s - m)
  }

  /** The edges of m at right node x. */
  function At(m: set<Edge>, x: Node): set<Edge> {
    set e | e in m && e.node2 == x
  }

  function Degree(m: set<Edge>, x: Node): int {
    |At(m, x)|
  }

  /** An alternating path from a right node, free or not, to a free left node. */
  ghost predicate Augmenting(b: Shape, m: set<Edge>, p: seq<Node>) {
    |p| >= 2 && |p| % 2 == 0 && Descends(b, m, p) && Distinct(p) && Free(m, p[|p|-1])
  }

  /** m' is m with one more edge: left nodes still have at most one edge, and among
      the right nodes only x gained one. */
  ghost predicate Gains(b: Shape, m: set<Edge>, m': set<Edge>, x: Node) {
    && LeftMatching(b, m')
    && |m'| == |m| + 1
    && forall y :: Degree(m', y) == Degree(m, y) + if y == x then 1 else 0
  }

  lemma PathEdgesTouch(p: seq<Node>)
    ensures forall e :: e in PathEdges(p) ==> e.node1 in p && e.node2 in p
  {
  }

  lemma AddEdge(b: Shape, m: set<Edge>, e: Edge)
    requires LeftMatching(b, m) && e in b.edges && Free(m, e.node1)
    ensures Gains(b, m, m + {e}, e.node2)
  {
    assert e !in m;
    assert At(m + {e}, e.node2) == At(m, e.node2) + {e};
    forall y ensures Degree(m + {e}, y) == Degree(m, y) + if y == e.node2 then 1 else 0 {
      if y != e.node2 {
        assert At(m + {e}, y) == At(m, y);
      }
    }
  }

  /** Moving a left node's edge from old to new moves the gain with it. */
  lemma MoveEdge(b: Shape, m: set<Edge>, m1: set<Edge>, old_: Edge, new_: Edge)
    requires Gains(b, m, m1, old_.node2)
    requires old_ in m1 && new_ !in m1 && new_ in b.edges && old_.node1 == new_.node1 && old_.node2 != new_.node2
    ensures Gains(b, m, m1 - {old_} + {new_}, new_.node2)
  {
    forall y ensures Degree(m1 - {old_} + {new_}, y) ==
      Degree(m1, y) + if y == new_.node2 then 1 else if y == old_.node2 then -1 else 0
    {
      MoveDegree(m1, old_, new_, y);
    }
  }

  lemma MoveDegree(m1: set<Edge>, old_: Edge, new_: Edge, y: Node)
    requires old_ in m1 && new_ !in m1 && old_.node2 != new_.node2
    ensures Degree(m1 - {old_} + {new_}, y) ==
      Degree(m1, y) + if y == new_.node2 then 1 else if y == old_.node2 then -1 else 0
  {
    var m2 := m1 - {old_} + {new_};
    if y == new_.node2 {
      assert At(m2, y) == At(m1, y) + {new_};
    } else if y == old_.node2 {
      assert At(m2, y) == At(m1, y) - {old_};
    } else {
      assert At(m2, y) == At(m1, y);
    }
  }

  lemma TailEdges(p: seq<Node>)
    requires |p| > 2 && |p| % 2 == 0
    ensures PathEdges(p) == {Edge(p[1], p[0]), Edge(p[1], p[2])} + PathEdges(p[2..])
  {
    var q := p[1..];
    assert q[1..] == p[2..];
    assert PathEdges(q) == {Edge(p[1], p[2])} + PathEdges(p[2..]);
  }

  lemma TailLinks(b: Shape, m: set<Edge>, p: seq<Node>)
    requires |p| > 2 && |p| % 2 == 0 && Descends(b, m, p)
    ensures Edge(p[1], p[0]) in b.edges && Edge(p[1], p[0]) !in m && Edge(p[1], p[2]) in m
    ensures Descends(b, m, p[2..])
  {
    var q := p[1..];
    assert Descends(b, m, q) && q[1..] == p[2..];
    assert Link(b, m, |q| - 1, q[0], q[1]);
  }

  /** Flipping two more edges in front of a flipped path moves one edge. */
  lemma FlipFront(m: set<Edge>, s: set<Edge>, e: Edge, f: Edge)
    requires e !in m && f in m && e !in s && f !in s
    ensures SymDiff(m, {e, f} + s) == SymDiff(m, s) - {f} + {e}
    ensures f in SymDiff(m, s) && e !in SymDiff(m, s)
  {
  }

  /** Flipping an augmenting path gives its start, and no other right node, one more edge. */
  lemma {:induction false} Augment(b: Shape, m: set<Edge>, p: seq<Node>)
    requires LeftMatching(b, m) && Augmenting(b, m, p)
    ensures Gains(b, m, SymDiff(m, PathEdges(p)), p[0])
  {
    if |p| == 2 {
      AugmentShort(b, m, p);
    } else {
      var e, f := Edge(p[1], p[0]), Edge(p[1], p[2]);
      TailLinks(b, m, p);
      AugmentingTail(b, m, p);
      Augment(b, m, p[2..]);
      PathEdgesTouch(p[2..]);
      TailEdges(p);
      FlipFront(m, PathEdges(p[2..]), e, f);
      MoveEdge(b, m, SymDiff(m, PathEdges(p[2..])), f, e);
    }
  }

  lemma AugmentShort(b: Shape, m: set<Edge>, p: seq<Node>)
    requires LeftMatching(b, m) && Augmenting(b, m, p) && |p| == 2
    ensures Gains(b, m, SymDiff(m, PathEdges(p)), p[0])
  {
    var e := Edge(p[1], p[0]);
    assert Link(b, m, 1, p[0], p[1]) && PathEdges(p[1..]) == {};
    assert SymDiff(m, PathEdges(p)) == m + {e};
    AddEdge(b, m, e);
  }

  lemma AugmentingTail(b: Shape, m: set<Edge>, p: seq<Node>)
    requires Augmenting(b, m, p) && |p| > 2 && Descends(b, m, p[2..])
    ensures Augmenting(b, m, p[2..]) && p[1] !in p[2..] && p[0] != p[2]
  {
    assert p[2..][|p|-3] == p[|p|-1];
  }

  /** Flipping p leaves every node-disjoint augmenting path augmenting. */
  lemma {:induction false} DisjointSurvives(b: Shape, m: set<Edge>, s: set<Edge>, p: seq<Node>)
    requires forall e :: e in s ==> e.node1 !in p && e.node2 !in p
    requires Descends(b, m, p)
    ensures Descends(b, SymDiff(m, s), p)
  {
    if |p| > 1 {
      DisjointSurvives(b, m, s, p[1..]);
    }
  }

  /** LargestMatching's inner loop. */
  function Flip(m: set<Edge>, paths: seq<seq<Node>>): set<Edge>
    decreases |paths|
  {
    if paths == [] then m else Flip(SymDiff(m, PathEdges(paths[0])), paths[1..])
  }

  ghost predicate AllAugmenting(b: Shape, m: set<Edge>, paths: seq<seq<Node>>) {
    forall i :: 0 <= i < |paths| ==> Augmenting(b, m, paths[i])
  }

  function Starts(paths: seq<seq<Node>>): set<Node> {
    set p | p in paths && p != [] :: p[0]
  }

  lemma InNodesIn(paths: seq<seq<Node>>, i: nat)
    requires i < |paths|
    ensures Elems(paths[i]) <= NodesIn(paths)
  {
    if i > 0 {
      InNodesIn(paths[1..], i - 1);
    }
  }

  lemma FlipRest(b: Shape, m: set<Edge>, paths: seq<seq<Node>>)
    requires paths != [] && AllAugmenting(b, m, paths) && Disjoint(paths)
    ensures AllAugmenting(b, SymDiff(m, PathEdges(paths[0])), paths[1..])
  {
    var p := paths[0];
    PathEdgesTouch(p);
    forall i | 0 <= i < |paths[1..]| ensures Augmenting(b, SymDiff(m, PathEdges(p)), paths[1..][i]) {
      var q := paths[1..][i];
      assert q == paths[i+1] && Augmenting(b, m, q);
      InNodesIn(paths[1..], i);
      assert forall x :: x in p ==> x in Elems(p);
      assert forall x :: x in q ==> x in Elems(q);
      DisjointSurvives(b, m, PathEdges(p), q);
    }
  }

  /** Flipping k disjoint augmenting paths adds exactly k edges, keeps at most one edge
      per left node, and gives exactly the k starts one more edge on the right. */
  lemma {:induction false} FlipIs(b: Shape, m: set<Edge>, paths: seq<seq<Node>>)
    requires LeftMatching(b, m) && AllAugmenting(b, m, paths) && Disjoint(paths)
    ensures LeftMatching(b, Flip(m, paths))
    ensures |Flip(m, paths)| == |m| + |paths|
    ensures forall y :: Degree(Flip(m, paths), y) == Degree(m, y) + if y in Starts(paths) then 1 else 0
    decreases |paths|
  {
    if paths != [] {
      var p := paths[0];
      assert Augmenting(b, m, p);
      Augment(b, m, p);
      FlipRest(b, m, paths);
      FlipIs(b, SymDiff(m, PathEdges(p)), paths[1..]);
      StartsCons(b, m, paths);
    }
  }

  lemma StartsCons(b: Shape, m: set<Edge>, paths: seq<seq<Node>>)
    requires paths != [] && AllAugmenting(b, m, paths) && Disjoint(paths)
    ensures Starts(paths) == Starts(paths[1..]) + {paths[0][0]}
    ensures paths[0][0] !in Starts(paths[1..])
  {
    assert Augmenting(b, m, paths[0]);
    assert paths == [paths[0]] + paths[1..];
    assert paths[0][0] in Elems(paths[0]);
    forall x | x in Starts(paths[1..]) ensures x in NodesIn(paths[1..]) {
      var i :| 0 <= i < |paths[1..]| && paths[1..][i] != [] && paths[1..][i][0] == x;
      InNodesIn(paths[1..], i);
      assert x in Elems(paths[1..][i]);
    }
  }

  ghost predicate AllFree(m: set<Edge>, paths: seq<seq<Node>>) {
    forall x :: x in Starts(paths) ==> Free(m, x)
  }

  lemma RightDegrees(b: Shape, m: set<Edge>)
    requires LeftMatching(b, m)
    ensures Matching(b, m) <==> forall y :: Degree(m, y) <= 1
  {
    if Matching(b, m) {
      forall y ensures Degree(m, y) <= 1 {
        if At(m, y) != {} {
          var e :| e in At(m, y);
          assert At(m, y) == {e};
        }
      }
    }
    if forall y :: Degree(m, y) <= 1 {
      forall e, f | e in m && f in m && e.node2 == f.node2 ensures e == f {
        var s := At(m, e.node2);
        assert |s| == Degree(m, e.node2);
        assert {e, f} <= s;
        if e != f {
          SubsetSize({e, f}, s);
        }
      }
    }
  }

  lemma SubsetSize<T>(s: set<T>, t: set<T>)
    requires s <= t
    ensures |s| <= |t|
  {
    assert t == s + (t - s);
  }

  /** The exact condition for one phase: its outcome is a matching if and only if it
      started from a matching and every flipped path starts at a free right node. */
  lemma FlipMatching(b: Shape, m: set<Edge>, paths: seq<seq<Node>>)
    requires Bipartite(b) && LeftMatching(b, m) && AllAugmenting(b, m, paths) && Disjoint(paths)
    ensures Matching(b, Flip(m, paths)) <==> Matching(b, m) && AllFree(m, paths)
  {
    FlipIs(b, m, paths);
    RightDegrees(b, m);
    RightDegrees(b, Flip(m, paths));
    forall y | y in Starts(paths) ensures y in b.right && (Free(m, y) <==> Degree(m, y) == 0) {
      var i :| 0 <= i < |paths| && paths[i] != [] && paths[i][0] == y;
      assert Augmenting(b, m, paths[i]);
      if At(m, y) == {} {
        forall e | e in m ensures e.node1 != y && e.node2 != y {
          assert e !in At(m, y);
        }
      } else {
        var e :| e in At(m, y);
      }
    }
  }

  // -------------------------------------------------- certificate and run

  lemma {:induction false} InjectionSize<S, T>(s: set<S>, t: set<T>, f: map<S, T>)
    requires forall x :: x in s ==> x in f && f[x] in t
    requires forall x, y :: x in s && y in s && x != y ==> f[x] != f[y]
    ensures |s| <= |t|
  {
    if s != {} {
      var x :| x in s;
      InjectionSize(s - {x}, t - {f[x]}, f);
    }
  }

  /** The edge of m charged for an edge of another matching: the one at its right end
      when that was reached, otherwise the one at its left end. */
  ghost predicate Charges(m: set<Edge>, reached: set<Node>, e: Edge, c: Edge) {
    c in m && if e.node1 in reached then e.node2 in reached && c.node2 == e.node2 else c.node1 == e.node1
  }

  lemma ChargeExists(b: Shape, m: set<Edge>, reached: set<Node>, e: Edge)
    requires Bipartite(b) && LeftMatching(b, m) && Stuck(b, m, reached) && e in b.edges
    ensures exists c :: Charges(m, reached, e, c)
  {
    if e.node1 in reached {
      if e in m {
        assert !Free(m, e.node1);
        assert EnteredBack(m, reached, e.node1);
      }
      assert e.node2 in reached && !Free(m, e.node2);
      var c :| c in m && (c.node1 == e.node2 || c.node2 == e.node2);
      assert c in b.edges;
      assert Charges(m, reached, e, c);
    } else {
      assert !Free(m, e.node1);
      var c :| c in m && (c.node1 == e.node1 || c.node2 == e.node1);
      assert c in b.edges;
      assert Charges(m, reached, e, c);
    }
  }

  lemma ChargesApart(b: Shape, m: set<Edge>, reached: set<Node>, e: Edge, f: Edge, c: Edge)
    requires LeftMatching(b, m) && Stuck(b, m, reached)
    requires Charges(m, reached, e, c) && Charges(m, reached, f, c)
    ensures e.node1 == f.node1 || e.node2 == f.node2
  {
    assert c in b.edges;
  }

  /** The vertex-cover argument: once no free right node is reachable from a free left
      node, no matching of the graph has more edges. */
  lemma StuckIsMaximum(b: Shape, m: set<Edge>, reached: set<Node>, other: set<Edge>)
    requires Bipartite(b) && LeftMatching(b, m) && Stuck(b, m, reached) && Matching(b, other)
    ensures |other| <= |m|
  {
    forall e | e in other ensures exists c :: Charges(m, reached, e, c) {
      ChargeExists(b, m, reached, e);
    }
    var f := map e | e in other :: var c :| Charges(m, reached, e, c); c;
    forall x, y | x in other && y in other && x != y ensures f[x] != f[y] {
      if f[x] == f[y] {
        ChargesApart(b, m, reached, x, y, f[x]);
      }
    }
    InjectionSize(other, m, f);
  }

  /** maximalDisjointSLAPCollection. */
  function Paths(g: Graph, m: set<Edge>): seq<seq<Node>> {
    var layers := Layers(g, m);
    if layers == [] then [] else Collect(ShapeOf(g), m, layers, layers[|layers|-1], {})
  }

  lemma FromIsAugmenting(b: Shape, m: set<Edge>, depth: map<Node, nat>, n: nat, x: Node, p: seq<Node>)
    requires Depths(b, m, depth, n) && PathFrom(b, m, depth, {}, x, p) && |p| == n && n % 2 == 0
    ensures Augmenting(b, m, p)
  {
    GuidedDistinct(depth, p);
    assert depth[p[n-1]] == 0;
  }

  /** Every path of a phase is augmenting, they are pairwise disjoint, the collection is
      maximal, and it is empty only when the certificate holds. */
  lemma PathsIs(g: Graph, m: set<Edge>) returns (depth: map<Node, nat>)
    requires WellFormed(g)
    ensures AllAugmenting(ShapeOf(g), m, Paths(g, m)) && Disjoint(Paths(g, m))
    ensures Layers(g, m) != [] ==> Paths(g, m) != []
    ensures forall i :: 0 <= i < |Paths(g, m)| ==> |Paths(g, m)[i]| == |Layers(g, m)|
    ensures Paths(g, m) == [] ==> Stuck(ShapeOf(g), m, depth.Keys)
    ensures Paths(g, m) != [] ==>
      && Guide(ShapeOf(g), m, Layers(g, m), depth)
      && forall u, p ::
           u in Layers(g, m)[|Layers(g, m)|-1] && PathFrom(ShapeOf(g), m, depth, NodesIn(Paths(g, m)), u, p) ==>
             u in NodesIn(Paths(g, m))
  {
    var b, layers, paths := ShapeOf(g), Layers(g, m), Paths(g, m);
    depth := LayersIs(g, m);
    if layers != [] {
      var n := |layers|;
      var last := layers[n-1];
      assert LayerIs(last, n - 1, depth);
      forall x | x in last ensures x in depth && depth[x] == n - 1 {
        assert x in Elems(last);
      }
      CollectIs(b, m, layers, depth, last, {});
      assert {} + NodesIn(paths) == NodesIn(paths);
      forall i | 0 <= i < |paths| ensures Augmenting(b, m, paths[i]) && |paths[i]| == n {
        assert depth[paths[i][0]] == n - 1 by { assert paths[i][0] in Elems(last); }
        FromIsAugmenting(b, m, depth, n, paths[i][0], paths[i]);
      }
      FirstStartFinds(b, m, layers, depth);
    }
  }

  /** A descent below the last layer stays within the layers, no node of it deeper than its place in the descent. */
  lemma {:induction false} DescentIsReached(b: Shape, m: set<Edge>, layers: seq<seq<Node>>, depth: map<Node, nat>,
                                            p: seq<Node>)
    requires Bipartite(b) && Guide(b, m, layers, depth) && Nearest(b, m, layers, depth)
    requires Descends(b, m, p) && p[|p|-1] in b.left && Free(m, p[|p|-1]) && |p| < |layers|
    ensures p[0] in depth && depth[p[0]] <= |p| - 1 && depth[p[0]] % 2 == (|p| - 1) % 2
  {
    if |p| > 1 {
      var q := p[1..];
      assert q[|q|-1] == p[|p|-1];
      DescentIsReached(b, m, layers, depth, q);
      var d := depth[q[0]];
      assert Link(b, m, |p| - 1, p[0], q[0]);
      assert Link(b, m, d + 1, p[0], q[0]) && p[0] in Side(b, d + 1);
      assert p[0] in Side(b, depth[p[0]]);
    }
  }

  /** No augmenting path from a free right node is shorter than the layers are deep. */
  lemma NoShorterPath(b: Shape, m: set<Edge>, layers: seq<seq<Node>>, depth: map<Node, nat>, p: seq<Node>)
    requires Bipartite(b) && Guide(b, m, layers, depth) && Nearest(b, m, layers, depth)
    requires Augmenting(b, m, p) && Free(m, p[0])
    ensures |layers| <= |p|
  {
    if |p| < |layers| {
      LastIsLeft(b, m, p);
      DescentIsReached(b, m, layers, depth, p);
    }
  }

  lemma {:induction false} LastIsLeft(b: Shape, m: set<Edge>, p: seq<Node>)
    requires Bipartite(b) && Descends(b, m, p) && |p| > 1
    ensures p[|p|-1] in b.left
  {
    if |p| > 2 {
      LastIsLeft(b, m, p[1..]);
    } else {
      assert Link(b, m, 1, p[0], p[1]);
    }
  }

  /** The paths of a phase are shortest: none that starts at a free right node has fewer nodes. */
  lemma PathsAreShortest(g: Graph, m: set<Edge>, i: nat, p: seq<Node>)
    requires WellFormed(g) && i < |Paths(g, m)|
    requires Augmenting(ShapeOf(g), m, p) && Free(m, p[0])
    ensures |Paths(g, m)[i]| <= |p|
  {
    var _ := PathsIs(g, m);
    var depth := LayersIs(g, m);
    NoShorterPath(ShapeOf(g), m, Layers(g, m), depth, p);
  }

  /** Non-empty guide layers always yield a path. */
  lemma FirstStartFinds(b: Shape, m: set<Edge>, layers: seq<seq<Node>>, depth: map<Node, nat>)
    requires Guide(b, m, layers, depth)
    ensures Collect(b, m, layers, layers[|layers|-1], {}) != []
  {
    var n := |layers|;
    var u := layers[n-1][0];
    assert LayerIs(layers[n-1], n - 1, depth);
    assert u in Elems(layers[n-1]);
    FindIs(b, m, layers, depth, {}, u, n - 1);
    var p := PathExists(b, m, depth, n, u);
  }

  lemma LeftMatchingSize(b: Shape, m: set<Edge>)
    requires Bipartite(b) && LeftMatching(b, m)
    ensures |m| <= |b.left|
  {
    InjectionSize(m, b.left, map e | e in m :: e.node1);
  }

  /** One round of LargestMatching keeps at most one edge per left node and adds edges. */
  lemma PhaseIs(g: Graph, m: set<Edge>)
    requires WellFormed(g) && LeftMatching(ShapeOf(g), m)
    ensures LeftMatching(ShapeOf(g), Flip(m, Paths(g, m)))
    ensures |Flip(m, Paths(g, m))| == |m| + |Paths(g, m)| <= |ShapeOf(g).left|
    ensures Matching(ShapeOf(g), Flip(m, Paths(g, m))) <==> Matching(ShapeOf(g), m) && AllFree(m, Paths(g, m))
  {
    var depth := PathsIs(g, m);
    FlipIs(ShapeOf(g), m, Paths(g, m));
    FlipMatching(ShapeOf(g), m, Paths(g, m));
    LeftMatchingSize(ShapeOf(g), Flip(m, Paths(g, m)));
  }

  /** LargestMatching continued from m: it stops on every graph. */
  ghost function Largest(g: Graph, m: set<Edge>): set<Edge>
    requires WellFormed(g) && LeftMatching(ShapeOf(g), m)
    decreases |ShapeOf(g).left| - |m|
  {
    PhaseIs(g, m);
    if Paths(g, m) == [] then m else Largest(g, Flip(m, Paths(g, m)))
  }

  /** In every remaining phase each collected path starts at a free right node. */
  ghost predicate StartsFree(g: Graph, m: set<Edge>)
    requires WellFormed(g) && LeftMatching(ShapeOf(g), m)
    decreases |ShapeOf(g).left| - |m|
  {
    PhaseIs(g, m);
    Paths(g, m) == [] || (AllFree(m, Paths(g, m)) && StartsFree(g, Flip(m, Paths(g, m))))
  }

  /** The result never has fewer edges than a matching of the graph, and it is a
      matching, hence a largest one, exactly when no phase starts at a taken node. */
  lemma {:induction false} LargestIs(g: Graph, m: set<Edge>)
    requires WellFormed(g) && LeftMatching(ShapeOf(g), m)
    ensures LeftMatching(ShapeOf(g), Largest(g, m))
    ensures |m| <= |Largest(g, m)| <= |ShapeOf(g).left|
    ensures forall other :: Matching(ShapeOf(g), other) ==> |other| <= |Largest(g, m)|
    ensures Matching(ShapeOf(g), Largest(g, m)) <==> Matching(ShapeOf(g), m) && StartsFree(g, m)
    decreases |ShapeOf(g).left| - |m|
  {
    PhaseIs(g, m);
    if Paths(g, m) == [] {
      var depth := PathsIs(g, m);
      forall other | Matching(ShapeOf(g), other) ensures |other| <= |m| {
        StuckIsMaximum(ShapeOf(g), m, depth.Keys, other);
      }
    } else {
      LargestIs(g, Flip(m, Paths(g, m)));
    }
  }

  ghost predicate Perfect(b: Shape, m: set<Edge>) {
    Matching(b, m) && |m| == |b.left|
  }

  /** The question that ConsistOf asks: does the result cover every value? If the values and the matchers can
      be paired off the answer is yes; the converse needs that no phase starts at a taken node. */
  lemma PairingIsFound(g: Graph)
    requires WellFormed(g)
    ensures (exists m :: Perfect(ShapeOf(g), m)) ==> |Largest(g, {})| == |ShapeOf(g).left|
    ensures StartsFree(g, {}) && |Largest(g, {})| == |ShapeOf(g).left| ==> Perfect(ShapeOf(g), Largest(g, {}))
  {
    LargestIs(g, {});
    if m :| Perfect(ShapeOf(g), m) {
      assert Matching(ShapeOf(g), m);
    }
  }
}
