/** The container nodes as objects: their flags are rewritten in place, and the subjects below
    them collected. */
module SpecTreeCode {
  import opened SpecTree

  datatype Child = Sub(node: ContainerNode) | Subject(leaf: Tree)

  class ContainerNode {
    const id: int
    var flag: Flag
    var children: seq<Child>
    ghost var tree: Tree
    ghost var repr: set<ContainerNode>

    ghost predicate Valid()
      reads this, repr
      decreases repr
    {
      && this in repr
      && tree.Container? && tree.id == id && tree.flag == flag && |tree.children| == |children|
      && (forall i :: 0 <= i < |children| && children[i].Subject? ==>
            children[i].leaf.Leaf? && tree.children[i] == children[i].leaf)
      && (forall i :: 0 <= i < |children| && children[i].Sub? ==>
            && children[i].node in repr && children[i].node.repr <= repr && this !in children[i].node.repr
            && children[i].node.Valid() && tree.children[i] == children[i].node.tree)
      && (forall i, j :: 0 <= i < j < |children| && children[i].Sub? && children[j].Sub? ==>
            children[i].node.repr !! children[j].node.repr)
    }

    constructor (id: int, flag: Flag)
      ensures Valid() && fresh(repr) && tree == Container(id, flag, [])
    {
      this.id, this.flag, children := id, flag, [];
      tree, repr := Container(id, flag, []), {this};
    }

    method PushContainerNode(node: ContainerNode)
      requires Valid() && node.Valid() && node.repr !! repr
      modifies this
      ensures Valid() && repr == old(repr) + node.repr
      ensures tree == old(tree).(children := old(tree).children + [node.tree])
    {
      children := children + [Sub(node)];
      tree := tree.(children := tree.children + [node.tree]);
      repr := repr + node.repr;
    }

    method PushSubjectNode(leaf: Tree)
      requires Valid() && leaf.Leaf?
      modifies this
      ensures Valid() && repr == old(repr)
      ensures tree == old(tree).(children := old(tree).children + [leaf])
    {
      children := children + [Subject(leaf)];
      tree := tree.(children := tree.children + [leaf]);
    }

    /** Rewrites the flags of the whole subtree and says whether it held a reachable focus. */
    method BackPropagateProgrammaticFocus() returns (focus: bool)
      requires Valid()
      modifies repr
      ensures Valid() && repr == old(repr) && children == old(children)
      ensures tree == Unfocus(old(tree))
      ensures focus <==> Focuses(old(tree))
      decreases repr, 1
    {
      if flag == Pending {
        return false;
      }
      var shouldUnfocus := PropagateInChildren();
      focus := shouldUnfocus || flag == Focused;
      if shouldUnfocus && flag == Focused {
        flag := NoFlag;
      }
      tree := Unfocus(tree);
    }

    /** Its loop over the children; the node itself is not touched yet. */
    method PropagateInChildren() returns (shouldUnfocus: bool)
      requires Valid()
      modifies repr - {this}
      ensures shouldUnfocus <==> AnyFocuses(tree.children)
      ensures forall k :: 0 <= k < |children| && children[k].Sub? ==>
        && children[k].node.Valid() && children[k].node.repr == old(children[k].node.repr)
        && children[k].node.tree == Unfocus(tree.children[k])
      decreases repr, 0
    {
      shouldUnfocus := false;
      for i := 0 to |children|
        invariant forall k :: 0 <= k < |children| && children[k].Sub? ==>
          && children[k].node.Valid() && children[k].node.repr == old(children[k].node.repr)
          && children[k].node.tree == if k < i then Unfocus(tree.children[k]) else tree.children[k]
        invariant shouldUnfocus <==> AnyFocuses(tree.children[..i])
      {
        if children[i].Sub? {
          var b := children[i].node.BackPropagateProgrammaticFocus();
          shouldUnfocus := b || shouldUnfocus;
        } else {
          shouldUnfocus := children[i].leaf.flag == Focused || shouldUnfocus;
        }
        AnyFocusesSnoc(tree.children, i);
      }
      assert tree.children[..|children|] == tree.children;
    }

    /** The subjects below, each with the nodes of its containers. */
    method Collate(enclosing: seq<ContainerNode>, ghost above: seq<Tree>) returns (collated: seq<CollatedNodes>)
      requires Valid() && Stand(enclosing, above)
      ensures Represent(collated, SpecTree.Collate(tree, above))
      decreases repr
    {
      collated := [];
      var containers := enclosing + [this];
      ghost var path := above + [tree];
      assert Stand(containers, path);
      for i := 0 to |children|
        invariant Represent(collated, CollateAll(tree.children[..i], path))
      {
        var inner;
        if children[i].Sub? {
          inner := children[i].node.Collate(containers, path);
        } else {
          inner := [CollatedNodes(containers, children[i].leaf)];
        }
        assert Represent(inner, SpecTree.Collate(tree.children[i], path));
        CollateAllSnoc(tree.children, i, path);
        collated := collated + inner;
      }
      assert tree.children[..|children|] == tree.children;
    }
  }

  /** A subject and its containers, the outermost first. */
  datatype CollatedNodes = CollatedNodes(containers: seq<ContainerNode>, subject: Tree)

  /** The nodes stand for the trees, and have their flags. */
  ghost predicate Stand(nodes: seq<ContainerNode>, ts: seq<Tree>)
    reads nodes
  {
    |nodes| == |ts| && forall k :: 0 <= k < |nodes| ==> nodes[k].tree == ts[k] && nodes[k].flag == ts[k].flag
  }

  ghost function NodesOf(cs: seq<CollatedNodes>): (r: set<ContainerNode>)
    ensures forall k, n :: 0 <= k < |cs| && n in cs[k].containers ==> n in r
  {
    if cs == [] then {} else (set n | n in cs[0].containers) + NodesOf(cs[1..])
  }

  ghost predicate Represent(cs: seq<CollatedNodes>, es: seq<Collated>)
    reads NodesOf(cs)
  {
    |cs| == |es| && forall k :: 0 <= k < |cs| ==>
      cs[k].subject == es[k].subject && Stand(cs[k].containers, es[k].containers)
  }

  lemma AnyFocusesSnoc(ts: seq<Tree>, i: nat)
    requires i < |ts|
    ensures AnyFocuses(ts[..i+1]) <==> AnyFocuses(ts[..i]) || Focuses(ts[i])
  {
    assert ts[..i+1] == ts[..i] + [ts[i]];
    if AnyFocuses(ts[..i]) {
      var k :| 0 <= k < i && Focuses(ts[k]);
      assert ts[..i+1][k] == ts[k];
    }
    if Focuses(ts[i]) {
      assert ts[..i+1][i] == ts[i];
    }
  }

  lemma CollateAllSnoc(ts: seq<Tree>, i: nat, enclosing: seq<Tree>)
    requires i < |ts|
    ensures CollateAll(ts[..i+1], enclosing) == CollateAll(ts[..i], enclosing) + SpecTree.Collate(ts[i], enclosing)
  {
    CollateAllConcat(ts[..i], [ts[i]], enclosing);
    assert ts[..i+1] == ts[..i] + [ts[i]];
    assert CollateAll([ts[i]], enclosing) == SpecTree.Collate(ts[i], enclosing) + CollateAll([], enclosing);
  }

  lemma {:induction false} CollateAllConcat(s: seq<Tree>, t: seq<Tree>, enclosing: seq<Tree>)
    ensures CollateAll(s + t, enclosing) == CollateAll(s, enclosing) + CollateAll(t, enclosing)
    decreases |s|
  {
    if s == [] {
      assert s + t == t;
    } else {
      assert (s + t)[1..] == s[1..] + t;
      CollateAllConcat(s[1..], t, enclosing);
    }
  }
}
