/** Which specs of a suite run: the tree's flags, rewritten and collated, become the focus and
    pending marks of the specs, and the specs out of focus are skipped. */
module SpecSelection {
  import opened SpecTree
  import opened SpecTreeCode

  /** Unset is the zero value of the state: the spec will be run. */
  datatype SpecState = Unset | PendingSpec | Skipped

  predicate Has(containers: seq<Tree>, flag: Flag) {
    exists k :: 0 <= k < |containers| && containers[k].flag == flag
  }

  predicate SpecFocused(c: Collated) {
    c.subject.flag == Focused || Has(c.containers, Focused)
  }

  predicate SpecPending(c: Collated) {
    c.subject.flag == Pending || Has(c.containers, Pending)
  }

  function FirstState(c: Collated): SpecState {
    if SpecPending(c) then PendingSpec else Unset
  }

  predicate AnyFocused(cs: seq<Collated>) {
    exists k :: 0 <= k < |cs| && SpecFocused(cs[k])
  }

  function FinalState(cs: seq<Collated>, k: nat): SpecState
    requires k < |cs|
  {
    if AnyFocused(cs) && !SpecFocused(cs[k]) then Skipped else FirstState(cs[k])
  }

  // ------------------------------------------------------------- the code

  class Spec {
    const subject: Tree
    ghost const origin: Collated
    var focused: bool
    var state: SpecState

    /** Goes through the flags from the subject outwards. */
    constructor (subject: Tree, containers: seq<ContainerNode>, ghost c: Collated)
      requires subject == c.subject && Stand(containers, c.containers)
      ensures this.subject == subject && origin == c && focused == SpecFocused(c) && state == FirstState(c)
    {
      ghost var ts := c.containers;
      var focus, mark := subject.flag == Focused, Unset;
      if subject.flag == Focused {
        focus := true;
      } else if subject.flag == Pending {
        mark := PendingSpec;
      }
      var i := |containers|;
      while i > 0
        invariant 0 <= i <= |containers|
        invariant focus <==> subject.flag == Focused || Has(ts[i..], Focused)
        invariant mark == if subject.flag == Pending || Has(ts[i..], Pending) then PendingSpec else Unset
      {
        i := i - 1;
        HasCons(ts, i, Focused);
        HasCons(ts, i, Pending);
        if containers[i].flag == Focused {
          focus := true;
        } else if containers[i].flag == Pending {
          mark := PendingSpec;
        }
      }
      assert ts[0..] == ts;
      this.subject, origin, focused, state := subject, c, focus, mark;
    }

    method Skip()
      modifies this
      ensures state == Skipped && focused == old(focused)
    {
      state := Skipped;
    }
  }

  lemma HasCons(cs: seq<Tree>, i: nat, flag: Flag)
    requires i < |cs|
    ensures Has(cs[i..], flag) <==> cs[i].flag == flag || Has(cs[i+1..], flag)
  {
    if Has(cs[i..], flag) && cs[i].flag != flag {
      var k :| 0 <= k < |cs[i..]| && cs[i..][k].flag == flag;
      assert cs[i+1..][k-1].flag == flag;
    }
    if Has(cs[i+1..], flag) {
      var k :| 0 <= k < |cs[i+1..]| && cs[i+1..][k].flag == flag;
      assert cs[i..][k+1].flag == flag;
    }
    if cs[i].flag == flag {
      assert cs[i..][0].flag == flag;
    }
  }

  class Specs {
    var specs: seq<Spec>
    var hasProgrammaticFocus: bool

    constructor (specs: seq<Spec>)
      ensures this.specs == specs
    {
      this.specs, hasProgrammaticFocus := specs, false;
    }

    ghost predicate AsNew()
      reads this, specs
    {
      && (forall k :: 0 <= k < |specs| ==>
            specs[k].focused == SpecFocused(specs[k].origin) && specs[k].state == FirstState(specs[k].origin))
      && forall i, j :: 0 <= i < j < |specs| ==> specs[i] != specs[j]
    }

    method ApplyProgrammaticFocus()
      requires AsNew()
      modifies this, specs
      ensures specs == old(specs)
      ensures var cs := Origins(specs);
        && hasProgrammaticFocus == AnyFocused(cs)
        && forall k :: 0 <= k < |specs| ==> specs[k].state == FinalState(cs, k)
    {
      ghost var cs := Origins(specs);
      hasProgrammaticFocus := false;
      for i := 0 to |specs|
        invariant specs == old(specs) && AsNew() && !hasProgrammaticFocus
        invariant forall k :: 0 <= k < i ==> !SpecFocused(cs[k])
      {
        if specs[i].focused {
          assert SpecFocused(cs[i]);
          hasProgrammaticFocus := true;
          break;
        }
      }
      if hasProgrammaticFocus {
        for i := 0 to |specs|
          invariant specs == old(specs) && hasProgrammaticFocus
          invariant forall k :: 0 <= k < |specs| ==> specs[k].focused == SpecFocused(cs[k])
          invariant forall k :: 0 <= k < |specs| ==>
            specs[k].state == if k < i then FinalState(cs, k) else FirstState(cs[k])
        {
          if !specs[i].focused {
            specs[i].Skip();
          }
        }
      }
    }
  }

  ghost function Origins(specs: seq<Spec>): (cs: seq<Collated>)
    ensures |cs| == |specs| && forall k :: 0 <= k < |specs| ==> cs[k] == specs[k].origin
  {
    seq(|specs|, k requires 0 <= k < |specs| => specs[k].origin)
  }

  // ---------------------------------------------------------- whole suite

  lemma HasAlong(t: Tree, a: Address, flag: Flag)
    requires IsLeafAt(t, a) && a != []
    ensures Has(Along(t, a), flag) <==> t.flag == flag || Has(Along(t.children[a[0]], a[1..]), flag)
  {
    var s := Along(t, a);
    HasCons(s, 0, flag);
    assert s[0..] == s && s[1..] == Along(t.children[a[0]], a[1..]);
  }

  lemma {:induction false} ChainFlags(t: Tree, a: Address)
    requires IsLeafAt(t, a)
    ensures SpecFocused(Collated(Along(t, a), SubjectAt(t, a))) <==> UnderFocus(t, a)
    ensures SpecPending(Collated(Along(t, a), SubjectAt(t, a))) <==> UnderPending(t, a)
    decreases t
  {
    if a != [] {
      ChainFlags(t.children[a[0]], a[1..]);
      HasAlong(t, a, Focused);
      HasAlong(t, a, Pending);
    }
  }

  lemma {:induction false} LeavesUnfocus(t: Tree)
    ensures Leaves(Unfocus(t)) == Leaves(t)
    decreases t, 0
  {
    if t.Container? && t.flag != Pending {
      LeavesFromUnfocus(t.children, 0, t);
    }
  }

  lemma {:induction false} LeavesFromUnfocus(ts: seq<Tree>, k: nat, parent: Tree)
    requires forall x :: x in ts ==> x < parent
    ensures LeavesFrom(UnfocusAll(ts), k) == LeavesFrom(ts, k)
    decreases parent, 0, |ts|
  {
    if ts != [] {
      assert ts[0] in ts && forall x :: x in ts[1..] ==> x in ts;
      LeavesUnfocus(ts[0]);
      LeavesFromUnfocus(ts[1..], k + 1, parent);
      assert UnfocusAll(ts)[1..] == UnfocusAll(ts[1..]);
    }
  }

  /** The state a subject should get, in terms of the tree as written: skipped when some subject
      is under a lowest focused node and it is not, otherwise pending below a pending node. */
  ghost function Intended(t: Tree, a: Address): SpecState
    requires IsLeafAt(t, a)
  {
    if (exists b :: IsLeafAt(t, b) && UnderLowestFocus(t, b, true)) && !UnderLowestFocus(t, a, true) then Skipped
    else if UnderPending(t, a) then PendingSpec
    else Unset
  }

  lemma CollatedFlags(t: Tree, i: nat)
    requires i < |Leaves(t)|
    ensures var cs := Collate(Unfocus(t), []); var a := Leaves(t)[i];
      && |cs| == |Leaves(t)| && IsLeafAt(t, a) && cs[i].subject == SubjectAt(t, a)
      && (SpecFocused(cs[i]) <==> UnderLowestFocus(t, a, true))
      && (SpecPending(cs[i]) <==> UnderPending(t, a))
  {
    var a := Leaves(t)[i];
    LeavesAreAll(t);
    assert a in Leaves(t);
    LeavesUnfocus(t);
    CollateIs(Unfocus(t), []);
    assert Entry(Unfocus(t), [], Leaves(Unfocus(t))[i], Collate(Unfocus(t), [])[i]);
    assert [] + Along(Unfocus(t), a) == Along(Unfocus(t), a);
    UnfocusKeepsLeaves(t, a);
    ChainFlags(Unfocus(t), a);
    InnermostFocusWins(t, a);
  }

  /** Rewriting, collating, making specs and applying the focus gives every subject exactly its
      intended state. */
  lemma SelectionIsIntended(t: Tree, i: nat)
    requires i < |Leaves(t)|
    ensures var cs := Collate(Unfocus(t), []);
      |cs| == |Leaves(t)| && IsLeafAt(t, Leaves(t)[i]) && FinalState(cs, i) == Intended(t, Leaves(t)[i])
  {
    var cs := Collate(Unfocus(t), []);
    CollatedFlags(t, i);
    LeavesAreAll(t);
    if AnyFocused(cs) {
      var k :| 0 <= k < |cs| && SpecFocused(cs[k]);
      CollatedFlags(t, k);
      assert IsLeafAt(t, Leaves(t)[k]) && UnderLowestFocus(t, Leaves(t)[k], true);
    }
    if b :| IsLeafAt(t, b) && UnderLowestFocus(t, b, true) {
      assert b in Leaves(t);
      var k :| 0 <= k < |Leaves(t)| && Leaves(t)[k] == b;
      CollatedFlags(t, k);
      assert SpecFocused(cs[k]);
    }
  }

  // --------------------------------------------------- focus behind pending

  ghost predicate SomeFocused(t: Tree) {
    exists a :: IsLeafAt(t, a) && UnderLowestFocus(t, a, true)
  }

  ghost predicate AllFocused(t: Tree) {
    forall a :: IsLeafAt(t, a) ==> UnderLowestFocus(t, a, true)
  }

  /** The selection if only the focus that the rewrite can reach counted. */
  ghost function ByReachableFocus(t: Tree, a: Address): SpecState
    requires IsLeafAt(t, a)
  {
    if Focuses(t) && !UnderLowestFocus(t, a, true) then Skipped
    else if UnderPending(t, a) then PendingSpec
    else Unset
  }

  /** A focus behind a pending container still skips the subjects out of focus, and a focused container without
      subjects skips none: the selection is that of the reachable focus if and only if a reachable focus is there
      exactly when a subject is under focus, or every subject is. */
  lemma ReachableFocusDecides(t: Tree)
    ensures (forall a :: IsLeafAt(t, a) ==> Intended(t, a) == ByReachableFocus(t, a)) <==>
      (Focuses(t) <==> SomeFocused(t)) || AllFocused(t)
  {
    if !(Focuses(t) <==> SomeFocused(t)) && !AllFocused(t) {
      var a :| IsLeafAt(t, a) && !UnderLowestFocus(t, a, true);
      assert Intended(t, a) != ByReachableFocus(t, a);
    }
  }

  const HIDDEN_FOCUS := Container(0, NoFlag, [Container(1, Pending, [Leaf(2, Focused)]), Leaf(3, NoFlag)])

  /** With a focused subject behind a pending container and a plain one beside it, the rewrite finds no focus and
      yet nothing runs: one subject is pending and the other is skipped. */
  lemma HiddenFocusSkips(t: Tree)
    requires t == HIDDEN_FOCUS
    ensures !Focuses(t) && IsLeafAt(t, [0, 0]) && IsLeafAt(t, [1])
    ensures Intended(t, [0, 0]) == PendingSpec && Intended(t, [1]) == Skipped
  {
    var inner := t.children[0];
    assert [0, 0][1..] == [0] && [0][1..] == [] && [1][1..] == [];
    assert IsLeafAt(inner, [0]) && UnderLowestFocus(inner, [0], true);
    assert IsLeafAt(t, [0, 0]) && UnderLowestFocus(t, [0, 0], true);
    assert IsLeafAt(t, [1]) && !UnderLowestFocus(t, [1], true);
  }

  /** generateSpecs without a focus or skip expression: there is a spec for every subject of the suite, in the
      order of the tree, with the state that the flags as written demand. */
  method GenerateSpecs(top: ContainerNode) returns (specs: Specs)
    requires top.Valid()
    modifies top.repr
    ensures fresh(specs) && |specs.specs| == |Leaves(old(top.tree))|
    ensures forall i :: 0 <= i < |specs.specs| ==>
      && IsLeafAt(old(top.tree), Leaves(old(top.tree))[i])
      && specs.specs[i].subject == SubjectAt(old(top.tree), Leaves(old(top.tree))[i])
      && specs.specs[i].state == Intended(old(top.tree), Leaves(old(top.tree))[i])
  {
    ghost var t := top.tree;
    var _ := top.BackPropagateProgrammaticFocus();
    ghost var cs := Collate(Unfocus(t), []);
    var collated := top.Collate([], []);
    var slice := MakeSpecs(collated, cs);
    specs := new Specs(slice);
    specs.ApplyProgrammaticFocus();
    assert Origins(specs.specs) == cs;
    LeavesUnfocus(t);
    CollateIs(Unfocus(t), []);
    forall i | 0 <= i < |cs|
      ensures IsLeafAt(t, Leaves(t)[i]) && specs.specs[i].subject == SubjectAt(t, Leaves(t)[i])
      ensures specs.specs[i].state == Intended(t, Leaves(t)[i])
    {
      CollatedFlags(t, i);
      SelectionIsIntended(t, i);
    }
  }

  /** Its loop over the collated nodes. */
  method MakeSpecs(collated: seq<CollatedNodes>, ghost cs: seq<Collated>) returns (slice: seq<Spec>)
    requires Represent(collated, cs)
    ensures |slice| == |cs| && forall k :: 0 <= k < |slice| ==> fresh(slice[k])
    ensures forall k :: 0 <= k < |slice| ==>
      && slice[k].subject == cs[k].subject && slice[k].origin == cs[k]
      && slice[k].focused == SpecFocused(cs[k]) && slice[k].state == FirstState(cs[k])
    ensures forall i, j :: 0 <= i < j < |slice| ==> slice[i] != slice[j]
  {
    slice := [];
    for i := 0 to |collated|
      invariant |slice| == i && forall k :: 0 <= k < i ==> fresh(slice[k])
      invariant forall k :: 0 <= k < i ==>
        && slice[k].subject == cs[k].subject && slice[k].origin == cs[k]
        && slice[k].focused == SpecFocused(cs[k]) && slice[k].state == FirstState(cs[k])
      invariant forall j, k :: 0 <= j < k < i ==> slice[j] != slice[k]
    {
      var spec := new Spec(collated[i].subject, collated[i].containers, cs[i]);
      slice := slice + [spec];
    }
  }
}
