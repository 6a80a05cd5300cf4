/** The tree of containers and subjects: propagating programmatic focus to the innermost
    focused nodes, and listing every subject with its containers. */
module SpecTree {

  datatype Flag = NoFlag | Focused | Pending

  /** Containers and subjects; `id` stands for the object itself. */
  datatype Tree =
    | Leaf(id: int, flag: Flag)
    | Container(id: int, flag: Flag, children: seq<Tree>)

  // ---------------------------------------------------------------- focus

  /** A focused node can be reached without passing a pending container. */
  predicate Focuses(t: Tree) {
    match t
    case Leaf(_, flag) => flag == Focused
    case Container(_, flag, children) => flag != Pending && (flag == Focused || AnyFocuses(children))
  }

  predicate AnyFocuses(ts: seq<Tree>) {
    exists k :: 0 <= k < |ts| && Focuses(ts[k])
  }

  /** The tree after BackPropagateProgrammaticFocus. */
  function Unfocus(t: Tree): Tree {
    match t
    case Leaf(_, _) => t
    case Container(id, flag, children) =>
      if flag == Pending then t
      else Container(id, if AnyFocuses(children) && flag == Focused then NoFlag else flag, UnfocusAll(children))
  }

  function UnfocusAll(ts: seq<Tree>): (r: seq<Tree>)
    ensures |r| == |ts| && forall k :: 0 <= k < |ts| ==> r[k] == Unfocus(ts[k])
  {
    if ts == [] then [] else [Unfocus(ts[0])] + UnfocusAll(ts[1..])
  }

  /** No reachable focused container has a reachable focused node below it. */
  predicate Tidy(t: Tree) {
    match t
    case Leaf(_, _) => true
    case Container(_, flag, children) =>
      flag == Pending ||
        ((flag == Focused ==> !AnyFocuses(children)) && forall k :: 0 <= k < |children| ==> Tidy(children[k]))
  }

  /** The rewrite keeps whether there is a reachable focus, in every subtree, and leaves only
      innermost focused containers focused. */
  lemma {:induction false} UnfocusIsTidy(t: Tree)
    ensures Focuses(Unfocus(t)) <==> Focuses(t)
    ensures Tidy(Unfocus(t))
  {
    if t.Container? {
      forall k | 0 <= k < |t.children| ensures Focuses(Unfocus(t.children[k])) <==> Focuses(t.children[k])
        ensures Tidy(Unfocus(t.children[k]))
      {
        UnfocusIsTidy(t.children[k]);
      }
      var r := UnfocusAll(t.children);
      if AnyFocuses(t.children) {
        var k :| 0 <= k < |t.children| && Focuses(t.children[k]);
        assert Focuses(r[k]);
      }
      if AnyFocuses(r) {
        var k :| 0 <= k < |r| && Focuses(r[k]);
        assert Focuses(t.children[k]);
      }
    }
  }

  // ------------------------------------------------------------ addresses

  /** A subject is addressed by the child indices from the root down. */
  type Address = seq<nat>

  /** The node at the address is focused, and no container above it is pending. */
  predicate FocusReached(t: Tree, a: Address)
    decreases t
  {
    if a == [] then t.flag == Focused
    else t.Container? && t.flag != Pending && a[0] < |t.children| && FocusReached(t.children[a[0]], a[1..])
  }

  lemma {:induction false} ReachedFocuses(t: Tree, a: Address)
    requires FocusReached(t, a)
    ensures Focuses(t)
    decreases t
  {
    if a != [] {
      ReachedFocuses(t.children[a[0]], a[1..]);
    }
  }

  lemma {:induction false} FocusesReach(t: Tree) returns (a: Address)
    requires Focuses(t)
    ensures FocusReached(t, a)
    decreases t
  {
    a := [];
    if t.flag != Focused {
      var k :| 0 <= k < |t.children| && Focuses(t.children[k]);
      var rest := FocusesReach(t.children[k]);
      a := [k] + rest;
      assert a[1..] == rest;
    }
  }

  /** A tree focuses if and only if such a node is there. */
  lemma FocusesIs(t: Tree)
    ensures Focuses(t) <==> exists a: Address :: FocusReached(t, a)
  {
    if Focuses(t) {
      var a := FocusesReach(t);
      assert FocusReached(t, a);
      assert exists b: Address :: FocusReached(t, b);
    } else if a: Address :| FocusReached(t, a) {
      ReachedFocuses(t, a);
    }
  }

  predicate IsLeafAt(t: Tree, a: Address)
    decreases t
  {
    if a == [] then t.Leaf? else t.Container? && a[0] < |t.children| && IsLeafAt(t.children[a[0]], a[1..])
  }

  /** The containers above the subject, outermost first. */
  function Along(t: Tree, a: Address): seq<Tree>
    requires IsLeafAt(t, a)
    decreases t
  {
    if a == [] then [] else [t] + Along(t.children[a[0]], a[1..])
  }

  function SubjectAt(t: Tree, a: Address): Tree
    requires IsLeafAt(t, a)
    decreases t
  {
    if a == [] then t else SubjectAt(t.children[a[0]], a[1..])
  }

  predicate UnderFocus(t: Tree, a: Address)
    requires IsLeafAt(t, a)
    decreases t
  {
    t.flag == Focused || (a != [] && UnderFocus(t.children[a[0]], a[1..]))
  }

  predicate UnderPending(t: Tree, a: Address)
    requires IsLeafAt(t, a)
    decreases t
  {
    t.flag == Pending || (a != [] && UnderPending(t.children[a[0]], a[1..]))
  }

  /** The subject or a container above it is a lowest focused node: focused with no reachable
      focus below.  Behind a pending container (reachable false) every focus counts. */
  predicate UnderLowestFocus(t: Tree, a: Address, reachable: bool)
    requires IsLeafAt(t, a)
    decreases t
  {
    || (t.flag == Focused && (t.Leaf? || !reachable || !AnyFocuses(t.children)))
    || (a != [] && UnderLowestFocus(t.children[a[0]], a[1..], reachable && t.flag != Pending))
  }

  lemma {:induction false} UnfocusKeepsLeaves(t: Tree, a: Address)
    ensures IsLeafAt(Unfocus(t), a) <==> IsLeafAt(t, a)
    ensures IsLeafAt(t, a) ==> (UnderPending(Unfocus(t), a) <==> UnderPending(t, a))
    ensures IsLeafAt(t, a) ==> SubjectAt(Unfocus(t), a) == SubjectAt(t, a)
    decreases t
  {
    if t.Container? && a != [] && a[0] < |t.children| {
      UnfocusKeepsLeaves(t.children[a[0]], a[1..]);
    }
  }

  lemma {:induction false} UnreachableFocus(t: Tree, a: Address)
    requires IsLeafAt(t, a)
    ensures UnderLowestFocus(t, a, false) <==> UnderFocus(t, a)
    decreases t
  {
    if a != [] {
      UnreachableFocus(t.children[a[0]], a[1..]);
    }
  }

  /** After the rewrite a subject is under focus exactly when it or a container above it was a
      lowest focused node. */
  lemma {:induction false} InnermostFocusWins(t: Tree, a: Address)
    requires IsLeafAt(t, a)
    ensures IsLeafAt(Unfocus(t), a)
    ensures UnderFocus(Unfocus(t), a) <==> UnderLowestFocus(t, a, true)
    decreases t
  {
    UnfocusKeepsLeaves(t, a);
    if a != [] {
      if t.flag == Pending {
        UnreachableFocus(t.children[a[0]], a[1..]);
      } else {
        InnermostFocusWins(t.children[a[0]], a[1..]);
      }
    }
  }

  // -------------------------------------------------------------- collate

  /** A subject with its containers, outermost first. */
  datatype Collated = Collated(containers: seq<Tree>, subject: Tree)

  function Collate(t: Tree, enclosing: seq<Tree>): seq<Collated> {
    match t
    case Leaf(_, _) => [Collated(enclosing, t)]
    case Container(_, _, children) => CollateAll(children, enclosing + [t])
  }

  function CollateAll(ts: seq<Tree>, enclosing: seq<Tree>): seq<Collated> {
    if ts == [] then [] else Collate(ts[0], enclosing) + CollateAll(ts[1..], enclosing)
  }

  /** The addresses of the subjects, in the order of the tree; those of ts start at index k. */
  function Leaves(t: Tree): seq<Address> {
    match t
    case Leaf(_, _) => [[]]
    case Container(_, _, children) => LeavesFrom(children, 0)
  }

  function LeavesFrom(ts: seq<Tree>, k: nat): seq<Address> {
    if ts == [] then [] else Prefixed(k, Leaves(ts[0])) + LeavesFrom(ts[1..], k + 1)
  }

  function Prefixed(k: nat, addresses: seq<Address>): (r: seq<Address>)
    ensures |r| == |addresses| && forall i :: 0 <= i < |r| ==> r[i] == [k] + addresses[i]
  {
    seq(|addresses|, i requires 0 <= i < |addresses| => [k] + addresses[i])
  }

  /** Strictly earlier in the tree. */
  predicate Earlier(a: Address, b: Address) {
    a != [] && b != [] && (a[0] < b[0] || (a[0] == b[0] && Earlier(a[1..], b[1..])))
  }

  predicate Increasing(s: seq<Address>) {
    forall i, j :: 0 <= i < j < |s| ==> Earlier(s[i], s[j])
  }

  lemma PrefixedIncreasing(k: nat, s: seq<Address>)
    requires Increasing(s)
    ensures Increasing(Prefixed(k, s))
  {
    var r := Prefixed(k, s);
    forall i, j | 0 <= i < j < |r| ensures Earlier(r[i], r[j]) {
      assert r[i][1..] == s[i] && r[j][1..] == s[j];
    }
  }

  /** The addresses listed are exactly those of the subjects, each once, in tree order. */
  lemma {:induction false} LeavesAreAll(t: Tree)
    ensures Increasing(Leaves(t))
    ensures forall a :: a in Leaves(t) <==> IsLeafAt(t, a)
    decreases t, 0
  {
    if t.Container? {
      LeavesFromAreAll(t.children, 0, t);
      forall a ensures a in Leaves(t) <==> IsLeafAt(t, a) {
        assert a in LeavesFrom(t.children, 0) <==> LeafFrom(t.children, 0, a);
      }
    }
  }

  ghost predicate Complete(s: seq<Address>, ts: seq<Tree>, k: nat) {
    forall a :: a in s <==> LeafFrom(ts, k, a)
  }

  predicate LeafFrom(ts: seq<Tree>, k: nat, a: Address) {
    a != [] && k <= a[0] < k + |ts| && IsLeafAt(ts[a[0]-k], a[1..])
  }

  lemma {:induction false} LeavesFromAreAll(ts: seq<Tree>, k: nat, parent: Tree)
    requires forall x :: x in ts ==> x < parent
    ensures Increasing(LeavesFrom(ts, k))
    ensures Complete(LeavesFrom(ts, k), ts, k)
    decreases parent, 0, |ts|
  {
    if ts != [] {
      assert ts[0] in ts && forall x :: x in ts[1..] ==> x in ts;
      LeavesAreAll(ts[0]);
      LeavesFromAreAll(ts[1..], k + 1, parent);
      LeavesCons(ts, k);
    }
  }

  lemma LeavesCons(ts: seq<Tree>, k: nat)
    requires ts != [] && Increasing(Leaves(ts[0])) && Increasing(LeavesFrom(ts[1..], k + 1))
    requires forall a :: a in Leaves(ts[0]) <==> IsLeafAt(ts[0], a)
    requires Complete(LeavesFrom(ts[1..], k + 1), ts[1..], k + 1)
    ensures Increasing(LeavesFrom(ts, k))
    ensures Complete(LeavesFrom(ts, k), ts, k)
  {
    var first, rest := Prefixed(k, Leaves(ts[0])), LeavesFrom(ts[1..], k + 1);
    PrefixedIncreasing(k, Leaves(ts[0]));
    forall i, j | 0 <= i < j < |first + rest| ensures Earlier((first + rest)[i], (first + rest)[j]) {
      if i < |first| <= j {
        assert rest[j-|first|] in rest;
        assert LeafFrom(ts[1..], k + 1, rest[j-|first|]);
      }
    }
    forall a ensures a in LeavesFrom(ts, k) <==> LeafFrom(ts, k, a) {
      InPrefixed(k, Leaves(ts[0]), a);
      if a != [] && a[0] > k {
        assert LeafFrom(ts[1..], k + 1, a) <==> LeafFrom(ts, k, a);
      }
    }
  }

  lemma InPrefixed(k: nat, s: seq<Address>, a: Address)
    ensures a in Prefixed(k, s) <==> a != [] && a[0] == k && a[1..] in s
  {
    var r := Prefixed(k, s);
    if a != [] && a[0] == k && a[1..] in s {
      var i :| 0 <= i < |s| && s[i] == a[1..];
      assert r[i] == a;
    }
  }

  /** Collate lists the subjects in tree order, each once, with exactly the containers on the
      path from the root. */
  lemma {:induction false} CollateIs(t: Tree, enclosing: seq<Tree>)
    ensures |Collate(t, enclosing)| == |Leaves(t)|
    ensures forall i :: 0 <= i < |Leaves(t)| ==> Entry(t, enclosing, Leaves(t)[i], Collate(t, enclosing)[i])
    decreases t, 0
  {
    if t.Container? {
      CollateAllIs(t.children, 0, enclosing + [t], t);
      forall i | 0 <= i < |Leaves(t)| ensures Entry(t, enclosing, Leaves(t)[i], Collate(t, enclosing)[i]) {
        var a := LeavesFrom(t.children, 0)[i];
        assert EntryFrom(t.children, 0, enclosing + [t], a, CollateAll(t.children, enclosing + [t])[i]);
        assert enclosing + [t] + Along(t.children[a[0]], a[1..]) == enclosing + Along(t, a);
      }
    }
  }

  predicate Entry(t: Tree, enclosing: seq<Tree>, a: Address, c: Collated) {
    IsLeafAt(t, a) && c == Collated(enclosing + Along(t, a), SubjectAt(t, a))
  }

  predicate EntryFrom(ts: seq<Tree>, k: nat, enclosing: seq<Tree>, a: Address, c: Collated) {
    a != [] && k <= a[0] < k + |ts| && Entry(ts[a[0]-k], enclosing, a[1..], c)
  }

  lemma {:induction false} CollateAllIs(ts: seq<Tree>, k: nat, enclosing: seq<Tree>, parent: Tree)
    requires forall x :: x in ts ==> x < parent
    ensures |CollateAll(ts, enclosing)| == |LeavesFrom(ts, k)|
    ensures forall i :: 0 <= i < |LeavesFrom(ts, k)| ==>
      EntryFrom(ts, k, enclosing, LeavesFrom(ts, k)[i], CollateAll(ts, enclosing)[i])
    decreases parent, 0, |ts|
  {
    if ts != [] {
      assert ts[0] in ts && forall x :: x in ts[1..] ==> x in ts;
      CollateIs(ts[0], enclosing);
      CollateAllIs(ts[1..], k + 1, enclosing, parent);
      var n := |Leaves(ts[0])|;
      forall i | 0 <= i < |LeavesFrom(ts, k)|
        ensures EntryFrom(ts, k, enclosing, LeavesFrom(ts, k)[i], CollateAll(ts, enclosing)[i])
      {
        if i < n {
          assert LeavesFrom(ts, k)[i] == [k] + Leaves(ts[0])[i];
          assert Entry(ts[0], enclosing, Leaves(ts[0])[i], Collate(ts[0], enclosing)[i]);
        } else {
          assert EntryFrom(ts[1..], k + 1, enclosing, LeavesFrom(ts[1..], k +
            1)[i-n], CollateAll(ts[1..], enclosing)[i-n]);
        }
      }
    }
  }
}
