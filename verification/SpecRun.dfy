/** Running one spec: setup from the outermost container inwards, the subject, and the teardown
    of every container that was entered. */
module SpecRun {

  datatype Kind = BeforeEach | JustBeforeEach | AfterEach

  datatype SetupNode = SetupNode(kind: Kind, id: int)

  type Container = seq<SetupNode>

  datatype Outcome = Passed | NotPassed(state: int, failure: string)

  /** One run of a node: a setup node of a container, or the subject. */
  datatype Act = Setup(container: nat, node: SetupNode) | Subject

  // ------------------------------------------------------------- the plan

  /** SetupNodesOfType. */
  function OfKind(c: Container, kind: Kind): seq<SetupNode> {
    if c == [] then []
    else if c[0].kind == kind then [c[0]] + OfKind(c[1..], kind)
    else OfKind(c[1..], kind)
  }

  lemma {:induction false} OfKindAt(c: Container, kind: Kind, k: nat)
    requires k < |OfKind(c, kind)|
    ensures OfKind(c, kind)[k] in c && OfKind(c, kind)[k].kind == kind
  {
    if c[0].kind != kind {
      OfKindAt(c[1..], kind, k);
    } else if k > 0 {
      OfKindAt(c[1..], kind, k - 1);
    }
  }

  function ActsOf(i: nat, nodes: seq<SetupNode>): seq<Act> {
    seq(|nodes|, k requires 0 <= k < |nodes| => Setup(i, nodes[k]))
  }

  /** The nodes of one kind of the first n containers, outermost container first. */
  function Inwards(cs: seq<Container>, kind: Kind, n: nat): seq<Act>
    requires n <= |cs|
  {
    if n == 0 then [] else Inwards(cs, kind, n - 1) + ActsOf(n - 1, OfKind(cs[n-1], kind))
  }

  /** The same, innermost container first. */
  function Outwards(cs: seq<Container>, kind: Kind, n: nat): seq<Act>
    requires n <= |cs|
  {
    if n == 0 then [] else ActsOf(n - 1, OfKind(cs[n-1], kind)) + Outwards(cs, kind, n - 1)
  }

  function Planned(cs: seq<Container>): seq<Act> {
    Inwards(cs, BeforeEach, |cs|) + Inwards(cs, JustBeforeEach, |cs|) + [Subject]
  }

  /** The k-th run of a sample has this outcome, whatever node it is. */
  type Oracle = nat -> Outcome

  predicate AllPass(oracle: Oracle, n: nat) {
    forall k :: 0 <= k < n ==> oracle(k) == Passed
  }

  /** How much of a list of acts is executed: all of it, or up to the first failure. */
  function Executed(acts: seq<Act>, oracle: Oracle): (r: seq<Act>)
    ensures r <= acts
  {
    ExecutedFrom(acts, oracle, 0)
  }

  function ExecutedFrom(acts: seq<Act>, oracle: Oracle, n: nat): (r: seq<Act>)
    requires n <= |acts|
    ensures r <= acts && n <= |r|
    decreases |acts| - n
  {
    if n == |acts| then acts
    else if oracle(n) != Passed then acts[..n+1]
    else ExecutedFrom(acts, oracle, n + 1)
  }

  /** How many containers were entered: all, unless a BeforeEach failed, and then those down to
      the container it belongs to. */
  function Entered(cs: seq<Container>, oracle: Oracle): nat {
    var done := Executed(Planned(cs), oracle);
    if done != [] && oracle(|done| - 1) != Passed && done[|done|-1].Setup? && done[|done|-1].node.kind == BeforeEach
    then done[|done|-1].container + 1
    else |cs|
  }

  /** What a sample runs. */
  function Trace(cs: seq<Container>, oracle: Oracle): seq<Act>
    requires Entered(cs, oracle) <= |cs|
  {
    Executed(Planned(cs), oracle) + Outwards(cs, AfterEach, Entered(cs, oracle))
  }

  /** The first outcome that is not a pass among the first n. */
  function Verdict(oracle: Oracle, n: nat): Outcome {
    if n == 0 then Passed
    else if Verdict(oracle, n - 1) != Passed then Verdict(oracle, n - 1)
    else oracle(n - 1)
  }

  /** It is a pass exactly when all are, and otherwise the earliest that is not. */
  lemma {:induction false} VerdictIsFirst(oracle: Oracle, n: nat)
    ensures Verdict(oracle, n) == Passed <==> AllPass(oracle, n)
    ensures Verdict(oracle, n) != Passed ==>
      exists k :: 0 <= k < n && oracle(k) == Verdict(oracle, n) && AllPass(oracle, k)
  {
    if n > 0 {
      VerdictIsFirst(oracle, n - 1);
      if Verdict(oracle, n - 1) == Passed {
        assert oracle(n - 1) == Verdict(oracle, n) && AllPass(oracle, n - 1);
      }
    }
  }

  /** What is executed passes up to its last act, and stops short only at one that does not. */
  lemma {:induction false} ExecutedIs(acts: seq<Act>, oracle: Oracle, n: nat)
    requires n <= |acts| && AllPass(oracle, n)
    ensures var r := ExecutedFrom(acts, oracle, n);
      && AllPass(oracle, |r| - (if |r| > 0 then 1 else 0))
      && (|r| < |acts| ==> |r| > n && oracle(|r| - 1) != Passed)
    decreases |acts| - n
  {
    if n < |acts| && oracle(n) == Passed {
      ExecutedIs(acts, oracle, n + 1);
    }
  }

  // --------------------------------------------------------------- lemmas

  lemma {:induction false} InwardsContainers(cs: seq<Container>, kind: Kind, n: nat, k: nat)
    requires n <= |cs| && k < |Inwards(cs, kind, n)|
    ensures var a := Inwards(cs, kind, n)[k];
      a.Setup? && a.container < n && a.node in cs[a.container] && a.node.kind == kind
  {
    if n > 0 {
      var before, here := Inwards(cs, kind, n - 1), ActsOf(n - 1, OfKind(cs[n-1], kind));
      if k < |before| {
        InwardsContainers(cs, kind, n - 1, k);
      } else {
        OfKindAt(cs[n-1], kind, k - |before|);
      }
    }
  }

  lemma EnteredBound(cs: seq<Container>, oracle: Oracle)
    ensures Entered(cs, oracle) <= |cs|
  {
    var done := Executed(Planned(cs), oracle);
    if done != [] && done[|done|-1].Setup? {
      var k := |done| - 1;
      var b, j := Inwards(cs, BeforeEach, |cs|), Inwards(cs, JustBeforeEach, |cs|);
      assert done[k] == (b + j + [Subject])[k];
      if k < |b| {
        InwardsContainers(cs, BeforeEach, |cs|, k);
      } else {
        InwardsContainers(cs, JustBeforeEach, |cs|, k - |b|);
      }
    }
  }

  lemma {:induction false} ExecutedUntil(acts: seq<Act>, oracle: Oracle, n: nat, m: nat)
    requires m <= n < |acts| && AllPass(oracle, n) && oracle(n) != Passed
    ensures ExecutedFrom(acts, oracle, m) == acts[..n+1]
    decreases n - m
  {
    if m < n {
      ExecutedUntil(acts, oracle, n, m + 1);
    }
  }

  lemma {:induction false} ExecutedAll(acts: seq<Act>, oracle: Oracle, m: nat)
    requires m <= |acts| && |acts| > 0 && AllPass(oracle, |acts| - 1)
    ensures m < |acts| ==> ExecutedFrom(acts, oracle, m) == acts
    decreases |acts| - m
  {
    if m < |acts| - 1 {
      ExecutedAll(acts, oracle, m + 1);
    } else {
      assert acts[..|acts|] == acts;
    }
  }

  lemma {:induction false} InwardsPrefix(cs: seq<Container>, kind: Kind, n: nat, m: nat)
    requires n <= m <= |cs|
    ensures Inwards(cs, kind, n) <= Inwards(cs, kind, m)
    decreases m - n
  {
    if n < m {
      InwardsPrefix(cs, kind, n, m - 1);
    }
  }

  // ------------------------------------------- the order of a run, act by act

  /** The indices of the nodes of a kind, as declared. */
  ghost function Indices(c: Container, kind: Kind): seq<nat> {
    if c == [] then []
    else Indices(c[..|c|-1], kind) + if c[|c|-1].kind == kind then [|c| - 1] else []
  }

  lemma {:induction false} OfKindSnoc(c: Container, x: SetupNode, kind: Kind)
    ensures OfKind(c + [x], kind) == OfKind(c, kind) + if x.kind == kind then [x] else []
  {
    if c == [] {
      assert (c + [x])[1..] == [];
    } else {
      OfKindSnoc(c[1..], x, kind);
      assert (c + [x])[1..] == c[1..] + [x];
    }
  }

  /** OfKind is the nodes at these indices, which are all of the kind, in order. */
  lemma {:induction false} IndicesAre(c: Container, kind: Kind)
    ensures |Indices(c, kind)| == |OfKind(c, kind)|
    ensures forall k :: 0 <= k < |Indices(c, kind)| ==>
      Indices(c, kind)[k] < |c| && c[Indices(c, kind)[k]] == OfKind(c, kind)[k] && OfKind(c, kind)[k].kind == kind
    ensures forall k, m :: 0 <= k < m < |Indices(c, kind)| ==> Indices(c, kind)[k] < Indices(c, kind)[m]
    ensures forall j :: 0 <= j < |c| && c[j].kind == kind ==> j in Indices(c, kind)
  {
    if c != [] {
      var init, x := c[..|c|-1], c[|c|-1];
      IndicesAre(init, kind);
      OfKindSnoc(init, x, kind);
      assert c == init + [x];
    }
  }

  /** The nodes stand at these indices, which rise and are all those of the kind. */
  ghost predicate IsSelection(c: Container, kind: Kind, nodes: seq<SetupNode>, at: seq<nat>) {
    && |at| == |nodes| && (forall k :: 0 <= k < |at| ==> at[k] < |c| && c[at[k]] == nodes[k] && nodes[k].kind == kind)
    && (forall k, m :: 0 <= k < m < |at| ==> at[k] < at[m])
    && (forall j :: 0 <= j < |c| && c[j].kind == kind ==> j in at)
  }

  lemma SelectionIs(c: Container, kind: Kind)
    ensures exists at :: IsSelection(c, kind, OfKind(c, kind), at)
  {
    IndicesAre(c, kind);
    assert IsSelection(c, kind, OfKind(c, kind), Indices(c, kind));
  }

  function Phase(a: Act): nat {
    match a
    case Subject => 2
    case Setup(_, node) => match node.kind case BeforeEach => 0 case JustBeforeEach => 1 case AfterEach => 3
  }

  /** The declared nodes that the acts run: act k runs node number at[k] of its container. */
  ghost predicate Located(cs: seq<Container>, acts: seq<Act>, at: seq<nat>) {
    |at| == |acts| && forall k :: 0 <= k < |acts| && acts[k].Setup? ==> RunsNode(cs, acts[k], at[k])
  }

  predicate RunsNode(cs: seq<Container>, a: Act, j: nat)
    requires a.Setup?
  {
    a.container < |cs| && j < |cs[a.container]| && cs[a.container][j] == a.node
  }

  /** What must run first: BeforeEach, JustBeforeEach, subject, AfterEach; setup from the outermost container inwards
      and teardown from the innermost outwards; within a container as declared. */
  predicate Precedes(a: Act, i: nat, b: Act, j: nat) {
    Phase(a) < Phase(b) || (Phase(a) == Phase(b) && a.Setup? && b.Setup? &&
      if a.container == b.container then i < j
      else if Phase(a) == 3 then a.container > b.container
      else a.container < b.container)
  }

  ghost predicate InOrder(acts: seq<Act>, at: seq<nat>) {
    |at| == |acts| && forall k, m :: 0 <= k < m < |acts| ==> Precedes(acts[k], at[k], acts[m], at[m])
  }

  /** Node number j of container i is run. */
  ghost predicate IsRun(acts: seq<Act>, at: seq<nat>, i: int, j: int)
    requires |at| == |acts|
  {
    exists k :: 0 <= k < |acts| && acts[k].Setup? && acts[k].container == i && at[k] == j
  }

  lemma Concat(cs: seq<Container>, a: seq<Act>, ia: seq<nat>, b: seq<Act>, ib: seq<nat>)
    requires Located(cs, a, ia) && InOrder(a, ia) && Located(cs, b, ib) && InOrder(b, ib)
    requires forall k, m :: 0 <= k < |a| && 0 <= m < |b| ==> Precedes(a[k], ia[k], b[m], ib[m])
    ensures Located(cs, a + b, ia + ib) && InOrder(a + b, ia + ib)
    ensures forall i, j :: IsRun(a + b, ia + ib, i, j) <==> IsRun(a, ia, i, j) || IsRun(b, ib, i, j)
  {
    forall i, j ensures IsRun(a + b, ia + ib, i, j) <==> IsRun(a, ia, i, j) || IsRun(b, ib, i, j) {
      ConcatRuns(a, ia, b, ib, i, j);
    }
  }

  lemma ConcatRuns(a: seq<Act>, ia: seq<nat>, b: seq<Act>, ib: seq<nat>, i: int, j: int)
    requires |a| == |ia| && |b| == |ib|
    ensures IsRun(a + b, ia + ib, i, j) <==> IsRun(a, ia, i, j) || IsRun(b, ib, i, j)
  {
    if k :| 0 <= k < |a| && a[k].Setup? && a[k].container == i && ia[k] == j {
      assert (a + b)[k] == a[k] && (ia + ib)[k] == ia[k];
    } else if k :| 0 <= k < |b| && b[k].Setup? && b[k].container == i && ib[k] == j {
      assert (a + b)[|a| + k] == b[k] && (ia + ib)[|a| + k] == ib[k];
    }
  }

  /** The acts of one container. */
  lemma BlockInOrder(cs: seq<Container>, i: nat, kind: Kind)
    requires i < |cs|
    ensures var acts, at := ActsOf(i, OfKind(cs[i], kind)), Indices(cs[i], kind);
      && Located(cs, acts, at) && InOrder(acts, at)
      && (forall k :: 0 <= k < |acts| ==> acts[k].Setup? && acts[k].container == i && acts[k].node.kind == kind)
      && (forall j :: IsRun(acts, at, i, j) <==> 0 <= j < |cs[i]| && cs[i][j].kind == kind)
  {
    IndicesAre(cs[i], kind);
    var acts, at := ActsOf(i, OfKind(cs[i], kind)), Indices(cs[i], kind);
    forall j: nat | j < |cs[i]| && cs[i][j].kind == kind ensures IsRun(acts, at, i, j) {
      var k :| 0 <= k < |at| && at[k] == j;
      assert acts[k].Setup? && acts[k].container == i;
    }
  }

  ghost function InwardsAt(cs: seq<Container>, kind: Kind, n: nat): seq<nat>
    requires n <= |cs|
  {
    if n == 0 then [] else InwardsAt(cs, kind, n - 1) + Indices(cs[n-1], kind)
  }

  ghost function OutwardsAt(cs: seq<Container>, n: nat): seq<nat>
    requires n <= |cs|
  {
    if n == 0 then [] else Indices(cs[n-1], AfterEach) + OutwardsAt(cs, n - 1)
  }

  /** Acts of one kind of the first n containers: all of them, and no others. */
  ghost predicate Covers(cs: seq<Container>, acts: seq<Act>, at: seq<nat>, kind: Kind, n: nat) {
    && Located(cs, acts, at) && InOrder(acts, at)
    && (forall k :: 0 <= k < |acts| ==> acts[k].Setup? && acts[k].container < n && acts[k].node.kind == kind)
    && (forall i, j :: IsRun(acts, at, i, j) <==> 0 <= i < n <= |cs| && 0 <= j < |cs[i]| && cs[i][j].kind == kind)
  }

  /** The same of one container. */
  ghost predicate CoversOne(cs: seq<Container>, acts: seq<Act>, at: seq<nat>, kind: Kind, n: nat) {
    && Located(cs, acts, at) && InOrder(acts, at)
    && (forall k :: 0 <= k < |acts| ==> acts[k].Setup? && acts[k].container == n && acts[k].node.kind == kind)
    && (forall i, j :: IsRun(acts, at, i, j) <==> i == n < |cs| && 0 <= j < |cs[i]| && cs[i][j].kind == kind)
  }

  lemma BlockCovers(cs: seq<Container>, n: nat, kind: Kind)
    requires n < |cs|
    ensures CoversOne(cs, ActsOf(n, OfKind(cs[n], kind)), Indices(cs[n], kind), kind, n)
  {
    BlockInOrder(cs, n, kind);
  }

  /** One more container, after the others or before them. */
  lemma OneInwards(cs: seq<Container>, kind: Kind, n: nat, a: seq<Act>, ia: seq<nat>, b: seq<Act>, ib: seq<nat>)
    requires n < |cs| && kind != AfterEach && Covers(cs, a, ia, kind, n) && CoversOne(cs, b, ib, kind, n)
    ensures Covers(cs, a + b, ia + ib, kind, n + 1)
  {
    Concat(cs, a, ia, b, ib);
  }

  lemma OneOutwards(cs: seq<Container>, n: nat, a: seq<Act>, ia: seq<nat>, b: seq<Act>, ib: seq<nat>)
    requires n < |cs| && Covers(cs, a, ia, AfterEach, n) && CoversOne(cs, b, ib, AfterEach, n)
    ensures Covers(cs, b + a, ib + ia, AfterEach, n + 1)
  {
    Concat(cs, b, ib, a, ia);
  }

  lemma {:induction false} InwardsCovers(cs: seq<Container>, kind: Kind, n: nat)
    requires n <= |cs| && kind != AfterEach
    ensures Covers(cs, Inwards(cs, kind, n), InwardsAt(cs, kind, n), kind, n)
  {
    if n > 0 {
      InwardsCovers(cs, kind, n - 1);
      BlockCovers(cs, n - 1, kind);
      OneInwards(cs, kind, n - 1, Inwards(cs, kind, n - 1), InwardsAt(cs, kind, n - 1),
                 ActsOf(n - 1, OfKind(cs[n-1], kind)), Indices(cs[n-1], kind));
    }
  }

  lemma {:induction false} OutwardsCovers(cs: seq<Container>, n: nat)
    requires n <= |cs|
    ensures Covers(cs, Outwards(cs, AfterEach, n), OutwardsAt(cs, n), AfterEach, n)
  {
    if n > 0 {
      OutwardsCovers(cs, n - 1);
      BlockCovers(cs, n - 1, AfterEach);
      OneOutwards(cs, n - 1, Outwards(cs, AfterEach, n - 1), OutwardsAt(cs, n - 1),
                  ActsOf(n - 1, OfKind(cs[n-1], AfterEach)), Indices(cs[n-1], AfterEach));
    }
  }

  ghost function PlannedAt(cs: seq<Container>): seq<nat> {
    InwardsAt(cs, BeforeEach, |cs|) + InwardsAt(cs, JustBeforeEach, |cs|) + [0]
  }

  lemma PlannedIs(cs: seq<Container>)
    ensures var p, at := Planned(cs), PlannedAt(cs);
      && Located(cs, p, at) && InOrder(p, at) && p[|p|-1] == Subject && (forall k :: 0 <= k < |p| ==> Phase(p[k]) < 3)
      && forall i, j :: 0 <= i < |cs| && 0 <= j < |cs[i]| && cs[i][j].kind != AfterEach ==> IsRun(p, at, i, j)
  {
    InwardsCovers(cs, BeforeEach, |cs|);
    InwardsCovers(cs, JustBeforeEach, |cs|);
    var b, ib := Inwards(cs, BeforeEach, |cs|), InwardsAt(cs, BeforeEach, |cs|);
    var j, ij := Inwards(cs, JustBeforeEach, |cs|), InwardsAt(cs, JustBeforeEach, |cs|);
    Concat(cs, b, ib, j, ij);
    Concat(cs, b + j, ib + ij, [Subject], [0]);
  }

  /** A failing act stands in the way of this one. */
  ghost predicate CutOff(trace: seq<Act>, at: seq<nat>, oracle: Oracle, a: Act, j: nat)
    requires |at| == |trace|
  {
    exists k :: 0 <= k < |trace| && oracle(k) != Passed && Precedes(trace[k], at[k], a, j)
  }

  /** A BeforeEach of a container further out failed, so that this one was not entered. */
  ghost predicate NotEntered(trace: seq<Act>, oracle: Oracle, i: int) {
    exists k :: 0 <= k < |trace| && oracle(k) != Passed && Phase(trace[k]) == 0 && trace[k].container < i
  }

  /** What a sample does, without a plan: declared nodes are run in the one order; after a failure only teardown is;
      every setup node and the subject is run unless a failure stands in its way; and an AfterEach is run if and only
      if its container was entered. */
  ghost predicate Runs(cs: seq<Container>, oracle: Oracle, trace: seq<Act>, at: seq<nat>) {
    && Located(cs, trace, at) && InOrder(trace, at)
    && (forall k, m :: 0 <= k < m < |trace| && oracle(k) != Passed ==> Phase(trace[m]) == 3)
    && (forall i, j :: 0 <= i < |cs| && 0 <= j < |cs[i]| && cs[i][j].kind != AfterEach ==>
          IsRun(trace, at, i, j) || CutOff(trace, at, oracle, Setup(i, cs[i][j]), j))
    && (Subject in trace || CutOff(trace, at, oracle, Subject, 0))
    && (forall i, j :: 0 <= i < |cs| && 0 <= j < |cs[i]| && cs[i][j].kind == AfterEach ==>
          (IsRun(trace, at, i, j) <==> !NotEntered(trace, oracle, i)))
  }

  /** The part of the plan that is executed. */
  lemma ExecutedPart(cs: seq<Container>, oracle: Oracle)
    ensures var done, p := Executed(Planned(cs), oracle), Planned(cs);
      && 0 < |done| <= |p| && done == p[..|done|] && AllPass(oracle, |done| - 1)
      && (|done| < |p| ==> oracle(|done| - 1) != Passed)
  {
    ExecutedIs(Planned(cs), oracle, 0);
  }

  lemma PrefixInOrder(cs: seq<Container>, acts: seq<Act>, at: seq<nat>, n: nat)
    requires Located(cs, acts, at) && InOrder(acts, at) && n <= |acts|
    ensures Located(cs, acts[..n], at[..n]) && InOrder(acts[..n], at[..n])
  {
  }

  ghost function TraceAt(cs: seq<Container>, oracle: Oracle): seq<nat>
    requires Entered(cs, oracle) <= |cs|
  {
    PlannedIs(cs);
    PlannedAt(cs)[..|Executed(Planned(cs), oracle)|] + OutwardsAt(cs, Entered(cs, oracle))
  }

  /** Order and teardown of a trace. */
  lemma TraceInOrder(cs: seq<Container>, oracle: Oracle)
    requires Entered(cs, oracle) <= |cs|
    ensures var trace, at, done := Trace(cs, oracle), TraceAt(cs, oracle), Executed(Planned(cs), oracle);
      && Located(cs, trace, at) && InOrder(trace, at) && |done| <= |trace| && trace[..|done|] == done
      && (forall k :: |done| <= k < |trace| ==> Phase(trace[k]) == 3)
  {
    PlannedIs(cs);
    ExecutedPart(cs, oracle);
    var done, e := Executed(Planned(cs), oracle), Entered(cs, oracle);
    PrefixInOrder(cs, Planned(cs), PlannedAt(cs), |done|);
    OutwardsCovers(cs, e);
    Concat(cs, done, PlannedAt(cs)[..|done|], Outwards(cs, AfterEach, e), OutwardsAt(cs, e));
  }

  /** The AfterEach nodes of the containers entered are run, and no others. */
  lemma TeardownIsRun(cs: seq<Container>, oracle: Oracle, i: nat, j: nat)
    requires Entered(cs, oracle) <= |cs| && i < |cs| && j < |cs[i]| && cs[i][j].kind == AfterEach
    ensures |TraceAt(cs, oracle)| == |Trace(cs, oracle)|
    ensures IsRun(Trace(cs, oracle), TraceAt(cs, oracle), i, j) <==> i < Entered(cs, oracle)
  {
    PlannedIs(cs);
    ExecutedPart(cs, oracle);
    var done, e := Executed(Planned(cs), oracle), Entered(cs, oracle);
    PrefixInOrder(cs, Planned(cs), PlannedAt(cs), |done|);
    NoTeardown(cs, done, PlannedAt(cs)[..|done|], i, j);
    OutwardsCovers(cs, e);
    ConcatRuns(done, PlannedAt(cs)[..|done|], Outwards(cs, AfterEach, e), OutwardsAt(cs, e), i, j);
  }

  lemma NoTeardown(cs: seq<Container>, acts: seq<Act>, at: seq<nat>, i: int, j: int)
    requires Located(cs, acts, at) && forall k :: 0 <= k < |acts| ==> Phase(acts[k]) < 3
    requires 0 <= i < |cs| && 0 <= j < |cs[i]| && cs[i][j].kind == AfterEach
    ensures !IsRun(acts, at, i, j)
  {
  }

  /** Which containers are entered. */
  lemma EnteredIs(cs: seq<Container>, oracle: Oracle, i: int)
    requires Entered(cs, oracle) <= |cs| && 0 <= i < |cs|
    ensures i < Entered(cs, oracle) <==> !NotEntered(Trace(cs, oracle), oracle, i)
  {
    TraceInOrder(cs, oracle);
    ExecutedPart(cs, oracle);
    var trace, done := Trace(cs, oracle), Executed(Planned(cs), oracle);
    var last := |done| - 1;
    forall k | 0 <= k < |trace| && oracle(k) != Passed && Phase(trace[k]) == 0 ensures k == last {
      assert k < |done|;
    }
    assert trace[last] == done[last] by { assert trace[..|done|][last] == trace[last]; }
    if i >= Entered(cs, oracle) {
      assert oracle(last) != Passed && Phase(trace[last]) == 0 && trace[last].container < i;
    }
  }

  /** Every planned act is run, or comes after the one that failed. */
  lemma PlannedIsRun(cs: seq<Container>, oracle: Oracle, k: nat)
    requires Entered(cs, oracle) <= |cs| && k < |Planned(cs)|
    ensures |PlannedAt(cs)| == |Planned(cs)| && |TraceAt(cs, oracle)| == |Trace(cs, oracle)|
    ensures var trace, at := Trace(cs, oracle), TraceAt(cs, oracle);
      || (k < |trace| && trace[k] == Planned(cs)[k] && at[k] == PlannedAt(cs)[k])
      || CutOff(trace, at, oracle, Planned(cs)[k], PlannedAt(cs)[k])
  {
    PlannedIs(cs);
    ExecutedPart(cs, oracle);
    TraceInOrder(cs, oracle);
    var done, last := Executed(Planned(cs), oracle), |Executed(Planned(cs), oracle)| - 1;
    var trace, at := Trace(cs, oracle), TraceAt(cs, oracle);
    if k >= |done| {
      assert trace[last] == Planned(cs)[last] && at[last] == PlannedAt(cs)[last];
      assert Precedes(Planned(cs)[last], PlannedAt(cs)[last], Planned(cs)[k], PlannedAt(cs)[k]);
    }
  }

  /** Whatever the containers and the outcomes, the trace is such a run. */
  lemma TraceRuns(cs: seq<Container>, oracle: Oracle)
    requires Entered(cs, oracle) <= |cs|
    ensures Runs(cs, oracle, Trace(cs, oracle), TraceAt(cs, oracle))
  {
    var trace, at := Trace(cs, oracle), TraceAt(cs, oracle);
    TraceInOrder(cs, oracle);
    StopsAtFailure(cs, oracle);
    forall i, j | 0 <= i < |cs| && 0 <= j < |cs[i]| && cs[i][j].kind != AfterEach
      ensures IsRun(trace, at, i, j) || CutOff(trace, at, oracle, Setup(i, cs[i][j]), j)
    {
      SetupIsRun(cs, oracle, i, j);
    }
    SubjectIsRun(cs, oracle);
    forall i, j | 0 <= i < |cs| && 0 <= j < |cs[i]| && cs[i][j].kind == AfterEach
      ensures IsRun(trace, at, i, j) <==> !NotEntered(trace, oracle, i)
    {
      TeardownIsRun(cs, oracle, i, j);
      EnteredIs(cs, oracle, i);
    }
  }

  lemma StopsAtFailure(cs: seq<Container>, oracle: Oracle)
    requires Entered(cs, oracle) <= |cs|
    ensures var trace := Trace(cs, oracle);
      forall k, m :: 0 <= k < m < |trace| && oracle(k) != Passed ==> Phase(trace[m]) == 3
  {
    TraceInOrder(cs, oracle);
    ExecutedPart(cs, oracle);
  }

  lemma SetupIsRun(cs: seq<Container>, oracle: Oracle, i: nat, j: nat)
    requires Entered(cs, oracle) <= |cs| && i < |cs| && j < |cs[i]| && cs[i][j].kind != AfterEach
    ensures var trace, at := Trace(cs, oracle), TraceAt(cs, oracle);
      |at| == |trace| && (IsRun(trace, at, i, j) || CutOff(trace, at, oracle, Setup(i, cs[i][j]), j))
  {
    PlannedIs(cs);
    var p, pat := Planned(cs), PlannedAt(cs);
    assert IsRun(p, pat, i, j);
    var k :| 0 <= k < |p| && p[k].Setup? && p[k].container == i && pat[k] == j;
    assert RunsNode(cs, p[k], pat[k]);
    PlannedIsRun(cs, oracle, k);
  }

  lemma SubjectIsRun(cs: seq<Container>, oracle: Oracle)
    requires Entered(cs, oracle) <= |cs|
    ensures var trace, at := Trace(cs, oracle), TraceAt(cs, oracle);
      |at| == |trace| && (Subject in trace || CutOff(trace, at, oracle, Subject, 0))
  {
    PlannedIs(cs);
    PlannedIsRun(cs, oracle, |Planned(cs)| - 1);
    assert PlannedAt(cs)[|Planned(cs)| - 1] == 0;
  }

  // ------------------------------------------------------------- the code

  /** The nodes of the kind, all of them and in the order declared. */
  method SetupNodesOfType(c: Container, kind: Kind) returns (nodes: seq<SetupNode>)
    ensures nodes == OfKind(c, kind)
    ensures exists at: seq<nat> :: IsSelection(c, kind, nodes, at)
  {
    nodes := [];
    assert c[0..] == c;
    for i := 0 to |c|
      invariant nodes + OfKind(c[i..], kind) == OfKind(c, kind)
    {
      assert c[i..][1..] == c[i+1..];
      if c[i].kind == kind {
        nodes := nodes + [c[i]];
      }
    }
    SelectionIs(c, kind);
  }

  /** Runs the nodes of one container until one does not pass. */
  method RunNodes(i: nat, nodes: seq<SetupNode>, oracle: Oracle, start: seq<Act>)
    returns (state: Outcome, trace: seq<Act>)
    requires AllPass(oracle, |start|)
    ensures state == Passed ==> trace == start + ActsOf(i, nodes) && AllPass(oracle, |trace|)
    ensures state != Passed ==> StoppedIn(start + ActsOf(i, nodes), |start|, oracle, state, trace)
  {
    var acts := ActsOf(i, nodes);
    state, trace := Passed, start;
    for k := 0 to |nodes|
      invariant state == Passed && trace == start + acts[..k] && AllPass(oracle, |trace|)
    {
      state := oracle(|trace|);
      trace := trace + [Setup(i, nodes[k])];
      assert acts[..k+1] == acts[..k] + [acts[k]];
      if state != Passed {
        assert (start + acts)[..|trace|] == trace;
        return;
      }
    }
    assert acts[..|acts|] == acts;
  }

  /** Stopped in the plan, past its first n acts, at the first act that did not pass. */
  ghost predicate StoppedIn(plan: seq<Act>, n: nat, oracle: Oracle, state: Outcome, trace: seq<Act>) {
    n < |trace| <= |plan| && trace == plan[..|trace|] && AllPass(oracle, |trace| - 1) &&
      oracle(|trace| - 1) == state != Passed
  }

  /** Runs the nodes of one kind, container by container, until one does not pass. */
  method RunInwards(cs: seq<Container>, kind: Kind, oracle: Oracle, before: seq<Act>)
    returns (state: Outcome, trace: seq<Act>, entered: nat)
    requires AllPass(oracle, |before|)
    ensures entered <= |cs|
    ensures state == Passed ==>
      entered == |cs| && trace == before + Inwards(cs, kind, |cs|) && AllPass(oracle, |trace|)
    ensures state != Passed ==>
      && StoppedIn(before + Inwards(cs, kind, |cs|), |before|, oracle, state, trace)
      && trace[|trace|-1].Setup? && trace[|trace|-1].container + 1 == entered
  {
    state, trace, entered := Passed, before, 0;
    for i := 0 to |cs|
      invariant state == Passed && entered == i
      invariant trace == before + Inwards(cs, kind, i) && AllPass(oracle, |trace|)
    {
      entered := i + 1;
      var nodes := SetupNodesOfType(cs[i], kind);
      ghost var start := trace;
      state, trace := RunNodes(i, nodes, oracle, trace);
      InwardsSplit(cs, kind, i, before);
      if state != Passed {
        assert trace[|trace|-1] == ActsOf(i, nodes)[|trace|-1-|start|];
        return;
      }
    }
  }

  lemma InwardsSplit(cs: seq<Container>, kind: Kind, i: nat, before: seq<Act>)
    requires i < |cs|
    ensures before + Inwards(cs, kind, i) + ActsOf(i, OfKind(cs[i], kind)) == before + Inwards(cs, kind, i + 1)
    ensures before + Inwards(cs, kind, i + 1) <= before + Inwards(cs, kind, |cs|)
  {
    InwardsPrefix(cs, kind, i + 1, |cs|);
  }

  /** A run stopped at a BeforeEach. */
  lemma StoppedInBefore(cs: seq<Container>, oracle: Oracle, state: Outcome, trace: seq<Act>)
    requires StoppedIn(Inwards(cs, BeforeEach, |cs|), 0, oracle, state, trace) && trace[|trace|-1].Setup?
    ensures trace == Executed(Planned(cs), oracle) && Entered(cs, oracle) == trace[|trace|-1].container + 1
  {
    var n, b := |trace| - 1, Inwards(cs, BeforeEach, |cs|);
    BeforePlanned(cs, n + 1);
    ExecutedUntil(Planned(cs), oracle, n, 0);
    InwardsContainers(cs, BeforeEach, |cs|, n);
    assert trace[n] == b[n];
  }

  lemma BeforePlanned(cs: seq<Container>, n: nat)
    requires n <= |Inwards(cs, BeforeEach, |cs|)|
    ensures n < |Planned(cs)| && Planned(cs)[..n] == Inwards(cs, BeforeEach, |cs|)[..n]
  {
  }

  /** A run stopped at a JustBeforeEach. */
  lemma StoppedInJustBefore(cs: seq<Container>, oracle: Oracle, state: Outcome, trace: seq<Act>)
    requires var b := Inwards(cs, BeforeEach, |cs|);
      StoppedIn(b + Inwards(cs, JustBeforeEach, |cs|), |b|, oracle, state, trace)
    ensures trace == Executed(Planned(cs), oracle) && Entered(cs, oracle) == |cs|
  {
    var b := Inwards(cs, BeforeEach, |cs|);
    var n := |trace| - 1;
    ExecutedUntil(Planned(cs), oracle, n, 0);
    InwardsContainers(cs, JustBeforeEach, |cs|, n - |b|);
    assert Planned(cs)[..n+1] == trace;
    assert trace[n] == Inwards(cs, JustBeforeEach, |cs|)[n-|b|];
  }

  /** A run that got to the subject. */
  lemma ReachedSubject(cs: seq<Container>, oracle: Oracle)
    requires AllPass(oracle, |Planned(cs)| - 1)
    ensures Planned(cs) == Executed(Planned(cs), oracle) && Entered(cs, oracle) == |cs|
  {
    ExecutedAll(Planned(cs), oracle, 0);
  }

  lemma VerdictAt(oracle: Oracle, n: nat)
    requires n > 0 && AllPass(oracle, n - 1)
    ensures Verdict(oracle, n) == oracle(n - 1)
  {
    VerdictIsFirst(oracle, n - 1);
  }

  /** Setup inwards and the subject, stopping at the first failure. */
  method RunSetup(cs: seq<Container>, oracle: Oracle) returns (state: Outcome, trace: seq<Act>, entered: nat)
    ensures trace == Executed(Planned(cs), oracle) && entered == Entered(cs, oracle) <= |cs|
    ensures state == Verdict(oracle, |trace|)
  {
    state, trace, entered := RunInwards(cs, BeforeEach, oracle, []);
    assert [] + Inwards(cs, BeforeEach, |cs|) == Inwards(cs, BeforeEach, |cs|);
    if state != Passed {
      StoppedInBefore(cs, oracle, state, trace);
      VerdictAt(oracle, |trace|);
      return;
    }
    var innermost;
    state, trace, innermost := RunInwards(cs, JustBeforeEach, oracle, trace);
    if state != Passed {
      StoppedInJustBefore(cs, oracle, state, trace);
      VerdictAt(oracle, |trace|);
      return;
    }
    state := oracle(|trace|);
    trace := trace + [Subject];
    ReachedSubject(cs, oracle);
    VerdictAt(oracle, |trace|);
  }

  /** The deferred teardown: every AfterEach of the containers entered, innermost first; a
      failure counts only if nothing failed before. */
  method Unwind(cs: seq<Container>, oracle: Oracle, entered: nat, first: Outcome, before: seq<Act>)
    returns (state: Outcome, trace: seq<Act>)
    requires entered <= |cs| && first == Verdict(oracle, |before|)
    ensures trace == before + Outwards(cs, AfterEach, entered)
    ensures exists at :: Covers(cs, trace[|before|..], at, AfterEach, entered)
    ensures state == Verdict(oracle, |trace|)
  {
    state, trace := UnwindFrom(cs, oracle, entered, first, before);
    OutwardsCovers(cs, entered);
    assert trace[|before|..] == Outwards(cs, AfterEach, entered);
  }

  method UnwindFrom(cs: seq<Container>, oracle: Oracle, entered: nat, first: Outcome, before: seq<Act>)
    returns (state: Outcome, trace: seq<Act>)
    requires entered <= |cs| && first == Verdict(oracle, |before|)
    ensures trace == before + Outwards(cs, AfterEach, entered) && state == Verdict(oracle, |trace|)
  {
    state, trace := first, before;
    var i := entered;
    while i > 0
      invariant 0 <= i <= entered && state == Verdict(oracle, |trace|)
      invariant trace + Outwards(cs, AfterEach, i) == before + Outwards(cs, AfterEach, entered)
    {
      i := i - 1;
      var nodes := SetupNodesOfType(cs[i], AfterEach);
      ghost var start := trace;
      state, trace := RunAfters(i, nodes, oracle, state, trace);
      assert start + (ActsOf(i, nodes) + Outwards(cs, AfterEach, i)) == trace + Outwards(cs, AfterEach, i);
    }
    assert trace + [] == trace;
  }

  method RunAfters(i: nat, nodes: seq<SetupNode>, oracle: Oracle, first: Outcome, start: seq<Act>)
    returns (state: Outcome, trace: seq<Act>)
    requires first == Verdict(oracle, |start|)
    ensures trace == start + ActsOf(i, nodes) && state == Verdict(oracle, |trace|)
  {
    var acts := ActsOf(i, nodes);
    state, trace := first, start;
    for k := 0 to |nodes|
      invariant trace == start + acts[..k] && state == Verdict(oracle, |trace|)
    {
      var outcome := oracle(|trace|);
      trace := trace + [Setup(i, nodes[k])];
      assert acts[..k+1] == acts[..k] + [acts[k]];
      if outcome != Passed && state == Passed {
        state := outcome;
      }
    }
    assert acts[..|acts|] == acts;
  }

  /** For every nest of containers and every pattern of outcomes: BeforeEach outer to inner, then
      JustBeforeEach, then the subject, stopping at the first failure; then every AfterEach of
      each container entered, inner to outer, once; the verdict is the first outcome that is
      not a pass. */
  method RunSample(cs: seq<Container>, oracle: Oracle) returns (state: Outcome, trace: seq<Act>)
    ensures Entered(cs, oracle) <= |cs| && trace == Trace(cs, oracle)
    ensures exists at :: Runs(cs, oracle, trace, at)
    ensures state == Verdict(oracle, |trace|)
  {
    var entered;
    state, trace, entered := RunSetup(cs, oracle);
    state, trace := Unwind(cs, oracle, entered, state, trace);
    TraceRuns(cs, oracle);
  }

  // -------------------------------------------------------------- samples

  function SampleVerdict(cs: seq<Container>, oracle: Oracle): Outcome {
    EnteredBound(cs, oracle);
    Verdict(oracle, |Trace(cs, oracle)|)
  }

  ghost predicate SamplesPass(cs: seq<Container>, oracles: seq<Oracle>) {
    forall k :: 0 <= k < |oracles| ==> SampleVerdict(cs, oracles[k]) == Passed
  }

  method RunOnce(cs: seq<Container>, oracle: Oracle) returns (state: Outcome)
    ensures state == SampleVerdict(cs, oracle)
  {
    var trace;
    state, trace := RunSample(cs, oracle);
  }

  /** Spec.Run: repeats the sample until one does not pass; its verdict is then that of the spec.
      Without samples the state stays what it was. */
  method Run(cs: seq<Container>, oracles: seq<Oracle>, before: Outcome) returns (state: Outcome)
    ensures oracles == [] ==> state == before
    ensures oracles != [] ==> (state == Passed <==> SamplesPass(cs, oracles))
    ensures oracles != [] && state != Passed ==>
      exists k :: 0 <= k < |oracles| && SampleVerdict(cs, oracles[k]) == state && SamplesPass(cs, oracles[..k])
  {
    state := before;
    for sample := 0 to |oracles|
      invariant sample == 0 ==> state == before
      invariant sample > 0 ==> state == Passed
      invariant SamplesPass(cs, oracles[..sample])
    {
      state := RunOnce(cs, oracles[sample]);
      if state != Passed {
        return;
      }
      assert oracles[..sample+1] == oracles[..sample] + [oracles[sample]];
    }
    assert oracles[..|oracles|] == oracles;
  }

  // ----------------------------------------------------- what the trace is

  function Times<T(==)>(s: seq<T>, x: T): nat {
    if s == [] then 0 else (if s[0] == x then 1 else 0) + Times(s[1..], x)
  }

  lemma {:induction false} TimesConcat<T>(s: seq<T>, t: seq<T>, x: T)
    ensures Times(s + t, x) == Times(s, x) + Times(t, x)
  {
    if s == [] {
      assert s + t == t;
    } else {
      assert (s + t)[1..] == s[1..] + t;
      TimesConcat(s[1..], t, x);
    }
  }

  lemma {:induction false} TimesNone<T>(s: seq<T>, x: T)
    requires x !in s
    ensures Times(s, x) == 0
  {
    if s != [] {
      TimesNone(s[1..], x);
    }
  }

  /** The AfterEach nodes run are those of the containers entered, each as often as it is there. */
  lemma {:induction false} OutwardsAre(cs: seq<Container>, n: nat, i: nat, node: SetupNode)
    requires n <= |cs|
    ensures Times(Outwards(cs, AfterEach, n), Setup(i, node)) ==
      if i < n && node.kind == AfterEach then Times(cs[i], node) else 0
  {
    if n > 0 {
      OutwardsAre(cs, n - 1, i, node);
      ActsCount(n - 1, OfKind(cs[n-1], AfterEach), i, node);
      KindCount(cs[n-1], AfterEach, node);
      TimesConcat(ActsOf(n - 1, OfKind(cs[n-1], AfterEach)), Outwards(cs, AfterEach, n - 1), Setup(i, node));
    }
  }

  lemma {:induction false} ActsCount(i: nat, nodes: seq<SetupNode>, k: nat, node: SetupNode)
    ensures Times(ActsOf(i, nodes), Setup(k, node)) == if k == i then Times(nodes, node) else 0
  {
    if nodes != [] {
      ActsCount(i, nodes[1..], k, node);
      assert ActsOf(i, nodes)[1..] == ActsOf(i, nodes[1..]);
    }
  }

  lemma {:induction false} KindCount(c: Container, kind: Kind, node: SetupNode)
    ensures Times(OfKind(c, kind), node) == if node.kind == kind then Times(c, node) else 0
  {
    if c != [] {
      KindCount(c[1..], kind, node);
      if c[0].kind == kind {
        assert ([c[0]] + OfKind(c[1..], kind))[1..] == OfKind(c[1..], kind);
      }
    }
  }

  lemma NotPlanned(cs: seq<Container>, i: nat, node: SetupNode)
    requires node.kind == AfterEach
    ensures Setup(i, node) !in Planned(cs)
  {
    var b := Inwards(cs, BeforeEach, |cs|);
    forall k | 0 <= k < |Planned(cs)| ensures Planned(cs)[k] != Setup(i, node) {
      if k < |b| {
        InwardsContainers(cs, BeforeEach, |cs|, k);
      } else if k < |Planned(cs)| - 1 {
        InwardsContainers(cs, JustBeforeEach, |cs|, k - |b|);
      }
    }
  }

  /** In every sample an AfterEach runs exactly as often as it stands in a container that was
      entered, and not at all for one that was not. */
  lemma TeardownIsComplete(cs: seq<Container>, oracle: Oracle, i: nat, node: SetupNode)
    requires node.kind == AfterEach
    ensures Entered(cs, oracle) <= |cs|
    ensures Times(Trace(cs, oracle), Setup(i, node)) == if i < Entered(cs, oracle) then Times(cs[i], node) else 0
  {
    EnteredBound(cs, oracle);
    OutwardsAre(cs, Entered(cs, oracle), i, node);
    var done := Executed(Planned(cs), oracle);
    NotPlanned(cs, i, node);
    TimesNone(done, Setup(i, node));
    TimesConcat(done, Outwards(cs, AfterEach, Entered(cs, oracle)), Setup(i, node));
  }
}
