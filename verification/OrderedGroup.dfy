/** A group whose members start in order, each when the previous is ready, and stop in
    reverse order. */
module OrderedGroup {
  import opened Wrappers
  import opened Sequences

  type Error = string
  type Signal = int

  datatype ExitEvent = ExitEvent(name: string, err: Option<Error>)

  /** What the select in orderedStart sees for a member. */
  datatype Start = BecomesReady | ExitsEarly(err: Option<Error>) | Interrupted(signal: Signal)

  /** What the select in waitForSignal sees: a pool member exits, or a signal arrives. */
  datatype Wake = MemberExits(index: nat, err: Option<Error>) | Signalled(signal: Signal)

  /** The behaviour of the world: how each member starts, what ends the wait, and the status
      with which each member exits once it is waited for. */
  datatype World = World(starts: nat -> Start, wake: Wake, exits: nat -> Option<Error>)

  /** What is done to member i, in order. */
  datatype Action = Starts(i: nat) | SignalSent(i: nat, signal: Option<Signal>) | Waited(i: nat)

  // ------------------------------------------------------------ validation

  /** Every name that has occurred before, in order. */
  function Repeats(names: seq<string>): seq<string> {
    if names == [] then []
    else
      var before, last := names[..|names|-1], names[|names|-1];
      Repeats(before) + if last in before then [last] else []
  }

  lemma {:induction false} RepeatsIs(names: seq<string>)
    ensures Repeats(names) == [] <==> Distinct(names)
  {
    if names != [] {
      var before, last := names[..|names|-1], names[|names|-1];
      RepeatsIs(before);
      if last in before {
        var i :| 0 <= i < |before| && before[i] == last;
        assert names[i] == names[|names|-1];
      }
      if Distinct(names) {
        assert forall i :: 0 <= i < |before| ==> before[i] == names[i];
      }
    }
  }

  /** Each name is reported once for every occurrence after its first. */
  lemma {:induction false} RepeatsCount(names: seq<string>, name: string)
    ensures multiset(Repeats(names))[name] == if name in names then multiset(names)[name] - 1 else 0
  {
    if names != [] {
      var before, last := names[..|names|-1], names[|names|-1];
      RepeatsCount(before, name);
      assert names == before + [last];
    }
  }

  function RepeatsAt(names: seq<string>): seq<nat> {
    if names == [] then []
    else
      var n := |names| - 1;
      RepeatsAt(names[..n]) + if names[n] in names[..n] then [n] else []
  }

  /** The reported names stand at these positions: rising, and all those of a name that has occurred before. */
  ghost predicate AreRepeats(names: seq<string>, repeats: seq<string>, at: seq<nat>) {
    && |at| == |repeats| && (forall k :: 0 <= k < |at| ==> at[k] < |names| && repeats[k] == names[at[k]])
    && (forall k, m :: 0 <= k < m < |at| ==> at[k] < at[m])
    && (forall i :: 0 <= i < |names| ==> (i in at <==> names[i] in names[..i]))
  }

  lemma {:induction false} RepeatsInOrder(names: seq<string>)
    ensures AreRepeats(names, Repeats(names), RepeatsAt(names))
  {
    if names != [] {
      var n := |names| - 1;
      var before := names[..n];
      RepeatsInOrder(before);
      forall i | 0 <= i < n ensures names[..i] == before[..i] && names[i] == before[i] {
      }
      if names[n] in before {
        assert RepeatsAt(names) == RepeatsAt(before) + [n] && Repeats(names) == Repeats(before) + [names[n]];
      } else {
        assert RepeatsAt(names) == RepeatsAt(before) && Repeats(names) == Repeats(before);
      }
    }
  }

  /** The duplicate names; the list is valid when there are none. */
  method Validate(names: seq<string>) returns (duplicateNames: seq<string>)
    ensures duplicateNames == Repeats(names)
    ensures exists at :: AreRepeats(names, duplicateNames, at)
    ensures duplicateNames == [] <==> Distinct(names)
  {
    var foundNames := {};
    duplicateNames := [];
    for i := 0 to |names|
      invariant foundNames == set x | x in names[..i]
      invariant duplicateNames == Repeats(names[..i])
    {
      assert names[..i+1][..i] == names[..i] && names[..i+1] == names[..i] + [names[i]];
      if names[i] in foundNames {
        duplicateNames := duplicateNames + [names[i]];
        continue;
      }
      foundNames := foundNames + {names[i]};
    }
    assert names[..|names|] == names;
    RepeatsIs(names);
    RepeatsInOrder(names);
  }

  // ----------------------------------------------------- starting, stopping

  /** How many of the first n members become ready before one does not. */
  function ReadyCount(w: World, n: nat): (k: nat)
    ensures k <= n
    ensures forall i :: 0 <= i < k ==> w.starts(i) == BecomesReady
    ensures k < n ==> w.starts(k) != BecomesReady
  {
    if n == 0 then 0
    else
      var k := ReadyCount(w, n - 1);
      if k == n - 1 && w.starts(n - 1) == BecomesReady then n else k
  }

  /** The events collected before stop is called. */
  function Before(names: seq<string>, w: World): seq<ExitEvent> {
    var n := ReadyCount(w, |names|);
    if n < |names| then
      if w.starts(n).ExitsEarly? then [ExitEvent(names[n], w.starts(n).err)] else []
    else if w.wake.MemberExits? && w.wake.index < n then [ExitEvent(names[w.wake.index], w.wake.err)]
    else []
  }

  /** The events that stop adds: the pool backwards, but for a member that has already exited. */
  function Stopping(names: seq<string>, w: World, n: nat, skip: Option<nat>): seq<ExitEvent>
    requires n <= |names|
  {
    if n == 0 then []
    else (if skip == Some(n - 1) then [] else [ExitEvent(names[n-1], w.exits(n - 1))]) + Stopping(names, w, n - 1, skip)
  }

  /** The pool member that exited by itself, if any. */
  function Skip(names: seq<string>, w: World): Option<nat> {
    if ReadyCount(w, |names|) == |names| && w.wake.MemberExits? && w.wake.index < |names|
    then Some(w.wake.index) else None
  }

  /** The whole exit trace of a run. */
  function Trace(names: seq<string>, w: World): seq<ExitEvent> {
    Before(names, w) + Stopping(names, w, ReadyCount(w, |names|), Skip(names, w))
  }

  /** What stop does: signal a member, wait for it, then turn to the one started before it. */
  function StopActions(n: nat, skip: Option<nat>, signal: Option<Signal>): seq<Action> {
    if n == 0 then []
    else
      var first := if skip == Some(n - 1) then [] else [SignalSent(n - 1, signal), Waited(n - 1)];
      first + StopActions(n - 1, skip, signal)
  }

  function StartActions(n: nat): seq<Action> {
    seq(n, i requires 0 <= i < n => Starts(i))
  }

  // ------------------------------------------------------------- theorems

  function CountName(trace: seq<ExitEvent>, name: string): nat {
    if trace == [] then 0 else (if trace[0].name == name then 1 else 0) + CountName(trace[1..], name)
  }

  lemma {:induction false} CountConcat(s: seq<ExitEvent>, t: seq<ExitEvent>, name: string)
    ensures CountName(s + t, name) == CountName(s, name) + CountName(t, name)
  {
    if s == [] {
      assert s + t == t;
    } else {
      assert (s + t)[1..] == s[1..] + t;
      CountConcat(s[1..], t, name);
    }
  }

  lemma {:induction false} StoppingCount(names: seq<string>, w: World, n: nat, skip: Option<nat>, i: nat)
    requires Distinct(names) && n <= |names| && i < |names|
    ensures CountName(Stopping(names, w, n, skip), names[i]) == if i < n && skip != Some(i) then 1 else 0
  {
    if n > 0 {
      StoppingCount(names, w, n - 1, skip, i);
      var here := if skip == Some(n - 1) then [] else [ExitEvent(names[n-1], w.exits(n - 1))];
      CountConcat(here, Stopping(names, w, n - 1, skip), names[i]);
    }
  }

  /** With distinct names the trace has exactly one event for every member of the pool, one for
      a member that exited while starting, and none for any other. */
  lemma OneEventEach(names: seq<string>, w: World, i: nat)
    requires Distinct(names) && i < |names|
    ensures var n := ReadyCount(w, |names|);
      CountName(Trace(names, w), names[i]) ==
        if i < n || (i == n && w.starts(n).ExitsEarly?) then 1 else 0
  {
    var n := ReadyCount(w, |names|);
    StoppingCount(names, w, n, Skip(names, w), i);
    CountConcat(Before(names, w), Stopping(names, w, n, Skip(names, w)), names[i]);
  }

  /** The position of member i's signal among the stop actions, and that all it is preceded by
      concerns members started later, each already waited for. */
  lemma {:induction false} ReverseOrder(n: nat, skip: Option<nat>, signal: Option<Signal>, k: nat)
    requires k < |StopActions(n, skip, signal)|
    ensures var acts := StopActions(n, skip, signal);
      && acts[k].i < n && Some(acts[k].i) != skip
      && (k % 2 == 0 ==> acts[k] == SignalSent(acts[k].i, signal) && k + 1 < |acts| && acts[k+1] == Waited(acts[k].i))
      && (forall m :: 0 <= m < k ==> acts[m].i > acts[k].i || (k % 2 == 1 && m == k - 1 && acts[m].i == acts[k].i))
  {
    if n > 0 {
      var here := if skip == Some(n - 1) then [] else [SignalSent(n - 1, signal), Waited(n - 1)];
      var rest := StopActions(n - 1, skip, signal);
      assert StopActions(n, skip, signal) == here + rest;
      if k >= |here| {
        ReverseOrder(n - 1, skip, signal, k - |here|);
      }
    }
  }

  /** The members that were started: the pool, and the one at which starting ended. */
  function StartedCount(names: seq<string>, w: World): nat {
    var n := ReadyCount(w, |names|);
    if n < |names| then n + 1 else n
  }

  /** Every member that was started has exited when the group returns, exactly unless a signal
      arrived while one was starting: that one is neither signalled nor waited for. */
  lemma AllStoppedUnlessInterrupted(names: seq<string>, w: World)
    requires Distinct(names)
    ensures (forall i :: 0 <= i < StartedCount(names, w) ==> CountName(Trace(names, w), names[i]) == 1) <==>
      (ReadyCount(w, |names|) < |names| ==> !w.starts(ReadyCount(w, |names|)).Interrupted?)
  {
    var n := ReadyCount(w, |names|);
    forall i | 0 <= i < |names|
      ensures CountName(Trace(names, w), names[i]) == if i < n || (i == n && w.starts(n).ExitsEarly?) then 1 else 0
    {
      OneEventEach(names, w, i);
    }
    if n < |names| && w.starts(n).Interrupted? {
      assert CountName(Trace(names, w), names[n]) == 0;
    }
  }

  // ------------------------------------------- in terms of the world alone

  /** The member has ended when the group returns: it was ready, or exited while starting. */
  predicate Ended(w: World, total: nat, i: nat) {
    var n := ReadyCount(w, total);
    i < n || (i == n < total && w.starts(n).ExitsEarly?)
  }

  /** What it ended with: what it exited with while starting or by itself, or else once it was waited for. */
  function EndError(w: World, total: nat, i: nat): Option<Error> {
    var n := ReadyCount(w, total);
    if i == n && w.starts(n).ExitsEarly? then w.starts(n).err
    else if n == total && w.wake.MemberExits? && w.wake.index == i then w.wake.err
    else w.exits(i)
  }

  /** The trace tells of each member that ended, once, with what it ended with, and of nothing else. */
  ghost predicate Reports(names: seq<string>, w: World, trace: seq<ExitEvent>) {
    && (forall i :: 0 <= i < |names| ==> CountName(trace, names[i]) == if Ended(w, |names|, i) then 1 else 0)
    && (forall k :: 0 <= k < |trace| ==> TellsOf(names, w, trace[k]))
    && (forall k, m :: 0 <= k < m < |trace| ==> StopsBefore(names, w, trace[k].name, trace[m].name))
  }

  /** The first ended by itself, or was started after the second; the second did not end by itself. */
  ghost predicate StopsBefore(names: seq<string>, w: World, first: string, second: string) {
    exists i, j :: 0 <= i < |names| && 0 <= j < |names| && first == names[i] && second == names[j] &&
      StopsOne(w, |names|, j) && (StopsOne(w, |names|, i) ==> i > j)
  }

  ghost predicate TellsOf(names: seq<string>, w: World, e: ExitEvent) {
    exists i :: 0 <= i < |names| && Ended(w, |names|, i) && e == ExitEvent(names[i], EndError(w, |names|, i))
  }

  lemma {:induction false} StoppingTells(names: seq<string>, w: World, n: nat, skip: Option<nat>, k: nat)
    requires n <= |names| && k < |Stopping(names, w, n, skip)|
    ensures exists i ::
      0 <= i < n && skip != Some(i) && Stopping(names, w, n, skip)[k] == ExitEvent(names[i], w.exits(i))
  {
    var here := if skip == Some(n - 1) then [] else [ExitEvent(names[n-1], w.exits(n - 1))];
    if k >= |here| {
      StoppingTells(names, w, n - 1, skip, k - |here|);
    }
  }

  /** The members that stop waits for, in order. */
  function StopOrder(n: nat, skip: Option<nat>): seq<nat> {
    if n == 0 then [] else (if skip == Some(n - 1) then [] else [n - 1]) + StopOrder(n - 1, skip)
  }

  lemma {:induction false} StopOrderAt(n: nat, skip: Option<nat>, k: nat)
    requires k < |StopOrder(n, skip)|
    ensures StopOrder(n, skip)[k] < n && skip != Some(StopOrder(n, skip)[k])
  {
    var here := if skip == Some(n - 1) then [] else [n - 1];
    if k >= |here| {
      StopOrderAt(n - 1, skip, k - |here|);
    }
  }

  lemma {:induction false} StopOrderFalls(n: nat, skip: Option<nat>, k: nat, m: nat)
    requires k < m < |StopOrder(n, skip)|
    ensures StopOrder(n, skip)[k] > StopOrder(n, skip)[m]
  {
    var here := if skip == Some(n - 1) then [] else [n - 1];
    if k >= |here| {
      StopOrderFalls(n - 1, skip, k - |here|, m - |here|);
    } else {
      StopOrderAt(n - 1, skip, m - 1);
    }
  }

  lemma {:induction false} StoppingInOrder(names: seq<string>, w: World, n: nat, skip: Option<nat>)
    requires n <= |names|
    ensures var order, stops := StopOrder(n, skip), Stopping(names, w, n, skip);
      |stops| == |order| && forall k :: 0 <= k < |order| ==> order[k] < n && stops[k].name == names[order[k]]
  {
    if n > 0 {
      StoppingInOrder(names, w, n - 1, skip);
    }
  }

  lemma TraceInOrder(names: seq<string>, w: World, k: nat, m: nat)
    requires k < m < |Trace(names, w)|
    ensures StopsBefore(names, w, Trace(names, w)[k].name, Trace(names, w)[m].name)
  {
    var n, skip, before := ReadyCount(w, |names|), Skip(names, w), |Before(names, w)|;
    StoppingInOrder(names, w, n, skip);
    StopOrderAt(n, skip, m - before);
    var j := StopOrder(n, skip)[m - before];
    assert StopsOne(w, |names|, j) && Trace(names, w)[m].name == names[j];
    var i := if k >= before then StopOrder(n, skip)[k - before] else if n < |names| then n else w.wake.index;
    assert Trace(names, w)[k].name == names[i];
    if k >= before {
      StopOrderFalls(n, skip, k - before, m - before);
    }
    assert StopsOne(w, |names|, i) ==> i > j;
  }

  lemma TraceReports(names: seq<string>, w: World)
    requires Distinct(names)
    ensures Reports(names, w, Trace(names, w))
  {
    forall k, m | 0 <= k < m < |Trace(names, w)|
      ensures StopsBefore(names, w, Trace(names, w)[k].name, Trace(names, w)[m].name)
    {
      TraceInOrder(names, w, k, m);
    }
    TraceTells(names, w);
  }

  lemma TraceTells(names: seq<string>, w: World)
    requires Distinct(names)
    ensures var trace := Trace(names, w);
      && (forall i :: 0 <= i < |names| ==> CountName(trace, names[i]) == if Ended(w, |names|, i) then 1 else 0)
      && (forall k :: 0 <= k < |trace| ==> TellsOf(names, w, trace[k]))
  {
    var n, trace, before := ReadyCount(w, |names|), Trace(names, w), Before(names, w);
    forall i | 0 <= i < |names| ensures CountName(trace, names[i]) == if Ended(w, |names|, i) then 1 else 0 {
      OneEventEach(names, w, i);
    }
    forall k | 0 <= k < |trace| ensures TellsOf(names, w, trace[k]) {
      if k < |before| {
        BeforeTells(names, w);
      } else {
        StoppingTells(names, w, n, Skip(names, w), k - |before|);
        var i :| 0 <= i < n && Skip(names, w) != Some(i) && trace[k] == ExitEvent(names[i], w.exits(i));
        assert Ended(w, |names|, i) && EndError(w, |names|, i) == w.exits(i);
      }
    }
  }

  lemma BeforeTells(names: seq<string>, w: World)
    requires Before(names, w) != []
    ensures |Before(names, w)| == 1 && TellsOf(names, w, Before(names, w)[0])
  {
    var n := ReadyCount(w, |names|);
    var i := if n < |names| then n else w.wake.index;
    assert Ended(w, |names|, i) && Before(names, w)[0] == ExitEvent(names[i], EndError(w, |names|, i));
  }

  lemma {:induction false} CountedIsThere(trace: seq<ExitEvent>, name: string)
    requires CountName(trace, name) > 0
    ensures exists k :: 0 <= k < |trace| && trace[k].name == name
  {
    if trace[0].name != name {
      CountedIsThere(trace[1..], name);
      var k :| 0 <= k < |trace[1..]| && trace[1..][k].name == name;
      assert trace[k+1].name == name;
    }
  }

  ghost predicate SomeEndsBadly(w: World, total: nat) {
    exists i :: 0 <= i < total && Ended(w, total, i) && EndError(w, total, i).Some?
  }

  /** A trace that reports has an error exactly if some member ended with one. */
  lemma ErrorIsReported(names: seq<string>, w: World, trace: seq<ExitEvent>)
    requires Distinct(names) && Reports(names, w, trace)
    ensures AnyError(trace) <==> SomeEndsBadly(w, |names|)
  {
    if AnyError(trace) {
      var k :| 0 <= k < |trace| && trace[k].err.Some?;
      assert TellsOf(names, w, trace[k]);
    }
    if i :| 0 <= i < |names| && Ended(w, |names|, i) && EndError(w, |names|, i).Some? {
      CountedIsThere(trace, names[i]);
      var k :| 0 <= k < |trace| && trace[k].name == names[i];
      assert TellsOf(names, w, trace[k]);
      var j :| 0 <= j < |names| && Ended(w, |names|, j) && trace[k] == ExitEvent(names[j], EndError(w, |names|, j));
      assert j == i;
    }
  }

  /** The members are started in order; then each pooled member but the one that woke the group is signalled and
      waited for, and nobody else is. */
  ghost predicate Acts(w: World, total: nat, signal: Option<Signal>, actions: seq<Action>) {
    var n := ReadyCount(w, total);
    var started := if n < total then n + 1 else n;
    && started <= |actions|
    && (forall k :: 0 <= k < started ==> actions[k] == Starts(k))
    && (forall k :: started <= k < |actions| ==> StopsByOne(w, total, signal, actions[k]))
    && (forall i :: StopsOne(w, total, i) ==> SignalSent(i, signal) in actions && Waited(i) in actions)
  }

  predicate StopsByOne(w: World, total: nat, signal: Option<Signal>, a: Action) {
    StopsOne(w, total, a.i) && (a == SignalSent(a.i, signal) || a == Waited(a.i))
  }

  predicate StopsOne(w: World, total: nat, i: nat) {
    var n := ReadyCount(w, total);
    i < n && !(n == total && w.wake.MemberExits? && w.wake.index == i)
  }

  /** Every pooled member that is not skipped is signalled and waited for. */
  lemma {:induction false} StopActionOf(n: nat, skip: Option<nat>, signal: Option<Signal>, i: nat)
    returns (k: nat)
    requires i < n && skip != Some(i)
    ensures var acts := StopActions(n, skip, signal);
      k + 1 < |acts| && acts[k] == SignalSent(i, signal) && acts[k+1] == Waited(i)
  {
    var here := if skip == Some(n - 1) then [] else [SignalSent(n - 1, signal), Waited(n - 1)];
    assert StopActions(n, skip, signal) == here + StopActions(n - 1, skip, signal);
    k := 0;
    if i < n - 1 {
      var m := StopActionOf(n - 1, skip, signal, i);
      k := |here| + m;
    }
  }

  lemma StopActionIs(n: nat, skip: Option<nat>, signal: Option<Signal>, k: nat)
    requires k < |StopActions(n, skip, signal)|
    ensures var a := StopActions(n, skip, signal)[k];
      a.i < n && skip != Some(a.i) && (a == SignalSent(a.i, signal) || a == Waited(a.i))
  {
    ReverseOrder(n, skip, signal, k);
    if k % 2 == 1 {
      ReverseOrder(n, skip, signal, k - 1);
    }
  }

  lemma ActionsAre(names: seq<string>, w: World, signal: Option<Signal>, actions: seq<Action>)
    requires w.wake.MemberExits? ==> w.wake.index < |names|
    requires actions ==
      StartActions(StartedCount(names, w)) + StopActions(ReadyCount(w, |names|), Skip(names, w), signal)
    ensures Acts(w, |names|, signal, actions)
  {
    var n, started, skip := ReadyCount(w, |names|), StartedCount(names, w), Skip(names, w);
    forall k | started <= k < |actions| ensures StopsByOne(w, |names|, signal, actions[k]) {
      StopActionIs(n, skip, signal, k - started);
    }
    forall i: nat | StopsOne(w, |names|, i) ensures SignalSent(i, signal) in actions && Waited(i) in actions {
      var k := StopActionOf(n, skip, signal, i);
      assert actions[started + k] == SignalSent(i, signal) && actions[started + k + 1] == Waited(i);
    }
  }

  predicate AnyError(trace: seq<ExitEvent>) {
    exists k :: 0 <= k < |trace| && trace[k].err.Some?
  }

  lemma AnyErrorSnoc(s: seq<ExitEvent>, e: ExitEvent)
    ensures AnyError(s + [e]) <==> AnyError(s) || e.err.Some?
  {
    assert (s + [e])[|s|] == e;
    if AnyError(s) {
      var k :| 0 <= k < |s| && s[k].err.Some?;
      assert (s + [e])[k].err.Some?;
    }
  }

  lemma Regroup<T>(a: seq<T>, b: seq<T>, c: seq<T>)
    ensures a + (b + c) == (a + b) + c
  {
  }

  /** One turn of stop's loop. */
  lemma StopNext(names: seq<string>, w: World, i: nat, skip: Option<nat>, signal: Option<Signal>,
                 trace: seq<ExitEvent>, actions: seq<Action>)
    requires i < |names|
    ensures trace + Stopping(names, w, i + 1, skip) ==
      (if skip == Some(i) then trace else trace + [ExitEvent(names[i], w.exits(i))]) + Stopping(names, w, i, skip)
    ensures actions + StopActions(i + 1, skip, signal) ==
      (if skip == Some(i) then actions else actions + [SignalSent(i, signal), Waited(i)]) + StopActions(i, skip, signal)
  {
    if skip != Some(i) {
      Regroup(trace, [ExitEvent(names[i], w.exits(i))], Stopping(names, w, i, skip));
      Regroup(actions, [SignalSent(i, signal), Waited(i)], StopActions(i, skip, signal));
    }
  }

  // ------------------------------------------------------------- the code

  datatype Result = Fine | DuplicateNames(names: seq<string>) | Failed(trace: seq<ExitEvent>)

  class Group {
    const members: seq<string>
    const terminationSignal: Option<Signal>
    var pool: map<string, nat>
    var actions: seq<Action>

    constructor (members: seq<string>, terminationSignal: Option<Signal>)
      ensures this.members == members && this.terminationSignal == terminationSignal && pool == map[] && actions == []
    {
      this.members, this.terminationSignal, pool, actions := members, terminationSignal, map[], [];
    }

    /** The pool holds exactly the first n members. */
    ghost predicate Holds(n: nat)
      reads this
    {
      n <= |members| && pool == PoolOf(members, n)
    }

    method OrderedStart(w: World) returns (signal: Option<Signal>, errTrace: seq<ExitEvent>)
      requires pool == map[] && actions == []
      modifies this
      ensures Holds(ReadyCount(w, |members|)) && actions == StartActions(StartedCount(members, w))
      ensures var n := ReadyCount(w, |members|);
        if n == |members| then signal == None && errTrace == []
        else match w.starts(n)
          case ExitsEarly(err) => signal == None && errTrace == [ExitEvent(members[n], err)]
          case Interrupted(sig) => signal == Some(sig) && errTrace == []
    {
      for i := 0 to |members|
        invariant Holds(i) && actions == StartActions(i)
        invariant forall k :: 0 <= k < i ==> w.starts(k) == BecomesReady
      {
        actions := actions + [Starts(i)];
        match w.starts(i) {
          case BecomesReady =>
            pool := pool[members[i] := i];
          case ExitsEarly(err) =>
            return None, [ExitEvent(members[i], err)];
          case Interrupted(sig) =>
            return Some(sig), [];
        }
      }
      return None, [];
    }

    /** Signals and waits for the pool backwards, leaving out the member that has exited. */
    method Stop(w: World, signal: Option<Signal>, errTrace: seq<ExitEvent>, ghost n: nat, ghost skip: Option<nat>)
      returns (r: Result)
      requires Distinct(members) && Holds(n)
      requires forall i :: 0 <= i < n ==> (Mentions(errTrace, members[i]) <==> skip == Some(i))
      modifies this`actions
      ensures actions == old(actions) + StopActions(n, skip, signal)
      ensures var trace := errTrace + Stopping(members, w, n, skip);
        r == if AnyError(trace) then Failed(trace) else Fine
    {
      var errOccurred, exited := ExitedNames(errTrace);
      var trace;
      errOccurred, trace := StopPool(w, signal, errTrace, errOccurred, exited, n, skip);
      if errOccurred {
        return Failed(trace);
      }
      return Fine;
    }

    /** The second loop of stop. */
    method StopPool(w: World, signal: Option<Signal>, errTrace: seq<ExitEvent>, failed: bool, exited: set<string>,
                    ghost n: nat, ghost skip: Option<nat>)
      returns (errOccurred: bool, trace: seq<ExitEvent>)
      requires Distinct(members) && Holds(n) && failed == AnyError(errTrace)
      requires forall i :: 0 <= i < n ==> (members[i] in exited <==> skip == Some(i))
      modifies this`actions
      ensures actions == old(actions) + StopActions(n, skip, signal)
      ensures trace == errTrace + Stopping(members, w, n, skip) && errOccurred == AnyError(trace)
    {
      errOccurred, trace := failed, errTrace;
      PoolIs(members, n);
      var i := |pool|;
      while i > 0
        invariant 0 <= i <= n
        invariant trace + Stopping(members, w, i, skip) == errTrace + Stopping(members, w, n, skip)
        invariant actions + StopActions(i, skip, signal) == old(actions) + StopActions(n, skip, signal)
        invariant errOccurred <==> AnyError(trace)
      {
        i := i - 1;
        var m := members[i];
        StopNext(members, w, i, skip, signal, trace, actions);
        if m in exited {
          continue;
        }
        if m in pool {
          actions := actions + [SignalSent(i, signal), Waited(i)];
          var err := w.exits(i);
          AnyErrorSnoc(trace, ExitEvent(m, err));
          trace := trace + [ExitEvent(m, err)];
          if err.Some? {
            errOccurred := true;
          }
        }
      }
      assert trace + [] == trace && actions + [] == actions;
    }

    /** The first loop of stop. */
    method ExitedNames(errTrace: seq<ExitEvent>) returns (errOccurred: bool, exited: set<string>)
      ensures errOccurred <==> AnyError(errTrace)
      ensures forall name :: name in exited <==> Mentions(errTrace, name)
    {
      errOccurred, exited := false, {};
      for k := 0 to |errTrace|
        invariant errOccurred <==> AnyError(errTrace[..k])
        invariant forall name :: name in exited <==> Mentions(errTrace[..k], name)
      {
        assert errTrace[..k+1] == errTrace[..k] + [errTrace[k]];
        AnyErrorSnoc(errTrace[..k], errTrace[k]);
        MentionsSnoc(errTrace[..k], errTrace[k]);
        exited := exited + {errTrace[k].name};
        if errTrace[k].err.Some? {
          errOccurred := true;
        }
      }
      assert errTrace[..|errTrace|] == errTrace;
    }

    /** The whole run: it fails exactly when some member ended with an error, with a trace that reports them all; a
        signal that arrives is passed on, and the termination signal otherwise. */
    method Run(w: World) returns (r: Result)
      requires pool == map[] && actions == []
      requires w.wake.MemberExits? ==> w.wake.index < |members|
      modifies this
      ensures !Distinct(members) ==> r == DuplicateNames(Repeats(members)) && actions == []
      ensures Distinct(members) ==>
        && (r.Failed? || r.Fine?) && (r.Failed? <==> SomeEndsBadly(w, |members|))
        && (r.Failed? ==> Reports(members, w, r.trace))
      ensures Distinct(members) ==>
        var n := ReadyCount(w, |members|);
        && (n < |members| && w.starts(n).Interrupted? ==> Acts(w, |members|, Some(w.starts(n).signal), actions))
        && (n < |members| && w.starts(n).ExitsEarly? ==> Acts(w, |members|, terminationSignal, actions))
        && (n == |members| && w.wake.MemberExits? ==> Acts(w, |members|, terminationSignal, actions))
        && (n == |members| && w.wake.Signalled? ==> Acts(w, |members|, Some(w.wake.signal), actions))
      ensures Distinct(members) ==>
        r == if AnyError(Trace(members, w)) then Failed(Trace(members, w)) else Fine
      ensures Distinct(members) ==>
        var n := ReadyCount(w, |members|);
        actions == StartActions(StartedCount(members, w)) +
          StopActions(n, Skip(members, w), StopSignal(members, w, terminationSignal))
    {
      var duplicates := Validate(members);
      if duplicates != [] {
        return DuplicateNames(duplicates);
      }
      r := StartAndStop(w);
      TraceReports(members, w);
      ErrorIsReported(members, w, Trace(members, w));
      ActionsAre(members, w, StopSignal(members, w, terminationSignal), actions);
    }

    /** Its part after the validation. */
    method StartAndStop(w: World) returns (r: Result)
      requires Distinct(members) && pool == map[] && actions == []
      requires w.wake.MemberExits? ==> w.wake.index < |members|
      modifies this
      ensures r == if AnyError(Trace(members, w)) then Failed(Trace(members, w)) else Fine
      ensures var n := ReadyCount(w, |members|);
        actions == StartActions(StartedCount(members, w)) +
          StopActions(n, Skip(members, w), StopSignal(members, w, terminationSignal))
    {
      ghost var n := ReadyCount(w, |members|);
      var signal, errTrace := OrderedStart(w);
      if errTrace != [] {
        r := Stop(w, terminationSignal, errTrace, n, None);
        return;
      }
      if signal != None {
        r := Stop(w, signal, errTrace, n, None);
        return;
      }
      match w.wake {
        case MemberExits(k, err) => signal, errTrace := terminationSignal, [ExitEvent(members[k], err)];
        case Signalled(sig) => signal := Some(sig);
      }
      forall i | 0 <= i < n ensures Mentions(errTrace, members[i]) <==> Skip(members, w) == Some(i) {
        if errTrace != [] {
          assert errTrace[0].name == members[w.wake.index];
        }
      }
      r := Stop(w, signal, errTrace, n, Skip(members, w));
    }
  }

  /** The signal that stop passes on. */
  function StopSignal(names: seq<string>, w: World, terminationSignal: Option<Signal>): Option<Signal> {
    var n := ReadyCount(w, |names|);
    if n < |names| then if w.starts(n).Interrupted? then Some(w.starts(n).signal) else terminationSignal
    else if w.wake.Signalled? then Some(w.wake.signal) else terminationSignal
  }

  predicate Mentions(trace: seq<ExitEvent>, name: string) {
    exists k :: 0 <= k < |trace| && trace[k].name == name
  }

  lemma MentionsSnoc(trace: seq<ExitEvent>, e: ExitEvent)
    ensures forall name :: Mentions(trace + [e], name) <==> Mentions(trace, name) || name == e.name
  {
    assert (trace + [e])[|trace|] == e;
    forall name | Mentions(trace, name) ensures Mentions(trace + [e], name) {
      var k :| 0 <= k < |trace| && trace[k].name == name;
      assert (trace + [e])[k].name == name;
    }
  }

  function PoolOf(members: seq<string>, n: nat): map<string, nat>
    requires n <= |members|
  {
    if n == 0 then map[] else PoolOf(members, n - 1)[members[n-1] := n - 1]
  }

  lemma {:induction false} PoolIs(members: seq<string>, n: nat)
    requires Distinct(members) && n <= |members|
    ensures |PoolOf(members, n)| == n
    ensures forall i :: 0 <= i < |members| ==> (members[i] in PoolOf(members, n) <==> i < n)
  {
    if n > 0 {
      PoolIs(members, n - 1);
    }
  }
}
