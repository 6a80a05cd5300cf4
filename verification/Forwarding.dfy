/** The forwarding rules that requests install over a shared pool: when no two of them share a host port. */
module Forwarding {
  import opened Wrappers
  import opened Sequences
  import opened PortPool

  /** The pool, and the host ports of the rules installed so far. */
  datatype Net = Net(pool: State, hosts: seq<Word>)

  /** The host port of the rule that an event installs. */
  function Installed(n: Net, e: Event): Option<Word> {
    if e.NetIn? && e.accepted then if e.host != 0 then Some(e.host) else Issued(n.pool, e) else None
  }

  function NetStep(n: Net, e: Event): Net {
    var port := Installed(n, e);
    Net(Step(n.pool, e), if port.Some? then n.hosts + [port.value] else n.hosts)
  }

  function NetRun(n: Net, events: seq<Event>): Net
    decreases |events|
  {
    if events == [] then n else NetRun(NetStep(n, events[0]), events[1..])
  }

  /** It is the rule that the request asks of the chain. */
  lemma InstalledIsAsked(n: Net, ip: string, host: Word, container: Word, accepted: bool)
    ensures var rule := Asked(n.pool, ip, host, container);
      Installed(n, NetIn(host, container, accepted)) == if accepted && rule.Some? then Some(rule.value.host) else None
  {
  }

  /** What keeps host ports apart: a request names a host port only if no rule has it and the pool cannot issue it,
      and a port of the pool is released only when no rule has it. */
  predicate Fits(n: Net, e: Event) {
    match e
    case NetIn(host, _, accepted) => accepted && host != 0 ==> host !in n.hosts && host !in n.pool.free
    case Release(p) => n.pool.InRange(p) ==> p !in n.hosts
    case _ => true
  }

  predicate Careful(n: Net, events: seq<Event>)
    decreases |events|
  {
    events == [] || (Fits(n, events[0]) && Careful(NetStep(n, events[0]), events[1..]))
  }

  /** The rules have different host ports, and none that the pool could issue. */
  ghost predicate Apart(n: Net) {
    Conserved(n.pool) && Distinct(n.hosts) && forall p: Word :: p in n.hosts ==> p !in n.pool.free
  }

  /** What an event adds to the free ports: a port that is released. */
  lemma FreeAfter(s: State, e: Event, p: Word)
    requires Conserved(s)
    ensures p in Step(s, e).free ==> p in s.free || (e == Release(p) && s.InRange(p))
    ensures Issued(s, e) == Some(p) ==> p in s.free && p !in Step(s, e).free
  {
    if Issued(s, e).Some? {
      WithoutDistinct(s.free, Issued(s, e).value);
    }
  }

  lemma FitsKeepsApart(n: Net, e: Event)
    requires Apart(n) && Fits(n, e)
    ensures Apart(NetStep(n, e))
  {
    var t := NetStep(n, e);
    StepConserved(n.pool, e);
    forall p: Word | p in t.hosts ensures p !in t.pool.free {
      FreeAfter(n.pool, e, p);
    }
    if Installed(n, e).Some? {
      FreeAfter(n.pool, e, Installed(n, e).value);
      DistinctSnoc(n.hosts, Installed(n, e).value);
    }
  }

  lemma {:induction false} CarefulIsDistinct(n: Net, events: seq<Event>)
    requires Apart(n) && Careful(n, events)
    ensures Distinct(NetRun(n, events).hosts)
    decreases |events|
  {
    if events != [] {
      FitsKeepsApart(n, events[0]);
      CarefulIsDistinct(NetStep(n, events[0]), events[1..]);
    }
  }

  lemma Cons(n: Net, e: Event, rest: seq<Event>)
    ensures NetRun(n, [e] + rest) == NetRun(NetStep(n, e), rest)
    ensures Fits(n, e) && Careful(NetStep(n, e), rest) ==> Careful(n, [e] + rest)
  {
    assert ([e] + rest)[1..] == rest;
  }

  lemma Twice(hosts: seq<Word>, p: Word)
    requires p in hosts
    ensures !Distinct(hosts + [p])
  {
    var i :| 0 <= i < |hosts| && hosts[i] == p;
    assert (hosts + [p])[i] == (hosts + [p])[|hosts|];
  }

  lemma AcquireTakesFirst(n: Net)
    requires n.pool.free != []
    ensures NetStep(n, Acquire) == Net(Step(n.pool, Acquire), n.hosts)
    ensures Step(n.pool, Acquire).free == n.pool.free[1..]
  {
    WithoutIs(n.pool.free, n.pool.free[0], 0);
  }

  lemma FirstIsShared(n: Net, p: Word)
    requires p in n.hosts && n.pool.free != [] && n.pool.free[0] == p
    ensures !Distinct(NetStep(n, NetIn(0, 0, true)).hosts)
  {
    Twice(n.hosts, p);
  }

  /** A port that a rule has and the pool still holds free will be issued to a second rule. */
  lemma {:induction false} Drain(n: Net, p: Word) returns (more: seq<Event>)
    requires p in n.hosts && p in n.pool.free
    ensures Careful(n, more) && !Distinct(NetRun(n, more).hosts)
    decreases |n.pool.free|
  {
    if n.pool.free[0] == p {
      FirstIsShared(n, p);
      Cons(n, NetIn(0, 0, true), []);
      more := [NetIn(0, 0, true)] + [];
    } else {
      AcquireTakesFirst(n);
      var rest := Drain(NetStep(n, Acquire), p);
      Cons(n, Acquire, rest);
      more := [Acquire] + rest;
    }
  }

  /** After a breach, events that keep to the rule lead to two rules with one host port. */
  lemma BreachIsShared(n: Net, e: Event) returns (more: seq<Event>)
    requires Apart(n) && !Fits(n, e)
    ensures Careful(NetStep(n, e), more) && !Distinct(NetRun(NetStep(n, e), more).hosts)
  {
    var t := NetStep(n, e);
    if e.NetIn? && e.host in n.hosts {
      Twice(n.hosts, e.host);
      more := [];
    } else {
      var p := if e.NetIn? then e.host else e.port;
      assert p in t.hosts && p in t.pool.free;
      more := Drain(t, p);
    }
  }

  /** The host ports of the rules are pairwise distinct at every point of a run, and after it as long as what follows
      keeps to the rule, if and only if the run keeps to it. */
  lemma {:induction false} DistinctHostsExactly(n: Net, events: seq<Event>)
    requires Apart(n)
    ensures Careful(n, events) <==>
      forall before, more :: before <= events && Careful(NetRun(n, before), more) ==>
        Distinct(NetRun(NetRun(n, before), more).hosts)
    decreases |events|
  {
    if Careful(n, events) {
      forall before, more | before <= events && Careful(NetRun(n, before), more)
        ensures Distinct(NetRun(NetRun(n, before), more).hosts)
      {
        PrefixStaysApart(n, events, before);
        CarefulIsDistinct(NetRun(n, before), more);
      }
    } else {
      var before, more := SharedSomewhere(n, events);
    }
  }

  lemma {:induction false} PrefixStaysApart(n: Net, events: seq<Event>, before: seq<Event>)
    requires Apart(n) && Careful(n, events) && before <= events
    ensures Apart(NetRun(n, before))
    decreases |events|
  {
    if before != [] {
      FitsKeepsApart(n, events[0]);
      PrefixStaysApart(NetStep(n, events[0]), events[1..], before[1..]);
    }
  }

  lemma {:induction false} SharedSomewhere(n: Net, events: seq<Event>) returns (before: seq<Event>, more: seq<Event>)
    requires Apart(n) && !Careful(n, events)
    ensures before <= events && Careful(NetRun(n, before), more) && !Distinct(NetRun(NetRun(n, before), more).hosts)
    decreases |events|
  {
    var e, t := events[0], NetStep(n, events[0]);
    if Fits(n, e) {
      FitsKeepsApart(n, e);
      before, more := SharedSomewhere(t, events[1..]);
      Cons(n, e, before);
      before := [e] + before;
    } else {
      more := BreachIsShared(n, e);
      Cons(n, e, []);
      before := [e] + [];
    }
  }

  lemma NewIsApart(start: Word, size: Word)
    ensures Apart(Net(Init(start, size), []))
  {
    InitConserved(start, size);
  }

  const SHARED := [NetIn(10, 80, true), NetIn(0, 0, true)]

  /** A request that names a port of the pool does not take it out: the next one that asks for any port gets it. */
  lemma NamedPortIsShared(n: Net)
    requires n == Net(Init(10, 3), [])
    ensures !Careful(n, SHARED) && NetRun(n, SHARED).hosts == [10, 10]
  {
    PortsAre(10, 13);
    assert n.pool.free[0] == 10;
    var t := NetStep(n, SHARED[0]);
    assert t == Net(n.pool, [10]);
    assert SHARED[1..] == [NetIn(0, 0, true)] && SHARED[1..][1..] == [];
    assert NetStep(t, NetIn(0, 0, true)).hosts == [10, 10];
  }
}
