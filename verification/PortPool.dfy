/**
  * The pool of host ports and the container side of it: a queue of free ports shared by every container,
  * and the forwarding request that takes a port from it. Arithmetic on ports wraps at 32 bits.
  */
module PortPool {
  import opened Wrappers
  import opened Sequences

  const LIMIT := 0x1_0000_0000

  type Word = x: int | 0 <= x < LIMIT

  function Plus(a: Word, b: Word): Word {
    (a + b) % LIMIT
  }

  /** The ports lo, lo + 1, ..., hi - 1; none when hi does not exceed lo. */
  function Ports(lo: Word, hi: Word): seq<Word>
    decreases hi - lo
  {
    if lo < hi then [lo] + Ports(lo + 1, hi) else []
  }

  /**
    * The queue of free ports, first to be issued first. `held` is the account of a bystander: the ports
    * issued and not yet released.
    */
  datatype State = State(start: Word, size: Word, free: seq<Word>, held: set<Word>) {
    predicate InRange(p: Word) {
      start <= p < Plus(start, size)
    }

    function Capacity(): nat {
      if start < Plus(start, size) then Plus(start, size) - start else 0
    }
  }

  function Init(start: Word, size: Word): State {
    State(start, size, Ports(start, Plus(start, size)), {})
  }

  /** NetIn's last two parts: what it asks for inside the container, and whether the chain accepts the rule. */
  datatype Event = Acquire | Remove(port: Word) | Release(port: Word)
      | NetIn(host: Word, container: Word, accepted: bool)

  /** The port that an event takes out of the pool. */
  function Issued(s: State, e: Event): Option<Word> {
    match e
    case Acquire => if s.free == [] then None else Some(s.free[0])
    case NetIn(host, _, _) => if host != 0 || s.free == [] then None else Some(s.free[0])
    case Remove(p) => if p in s.free then Some(p) else None
    case Release(_) => None
  }

  function Without(free: seq<Word>, p: Word): seq<Word> {
    if free == [] then [] else if free[0] == p then free[1..] else [free[0]] + Without(free[1..], p)
  }

  function Step(s: State, e: Event): State {
    if e.Release? then
      if s.InRange(e.port) && e.port !in s.free then s.(free := s.free + [e.port], held := s.held - {e.port}) else s
    else match Issued(s, e)
      case None => s
      case Some(p) => s.(free := Without(s.free, p), held := s.held + {p})
  }

  function Run(s: State, events: seq<Event>): State {
    if events == [] then s else Step(Run(s, events[..|events| - 1]), events[|events| - 1])
  }

  // ---- Conservation -------------------------------------------------------------------------------

  /** Every port of the range is free or held, never both; none is listed twice; none is from outside. */
  ghost predicate Conserved(s: State) {
    && Distinct(s.free)
    && (forall p: Word :: p in s.free <==> s.InRange(p) && p !in s.held)
    && (forall p: Word :: p in s.held ==> s.InRange(p))
    && |s.free| + |s.held| == s.Capacity()
  }

  lemma {:induction false} PortsAre(lo: Word, hi: Word)
    ensures |Ports(lo, hi)| == if lo < hi then hi - lo else 0
    ensures forall k :: 0 <= k < |Ports(lo, hi)| ==> Ports(lo, hi)[k] == lo + k
    decreases hi - lo
  {
    if lo < hi {
      PortsAre(lo + 1, hi);
    }
  }

  lemma InitConserved(start: Word, size: Word)
    ensures Conserved(Init(start, size))
  {
    var s := Init(start, size);
    PortsAre(start, Plus(start, size));
    forall p: Word ensures p in s.free <==> s.InRange(p) {
      if s.InRange(p) {
        assert s.free[p - start] == p;
      }
    }
  }

  /** The first occurrence of `p` is at `i`: dropping it keeps everything else in order. */
  lemma {:induction false} WithoutIs(free: seq<Word>, p: Word, i: nat)
    requires i < |free| && free[i] == p && p !in free[..i]
    ensures Without(free, p) == free[..i] + free[i + 1..]
  {
    if free[0] != p {
      assert free[1..][..i - 1] == free[..i][1..];
      WithoutIs(free[1..], p, i - 1);
      assert Without(free, p) == [free[0]] + (free[1..][..i - 1] + free[1..][i..]);
      assert [free[0]] + free[1..][..i - 1] == free[..i];
    }
  }

  function Position(free: seq<Word>, p: Word): (i: nat)
    requires p in free
    ensures i < |free| && free[i] == p && p !in free[..i]
  {
    if free[0] == p then 0 else
    var i := Position(free[1..], p);
    assert free[..i + 1] == [free[0]] + free[1..][..i];
    i + 1
  }

  lemma WithoutDistinct(free: seq<Word>, p: Word)
    requires Distinct(free) && p in free
    ensures Distinct(Without(free, p)) && |Without(free, p)| == |free| - 1
    ensures forall q: Word :: q in Without(free, p) <==> q in free && q != p
  {
    var i := Position(free, p);
    var rest := free[..i] + free[i + 1..];
    WithoutIs(free, p, i);
    forall q: Word ensures q in rest <==> q in free && q != p {
      if q in free && q != p {
        var k :| 0 <= k < |free| && free[k] == q;
        assert rest[if k < i then k else k - 1] == q;
      }
    }
  }

  lemma IssueConserved(s: State, p: Word)
    requires Conserved(s) && p in s.free
    ensures Conserved(s.(free := Without(s.free, p), held := s.held + {p}))
  {
    WithoutDistinct(s.free, p);
    assert s.InRange(p) && p !in s.held;
  }

  lemma ReturnConserved(s: State, p: Word)
    requires Conserved(s) && s.InRange(p) && p !in s.free
    ensures Conserved(s.(free := s.free + [p], held := s.held - {p}))
  {
    assert p in s.held;
    var free := s.free + [p];
    assert forall q: Word :: q in free <==> q in s.free || q == p;
  }

  lemma StepConserved(s: State, e: Event)
    requires Conserved(s)
    ensures Conserved(Step(s, e))
  {
    if e.Release? {
      if s.InRange(e.port) && e.port !in s.free {
        ReturnConserved(s, e.port);
      }
    } else if Issued(s, e).Some? {
      IssueConserved(s, Issued(s, e).value);
    }
  }

  lemma {:induction false} RunConserved(s: State, events: seq<Event>)
    requires Conserved(s)
    ensures Conserved(Run(s, events)) && Run(s, events).start == s.start && Run(s, events).size == s.size
  {
    if events != [] {
      RunConserved(s, events[..|events| - 1]);
      StepConserved(Run(s, events[..|events| - 1]), events[|events| - 1]);
    }
  }

  /**
    * Conservation over every run from a new pool, whatever its parameters: each port of the range is free
    * exactly once or held, and an acquisition fails exactly when all of them are held.
    */
  lemma PoolIsConserved(start: Word, size: Word, events: seq<Event>)
    ensures Conserved(Run(Init(start, size), events))
    ensures var s := Run(Init(start, size), events);
      Issued(s, Acquire).None? <==> forall p: Word :: start <= p < Plus(start, size) ==> p in s.held
  {
    InitConserved(start, size);
    RunConserved(Init(start, size), events);
    EmptyWhenAllHeld(Run(Init(start, size), events));
  }

  lemma EmptyWhenAllHeld(s: State)
    requires Conserved(s)
    ensures s.free == [] <==> forall p: Word :: s.InRange(p) ==> p in s.held
  {
    if s.free == [] {
      forall p: Word | s.InRange(p) ensures p in s.held {
        assert p !in s.free;
      }
    } else {
      assert s.free[0] in s.free;
    }
  }

  /** The pool hands out the ports it was asked to manage exactly when their end fits in 32 bits. */
  lemma RangeIsIntended(start: Word, size: Word)
    ensures (forall p: Word :: p in Init(start, size).free <==> start <= p < start + size)
      <==> start + size < LIMIT || size == 0
    ensures !(start + size < LIMIT || size == 0) ==> Init(start, size).free == []
  {
    InitConserved(start, size);
    var s := Init(start, size);
    if start + size < LIMIT || size == 0 {
      forall p: Word ensures p in s.free <==> start <= p < start + size {
        assert p in s.free <==> s.InRange(p);
      }
    } else {
      assert Plus(start, size) == start + size - LIMIT;
      assert start !in s.free;
    }
  }

  /** A pool whose end wraps never has a port to give, whatever is removed from it or released to it. */
  lemma WrappedPoolStaysEmpty(start: Word, size: Word, events: seq<Event>)
    requires start + size >= LIMIT
    ensures Run(Init(start, size), events).free == []
  {
    PoolIsConserved(start, size, events);
    var s := Run(Init(start, size), events);
    RunConserved(Init(start, size), events) by { InitConserved(start, size); }
    assert Plus(start, size) == start + size - LIMIT;
  }

  // ---- Order of reissue ---------------------------------------------------------------------------

  /** `q` is in the queue in front of `p`. */
  ghost predicate Before(free: seq<Word>, q: Word, p: Word) {
    exists i, j :: 0 <= i < j < |free| && free[i] == q && free[j] == p
  }

  /** `p` is free at every moment of the run. */
  ghost predicate Kept(s: State, events: seq<Event>, p: Word) {
    forall n :: 0 <= n <= |events| ==> p in Run(s, events[..n]).free
  }

  lemma DropKeepsOrder(free: seq<Word>, k: nat, q: Word, p: Word)
    requires k < |free|
    ensures Before(free[..k] + free[k + 1..], q, p) ==> Before(free, q, p)
    ensures Before(free, q, p) && free[k] != q && free[k] != p ==> Before(free[..k] + free[k + 1..], q, p)
  {
    var rest := free[..k] + free[k + 1..];
    if Before(rest, q, p) {
      var i, j :| 0 <= i < j < |rest| && rest[i] == q && rest[j] == p;
      assert free[if i < k then i else i + 1] == q && free[if j < k then j else j + 1] == p;
    }
    if Before(free, q, p) && free[k] != q && free[k] != p {
      var i, j :| 0 <= i < j < |free| && free[i] == q && free[j] == p;
      assert rest[if i < k then i else i - 1] == q && rest[if j < k then j else j - 1] == p;
    }
  }

  lemma StepKeepsOrder(s: State, e: Event, q: Word, p: Word)
    requires Conserved(s) && p in s.free && p in Step(s, e).free
    requires Before(Step(s, e).free, q, p)
    ensures Before(s.free, q, p)
  {
    var after := Step(s, e).free;
    var i, j :| 0 <= i < j < |after| && after[i] == q && after[j] == p;
    if e.Release? {
      if after != s.free {
        assert j < |s.free|;
        assert s.free[i] == q && s.free[j] == p;
      }
    } else if Issued(s, e).Some? {
      var gone := Issued(s, e).value;
      var k := Position(s.free, gone);
      WithoutIs(s.free, gone, k);
      DropKeepsOrder(s.free, k, q, p);
    }
  }

  /** Nothing overtakes a port that stays in the queue. */
  lemma {:induction false} NothingOvertakes(s: State, events: seq<Event>, q: Word, p: Word)
    requires Conserved(s) && Kept(s, events, p)
    requires Before(Run(s, events).free, q, p)
    ensures Before(s.free, q, p)
    decreases |events|
  {
    if events != [] {
      var n := |events| - 1;
      var init := events[..n];
      assert events[..|events|] == events;
      assert p in Run(s, init).free && p in Run(s, events).free;
      RunConserved(s, init);
      StepKeepsOrder(Run(s, init), events[n], q, p);
      KeptPrefix(s, events, p, n);
      NothingOvertakes(s, init, q, p);
    }
  }

  lemma KeptPrefix(s: State, events: seq<Event>, p: Word, n: nat)
    requires Kept(s, events, p) && n <= |events|
    ensures Kept(s, events[..n], p)
  {
    forall m | 0 <= m <= n ensures p in Run(s, events[..n][..m]).free {
      assert events[..n][..m] == events[..m];
    }
  }

  /** The event that takes `q` out of the pool. */
  ghost predicate Leaves(s: State, events: seq<Event>, n: nat, q: Word)
    requires n < |events|
  {
    Issued(Run(s, events[..n]), events[n]) == Some(q)
  }

  lemma {:induction false} GoneHasLeft(s: State, events: seq<Event>, q: Word) returns (n: nat)
    requires Conserved(s) && q in s.free && q !in Run(s, events).free
    ensures n < |events| && Leaves(s, events, n, q)
  {
    assert events != [];
    n := |events| - 1;
    var init := events[..n];
    if q in Run(s, init).free {
      RunConserved(s, init);
      GoneNow(Run(s, init), events[n], q);
    } else {
      n := GoneHasLeft(s, init, q);
      assert init[..n] == events[..n];
    }
  }

  lemma GoneNow(s: State, e: Event, q: Word)
    requires Conserved(s) && q in s.free && q !in Step(s, e).free
    ensures Issued(s, e) == Some(q)
  {
    if Issued(s, e).Some? {
      WithoutDistinct(s.free, Issued(s, e).value);
    }
  }

  lemma StepKeepsPlace(s: State, e: Event, q: Word, p: Word)
    requires Conserved(s) && Before(s.free, q, p)
    requires p in Step(s, e).free && Issued(s, e) != Some(q)
    ensures Before(Step(s, e).free, q, p)
  {
    var after := Step(s, e).free;
    var i, j :| 0 <= i < j < |s.free| && s.free[i] == q && s.free[j] == p;
    if e.Release? {
      assert after[i] == q && after[j] == p;
    } else if Issued(s, e).Some? {
      var gone := Issued(s, e).value;
      var k := Position(s.free, gone);
      WithoutIs(s.free, gone, k);
      assert gone != p by { WithoutDistinct(s.free, gone); }
      DropKeepsOrder(s.free, k, q, p);
    }
  }

  /** A port ahead of one that stays in the queue either is ahead of it still or has been issued meanwhile. */
  lemma {:induction false} AheadUntilIssued(s: State, events: seq<Event>, q: Word, p: Word) returns (n: nat)
    requires Conserved(s) && Kept(s, events, p) && Before(s.free, q, p)
    ensures Before(Run(s, events).free, q, p) || (n < |events| && Leaves(s, events, n, q))
    decreases |events|
  {
    n := 0;
    if events != [] {
      var m := |events| - 1;
      var init := events[..m];
      assert events[..|events|] == events;
      KeptPrefix(s, events, p, m);
      n := AheadUntilIssued(s, init, q, p);
      if n < m && Leaves(s, init, n, q) {
        assert init[..n] == events[..n];
      } else if Issued(Run(s, init), events[m]) == Some(q) {
        n := m;
      } else {
        RunConserved(s, init);
        StepKeepsPlace(Run(s, init), events[m], q, p);
      }
    }
  }

  /**
    * First in, first out: a port that has just been released is issued again by an acquisition only after
    * every port that was free at the time of the release has been taken out of the pool.
    */
  lemma ReissuedLast(s: State, p: Word, events: seq<Event>, q: Word) returns (n: nat)
    requires Conserved(s) && s.InRange(p) && p !in s.free && q in s.free
    requires Kept(Step(s, Release(p)), events, p)
    requires Issued(Run(Step(s, Release(p)), events), Acquire) == Some(p)
    ensures n < |events| && Leaves(Step(s, Release(p)), events, n, q)
  {
    var t := Step(s, Release(p));
    StepConserved(s, Release(p));
    var i :| 0 <= i < |s.free| && s.free[i] == q;
    assert t.free[i] == q && t.free[|s.free|] == p;
    n := AheadUntilIssued(t, events, q, p);
    RunConserved(t, events);
  }

  // ---- No port is issued twice --------------------------------------------------------------------

  lemma {:induction false} RunSplit(s: State, events: seq<Event>, n: nat)
    requires n <= |events|
    ensures Run(Run(s, events[..n]), events[n..]) == Run(s, events)
    decreases |events|
  {
    if n < |events| {
      var m := |events| - 1;
      RunSplit(s, events[..m], n);
      assert events[..m][..n] == events[..n];
      assert events[..m][n..] == events[n..][..m - n];
    } else {
      assert events[..n] == events;
    }
  }

  lemma {:induction false} HeldUntilReleased(s: State, events: seq<Event>, p: Word)
    requires Conserved(s) && p in s.held && Release(p) !in events
    ensures p in Run(s, events).held
  {
    if events != [] {
      var m := |events| - 1;
      assert events[m] in events;
      HeldUntilReleased(s, events[..m], p);
    }
  }

  /**
    * Whoever the events come from, a port issued at one moment is issued again later only if it was released
    * in between. Forwarding requests never release one, not even when the chain refuses the rule, so the
    * host ports they take from a shared pool are pairwise distinct.
    */
  lemma IssuedOnce(start: Word, size: Word, events: seq<Event>, i: nat, j: nat, p: Word)
    requires i < j < |events|
    requires Leaves(Init(start, size), events, i, p) && Leaves(Init(start, size), events, j, p)
    ensures exists k :: i < k < j && events[k] == Release(p)
  {
    var s := Init(start, size);
    InitConserved(start, size);
    RunConserved(s, events[..i + 1]);
    HeldAfterIssue(s, events, i, p);
    assert p in Run(s, events[..j]).free && p !in Run(s, events[..j]).held by { RunConserved(s, events[..j]); }
    var between := events[i + 1..j];
    SplitBetween(s, events, i + 1, j);
    if Release(p) !in between {
      HeldUntilReleased(Run(s, events[..i + 1]), between, p);
      assert false;
    }
    var k :| 0 <= k < |between| && between[k] == Release(p);
    assert events[k + i + 1] == Release(p);
  }

  /**
    * A free port that is removed is not free again before it is released; the others stay, in their order.
    * Removing any other port changes nothing.
    */
  lemma RemovedUntilReleased(start: Word, size: Word, events: seq<Event>, more: seq<Event>, p: Word)
    requires Release(p) !in more
    ensures var s := Init(start, size);
      p in Run(s, events).free ==>
        && p !in Run(s, events + [Remove(p)] + more).free
        && Run(s, events + [Remove(p)]).free == Without(Run(s, events).free, p)
    ensures var s := Init(start, size); p !in Run(s, events).free ==> Run(s, events + [Remove(p)]) == Run(s, events)
  {
    var s := Init(start, size);
    var removed := events + [Remove(p)];
    assert removed[..|events|] == events;
    if p in Run(s, events).free {
      InitConserved(start, size);
      RunConserved(s, removed);
      HeldUntilReleased(Run(s, removed), more, p);
      RunSplit(s, removed + more, |removed|);
      assert (removed + more)[..|removed|] == removed && (removed + more)[|removed|..] == more;
      RunConserved(s, removed + more);
    }
  }

  lemma HeldAfterIssue(s: State, events: seq<Event>, i: nat, p: Word)
    requires i < |events| && Leaves(s, events, i, p)
    ensures p in Run(s, events[..i + 1]).held
  {
    assert events[..i + 1][..i] == events[..i];
  }

  lemma SplitBetween(s: State, events: seq<Event>, i: nat, j: nat)
    requires i <= j <= |events|
    ensures Run(s, events[..j]) == Run(Run(s, events[..i]), events[i..j])
  {
    RunSplit(s, events[..j], i);
    assert events[..j][..i] == events[..i];
    assert events[..j][i..] == events[i..j];
  }

  // ---- The pool and the forwarding request --------------------------------------------------------

  class PortPool {
    const start: Word
    const size: Word
    var free: seq<Word>
    ghost var held: set<Word>

    ghost function View(): State
      reads this
    {
      State(start, size, free, held)
    }

    ghost predicate Valid()
      reads this
    {
      Conserved(View())
    }

    constructor (start: Word, size: Word)
      ensures Valid() && View() == Init(start, size)
    {
      var end := Plus(start, size);
      var pool, i := [], start;
      while i < end
        invariant start <= i && (start <= end ==> i <= end)
        invariant pool + Ports(i, end) == Ports(start, end)
      {
        pool := pool + [i];
        i := i + 1;
      }
      this.start, this.size := start, size;
      free := pool;
      held := {};
      InitConserved(start, size);
      new;
      assert View() == Init(start, size);
    }

    method Acquire() returns (port: Option<Word>)
      requires Valid()
      modifies this
      ensures Valid() && View() == Step(old(View()), Event.Acquire)
      ensures port == Issued(old(View()), Event.Acquire)
    {
      StepConserved(View(), Event.Acquire);
      if |free| == 0 {
        return None;
      }
      port := Some(free[0]);
      free := free[1..];
      held := held + {port.value};
    }

    /** Fails exactly on a port that is held or not of this pool. */
    method Remove(port: Word) returns (ok: bool)
      requires Valid()
      modifies this
      ensures Valid() && View() == Step(old(View()), Event.Remove(port))
      ensures ok <==> old(View()).InRange(port) && port !in old(held)
      ensures ok ==> held == old(held) + {port}
      ensures !ok ==> View() == old(View())
    {
      StepConserved(View(), Event.Remove(port));
      var idx, found, i := 0, false, 0;
      while i < |free|
        invariant 0 <= i <= |free|
        invariant !found && port !in free[..i]
      {
        if free[i] == port {
          idx := i;
          found := true;
          break;
        }
        i := i + 1;
      }
      if !found {
        assert free[..|free|] == free;
        return false;
      }
      WithoutIs(free, port, idx);
      free := free[..idx] + free[idx + 1..];
      held := held + {port};
      return true;
    }

    /** A port that is free already, or not of this pool, is ignored. */
    method Release(port: Word)
      requires Valid()
      modifies this
      ensures Valid() && View() == Step(old(View()), Event.Release(port))
      ensures held == old(held) - {port}
    {
      StepConserved(View(), Event.Release(port));
      if port < start || port >= Plus(start, size) {
        return;
      }
      var i := 0;
      while i < |free|
        invariant 0 <= i <= |free|
        invariant port !in free[..i]
      {
        if free[i] == port {
          return;
        }
        i := i + 1;
      }
      assert free[..|free|] == free;
      free := free + [port];
      held := held - {port};
    }
  }

  datatype Rule = Rule(host: Word, ip: string, container: Word)

  /** The chain of forwarding rules; whether it takes a rule is not this program's choice. */
  class Chain {
    var rules: seq<Rule>

    constructor ()
      ensures rules == []
    {
      rules := [];
    }

    method Forward(rule: Rule, accepted: bool) returns (ok: bool)
      modifies this
      ensures ok == accepted && rules == if ok then old(rules) + [rule] else old(rules)
    {
      ok := accepted;
      if ok {
        rules := rules + [rule];
      }
    }
  }

  datatype Reply = Mapped(host: Word, container: Word) | NoPort | Refused(host: Word, container: Word)

  /** The rule that a request asks of the chain: a missing host port comes from the pool, a missing container port is
      the host port. */
  function Asked(s: State, ip: string, host: Word, container: Word): Option<Rule> {
    var port := if host != 0 then Some(host) else Issued(s, Acquire);
    if port.None? then None
    else Some(Rule(port.value, ip, if container != 0 then container else port.value))
  }

  function Answer(s: State, ip: string, host: Word, container: Word, accepted: bool): Reply {
    match Asked(s, ip, host, container)
    case None => NoPort
    case Some(rule) => if accepted then Mapped(0, 0) else Refused(rule.host, rule.container)
  }

  /**
    * The interface promises that the two resulting ports are returned. The reply to a rule that was installed
    * names its ports exactly when nothing was asked for and the port at the head of the pool is port 0.
    */
  lemma ReplyNamesPorts(s: State, ip: string, host: Word, container: Word)
    requires Asked(s, ip, host, container).Some?
    ensures var rule := Asked(s, ip, host, container).value;
      Answer(s, ip, host, container, true) == Mapped(rule.host, rule.container)
      <==> host == 0 && container == 0 && s.free[0] == 0
  {
  }

  /** A refused request leaves the pool as it was if and only if it named a host port or found the pool empty:
      otherwise the port it took is lost until somebody releases it. */
  lemma RefusedRequestLeaks(s: State, host: Word, container: Word)
    ensures Step(s, NetIn(host, container, false)) == s <==> host != 0 || s.free == []
    ensures host == 0 && s.free != [] ==> s.free[0] in Step(s, NetIn(host, container, false)).held
  {
    if host == 0 && s.free != [] {
      WithoutIs(s.free, s.free[0], 0);
      assert |Step(s, NetIn(host, container, false)).free| == |s.free| - 1;
    }
  }

  lemma NetInTakes(s: State, ip: string, host: Word, container: Word, accepted: bool)
    ensures Step(s, NetIn(host, container, accepted)) == if host == 0 then Step(s, Acquire) else s
    ensures Issued(s, Acquire).None? ==> Step(s, Acquire) == s
    ensures Asked(s, ip, host, container) ==
      var port := if host == 0 then Issued(s, Acquire) else Some(host);
      if port.None? then None else Some(Rule(port.value, ip, if container == 0 then port.value else container))
  {
  }

  class NetHandler {
    const containerIP: string
    const chain: Chain
    const pool: PortPool

    constructor (containerIP: string, chain: Chain, pool: PortPool)
      ensures this.containerIP == containerIP && this.chain == chain && this.pool == pool
    {
      this.containerIP, this.chain, this.pool := containerIP, chain, pool;
    }

    /** A port taken from the pool stays held when the chain then refuses the rule. */
    method NetIn(hostPort: Word, containerPort: Word, accepted: bool) returns (reply: Reply)
      requires pool.Valid()
      modifies pool, chain
      ensures pool.Valid() && pool.View() == Step(old(pool.View()), Event.NetIn(hostPort, containerPort, accepted))
      ensures reply == Answer(old(pool.View()), containerIP, hostPort, containerPort, accepted)
      ensures var rule := Asked(old(pool.View()), containerIP, hostPort, containerPort);
        chain.rules == if accepted && rule.Some? then old(chain.rules) + [rule.value] else old(chain.rules)
    {
      ghost var before := pool.View();
      NetInTakes(before, containerIP, hostPort, containerPort, accepted);
      var host, container := hostPort, containerPort;
      if host == 0 {
        var port := pool.Acquire();
        if port.None? {
          return NoPort;
        }
        host := port.value;
      }
      if container == 0 {
        container := host;
      }
      var ok := chain.Forward(Rule(host, containerIP, container), accepted);
      return if ok then Mapped(0, 0) else Refused(host, container);
    }
  }
}
