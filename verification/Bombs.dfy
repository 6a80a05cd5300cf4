/** Grace-time bombs: a timer per container that is held while requests use the container. */
module Bombs {

  /** The timer a bomb refers to: none, one that will go off, or one that has. */
  datatype Timer = NoTimer | Pending | Fired

  /** `armed` counts the timers this bomb has started that were neither stopped nor have gone off. */
  datatype Bomb = Bomb(pauses: int, defused: bool, timer: Timer, armed: int)

  // ------------------------------------------------------------- one bomb

  function Fresh(): Bomb {
    Bomb(0, false, NoTimer, 0)
  }

  function Arm(b: Bomb): Bomb {
    b.(timer := Pending, armed := b.armed + 1)
  }

  /** Letting go of the timer and stopping it. */
  function Drop(b: Bomb): Bomb {
    b.(timer := NoTimer, armed := if b.timer == Pending then b.armed - 1 else b.armed)
  }

  function Paused(b: Bomb): Bomb {
    Drop(b).(pauses := b.pauses + 1)
  }

  function Unpaused(b: Bomb): Bomb {
    var b := b.(pauses := b.pauses - 1);
    if !b.defused && b.pauses == 0 then Arm(b) else b
  }

  function Defused(b: Bomb): Bomb {
    Drop(b).(defused := true)
  }

  function GoneOff(b: Bomb): Bomb {
    b.(timer := Fired, armed := b.armed - 1)
  }

  class TimeBomb {
    var pauses: int
    var defused: bool
    var timer: Timer
    ghost var armed: int

    ghost function View(): Bomb
      reads this
    {
      Bomb(pauses, defused, timer, armed)
    }

    constructor ()
      ensures View() == Fresh()
    {
      pauses, defused, timer, armed := 0, false, NoTimer, 0;
    }

    method Strap()
      modifies this
      ensures View() == Arm(old(View()))
    {
      timer, armed := Pending, armed + 1;
    }

    /** False when the timer could no longer be stopped. */
    method Pause() returns (ok: bool)
      modifies this
      ensures View() == Paused(old(View()))
      ensures ok <==> old(timer) != Fired
    {
      var held := timer;
      timer := NoTimer;
      pauses := pauses + 1;
      if held == NoTimer {
        return true;
      }
      ok := Stop(held);
    }

    method Defuse() returns (ok: bool)
      modifies this
      ensures View() == Defused(old(View()))
      ensures ok <==> old(timer) != Fired
    {
      defused := true;
      var held := timer;
      timer := NoTimer;
      if held == NoTimer {
        return true;
      }
      ok := Stop(held);
    }

    method Unpause()
      modifies this
      ensures View() == Unpaused(old(View()))
    {
      pauses := pauses - 1;
      if !defused && pauses == 0 {
        timer, armed := Pending, armed + 1;
      }
    }

    /** Stopping a timer succeeds unless it has gone off. */
    method Stop(held: Timer) returns (stopped: bool)
      modifies this`armed
      ensures stopped <==> held == Pending
      ensures armed == if stopped then old(armed) - 1 else old(armed)
    {
      stopped := held == Pending;
      if stopped {
        armed := armed - 1;
      }
    }

    /** The timer goes off by itself. */
    method GoOff()
      requires timer == Pending
      modifies this
      ensures View() == GoneOff(old(View()))
    {
      timer, armed := Fired, armed - 1;
    }
  }

  datatype Op = DoPause | DoUnpause | DoDefuse | DoGoOff

  function Apply(b: Bomb, op: Op): Bomb {
    match op
    case DoPause => Paused(b)
    case DoUnpause => Unpaused(b)
    case DoDefuse => Defused(b)
    case DoGoOff => if b.timer == Pending then GoneOff(b) else b
  }

  function ApplyAll(b: Bomb, ops: seq<Op>): Bomb {
    if ops == [] then b else Apply(ApplyAll(b, ops[..|ops|-1]), ops[|ops|-1])
  }

  /** A bomb has its timer, or none, and never a second one still running; a paused or
      defused bomb has none. */
  ghost predicate Sound(b: Bomb) {
    && b.armed == (if b.timer == Pending then 1 else 0)
    && (b.pauses > 0 || b.defused ==> b.timer == NoTimer)
  }

  /** Whatever is done to a strapped bomb, in any order and unbalanced, at most one timer
      is running, and none while its pause count is positive or after Defuse. */
  lemma {:induction false} StrappedStaysSound(ops: seq<Op>)
    ensures Sound(ApplyAll(Arm(Fresh()), ops))
  {
    if ops != [] {
      StrappedStaysSound(ops[..|ops|-1]);
    }
  }

  // --------------------------------------------------------- the bomberman

  type Store = map<string, Bomb>

  /** Requests bracket their work with Pause and Unpause.  `inside` maps the requests within
      their bracket to their handle, `early` counts those already inside when the handle was
      strapped, `cleanups` the bombs that have gone off and not yet been cleaned up, and
      `loose` the running timers of bombs the store has dropped. */
  datatype System = System(bombs: Store, inside: map<int, string>, early: map<string, nat>,
                           cleanups: multiset<string>, loose: multiset<string>)

  datatype Event =
    | Strap(handle: string, grace: nat)
    | Begin(request: int, handle: string)  // its Pause is consumed
    | End(request: int)                    // its Unpause is consumed
    | Defuse(handle: string)
    | Cleanup(handle: string)
    | GoOff(handle: string)                // the timer of the stored bomb
    | GoOffLoose(handle: string)           // a timer of a bomb no longer stored

  const EMPTY := System(map[], map[], map[], multiset{}, multiset{})

  function InsideOf(inside: map<int, string>, handle: string): set<int> {
    set r | r in inside && inside[r] == handle
  }

  function Running(bombs: Store, handle: string): multiset<string> {
    if handle in bombs && bombs[handle].timer == Pending then multiset{handle} else multiset{}
  }

  predicate Enabled(s: System, e: Event) {
    match e
    case Strap(_, _) => true
    case Begin(r, _) => r !in s.inside
    case End(r) => r in s.inside
    case Defuse(_) => true
    case Cleanup(h) => h in s.cleanups
    case GoOff(h) => h in s.bombs && s.bombs[h].timer == Pending
    case GoOffLoose(h) => h in s.loose
  }

  function OnPause(bombs: Store, h: string): Store {
    if h in bombs then bombs[h := Paused(bombs[h])] else bombs
  }

  function OnUnpause(bombs: Store, h: string): Store {
    if h in bombs then bombs[h := Unpaused(bombs[h])] else bombs
  }

  /** One message consumed by manageBombs, or one timer going off. */
  function Step(s: System, e: Event): System {
    if !Enabled(s, e) then s
    else match e
      case Strap(h, grace) =>
        if grace == 0 then s
        else s.(bombs := s.bombs[h := Arm(Fresh())], early := s.early[h := |InsideOf(s.inside, h)|],
                loose := s.loose + Running(s.bombs, h))
      case Begin(r, h) => s.(bombs := OnPause(s.bombs, h), inside := s.inside[r := h])
      case End(r) => s.(bombs := OnUnpause(s.bombs, s.inside[r]), inside := s.inside - {r})
      case Defuse(h) => s.(bombs := s.bombs - {h})
      case Cleanup(h) =>
        s.(bombs := s.bombs - {h}, cleanups := s.cleanups - multiset{h}, loose := s.loose + Running(s.bombs, h))
      case GoOff(h) =>
        s.(bombs := s.bombs[h := GoneOff(s.bombs[h])], cleanups := s.cleanups + multiset{h})
      case GoOffLoose(h) =>
        s.(cleanups := s.cleanups + multiset{h}, loose := s.loose - multiset{h})
  }

  function Run(events: seq<Event>): System {
    if events == [] then EMPTY else Step(Run(events[..|events|-1]), events[|events|-1])
  }

  /** What every run keeps for a stored bomb. */
  ghost predicate BombOk(s: System, h: string)
    requires h in s.bombs
  {
    var b := s.bombs[h];
    && h in s.early
    && Sound(b) && !b.defused
    && b.pauses == |InsideOf(s.inside, h)| - s.early[h]
    && (s.early[h] == 0 && b.timer == NoTimer ==> b.pauses > 0)
  }

  ghost predicate Inv(s: System) {
    forall h :: h in s.bombs ==> BombOk(s, h)
  }

  lemma InsideBegin(inside: map<int, string>, r: int, h: string, k: string)
    requires r !in inside
    ensures |InsideOf(inside[r := h], k)| == |InsideOf(inside, k)| + if k == h then 1 else 0
  {
    if k == h {
      assert InsideOf(inside[r := h], k) == InsideOf(inside, k) + {r};
    } else {
      assert InsideOf(inside[r := h], k) == InsideOf(inside, k);
    }
  }

  lemma InsideEnd(inside: map<int, string>, r: int, k: string)
    requires r in inside
    ensures |InsideOf(inside - {r}, k)| == |InsideOf(inside, k)| - if k == inside[r] then 1 else 0
  {
    if k == inside[r] {
      assert InsideOf(inside, k) == InsideOf(inside - {r}, k) + {r};
    } else {
      assert InsideOf(inside, k) == InsideOf(inside - {r}, k);
    }
  }

  lemma BombStep(s: System, e: Event, k: string)
    requires Enabled(s, e) && k in Step(s, e).bombs && (k in s.bombs ==> BombOk(s, k))
    ensures BombOk(Step(s, e), k)
  {
    if e.Begin? {
      InsideBegin(s.inside, e.request, e.handle, k);
    } else if e.End? {
      InsideEnd(s.inside, e.request, k);
    }
  }

  lemma InvStep(s: System, e: Event)
    requires Inv(s)
    ensures Inv(Step(s, e))
  {
    if Enabled(s, e) {
      forall k | k in Step(s, e).bombs ensures BombOk(Step(s, e), k) {
        BombStep(s, e, k);
      }
    }
  }

  lemma {:induction false} InvRun(events: seq<Event>)
    ensures Inv(Run(events))
  {
    if events != [] {
      InvRun(events[..|events|-1]);
      InvStep(Run(events[..|events|-1]), events[|events|-1]);
    }
  }

  /** In every run the pause count of a stored bomb is the number of requests inside their
      bracket less those that were inside when it was strapped; so it is the number of
      requests inside exactly when no request was inside at its strapping. */
  lemma PausesCountRequests(events: seq<Event>, h: string)
    requires h in Run(events).bombs
    ensures var s := Run(events);
      && h in s.early
      && s.bombs[h].pauses == |InsideOf(s.inside, h)| - s.early[h]
      && (s.bombs[h].pauses == |InsideOf(s.inside, h)| <==> s.early[h] == 0)
  {
    InvRun(events);
    assert BombOk(Run(events), h);
  }

  /** A bomb strapped with no request inside is without a timer exactly while requests are
      inside, so it can go off only when there is none, and never has two timers running. */
  lemma HeldExactlyWhileInside(events: seq<Event>, h: string)
    requires var s := Run(events); h in s.bombs && h in s.early && s.early[h] == 0
    ensures var s := Run(events);
      && (s.bombs[h].timer == NoTimer <==> InsideOf(s.inside, h) != {})
      && (Enabled(s, GoOff(h)) ==> InsideOf(s.inside, h) == {})
      && s.bombs[h].armed == if s.bombs[h].timer == Pending then 1 else 0
  {
    InvRun(events);
    assert BombOk(Run(events), h);
  }

  /** When a bracket closes, the stored bomb is re-armed exactly if it was the last one. */
  lemma RearmedByLast(events: seq<Event>, r: int)
    requires var s := Run(events);
      r in s.inside && s.inside[r] in s.bombs && s.inside[r] in s.early && s.early[s.inside[r]] == 0
    ensures var s, t := Run(events), Run(events + [End(r)]);
      var h := s.inside[r];
      && h in t.bombs
      && s.bombs[h].timer == NoTimer
      && (t.bombs[h].timer == Pending <==> InsideOf(t.inside, h) == {})
  {
    var s := Run(events);
    var h := s.inside[r];
    InvRun(events);
    InvRun(events + [End(r)]);
    assert (events + [End(r)])[..|events|] == events;
    InsideEnd(s.inside, r, h);
    assert BombOk(s, h);
    assert BombOk(Run(events + [End(r)]), h);
    assert r in InsideOf(s.inside, h);
  }

  // --------------------------------------------- when requests are undisturbed

  /** What is to be kept from a request that is inside: that a timer of its handle goes off, or also that the
      container is being destroyed, which goes on from the expiry until the cleanup. */
  datatype Rule = NoExpiry | NoCleanup

  /** What nobody may do with a handle.  Under both rules: strap it while it is stored, awaits its cleanup or has a
      request inside.  Against an expiry: end the last request inside while its bomb awaits its cleanup.  Against a
      cleanup: begin a request while one is awaited. */
  predicate Allowed(rule: Rule, s: System, e: Event, h: string) {
    match e
    case Strap(k, grace) =>
      k == h && grace > 0 ==> h !in s.bombs && h !in s.cleanups && InsideOf(s.inside, h) == {}
    case End(r) =>
      rule == NoExpiry && r in s.inside && s.inside[r] == h && InsideOf(s.inside, h) == {r} ==>
        h !in s.bombs || h !in s.cleanups
    case Begin(r, k) => rule == NoCleanup && k == h && r !in s.inside ==> h !in s.cleanups
    case _ => true
  }

  ghost predicate Disciplined(rule: Rule, events: seq<Event>, h: string) {
    forall k :: 0 <= k < |events| ==> Allowed(rule, Run(events[..k]), events[k], h)
  }

  /** No timer of the handle, stored or lost, can go off while a request is inside. */
  predicate Quiet(s: System, h: string) {
    Enabled(s, GoOff(h)) || Enabled(s, GoOffLoose(h)) ==> InsideOf(s.inside, h) == {}
  }

  /** Nor is a cleanup awaited. */
  predicate Undisturbed(rule: Rule, s: System, h: string) {
    match rule
    case NoExpiry => Quiet(s, h)
    case NoCleanup => h in s.cleanups ==> InsideOf(s.inside, h) == {}
  }

  /** No timer is lost, and one that awaits its cleanup is not running. */
  ghost predicate Tame(s: System, h: string) {
    && h !in s.loose
    && (h in s.bombs ==>
          && BombOk(s, h) && s.early[h] == 0
          && (s.bombs[h].timer == Pending ==> h !in s.cleanups)
          && (s.bombs[h].timer == Fired ==> h in s.cleanups))
  }

  /** What a disciplined run keeps. */
  ghost predicate Orderly(rule: Rule, s: System, h: string) {
    Tame(s, h) && (rule == NoCleanup ==> s.cleanups[h] <= 1 && (h in s.cleanups ==> InsideOf(s.inside, h) == {}))
  }

  lemma TameStep(s: System, e: Event, h: string)
    requires Tame(s, h) && Allowed(NoExpiry, s, e, h)
    ensures Tame(Step(s, e), h)
  {
    var t := Step(s, e);
    if Enabled(s, e) {
      if h in t.bombs {
        BombStep(s, e, h);
      }
      if e.End? && s.inside[e.request] == h && h in s.bombs {
        LastInside(s, e.request, h);
      }
    }
  }

  /** The pause count falls to zero only with the last request inside. */
  lemma LastInside(s: System, r: int, h: string)
    requires h in s.bombs && BombOk(s, h) && s.early[h] == 0 && r in s.inside && s.inside[r] == h
    ensures s.bombs[h].pauses == 1 <==> InsideOf(s.inside, h) == {r}
    ensures s.bombs[h].timer == NoTimer
  {
    assert r in InsideOf(s.inside, h);
    InsideEnd(s.inside, r, h);
    if s.bombs[h].pauses == 1 {
      assert InsideOf(s.inside - {r}, h) == {};
      assert InsideOf(s.inside, h) == InsideOf(s.inside - {r}, h) + {r};
    }
  }

  lemma TameIsQuiet(s: System, h: string)
    requires Tame(s, h)
    ensures Quiet(s, h)
  {
  }

  /** The rule against cleanups implies the other as long as it was kept. */
  lemma OrderlyAllows(rule: Rule, s: System, e: Event, h: string)
    requires Orderly(rule, s, h) && Allowed(rule, s, e, h)
    ensures Allowed(NoExpiry, s, e, h)
  {
    if rule == NoCleanup && e.End? && e.request in s.inside && s.inside[e.request] == h {
      assert e.request in InsideOf(s.inside, h);
    }
  }

  lemma OrderlyStep(rule: Rule, s: System, e: Event, h: string)
    requires Orderly(rule, s, h) && Allowed(rule, s, e, h)
    ensures Orderly(rule, Step(s, e), h)
  {
    OrderlyAllows(rule, s, e, h);
    TameStep(s, e, h);
    TameIsQuiet(s, h);
    if rule == NoCleanup && h in Step(s, e).cleanups {
      StillEmpty(s, e, h);
    }
  }

  lemma StillEmpty(s: System, e: Event, h: string)
    requires Quiet(s, h) && (h in s.cleanups ==> InsideOf(s.inside, h) == {})
    requires Allowed(NoCleanup, s, e, h) && h in Step(s, e).cleanups
    ensures InsideOf(Step(s, e).inside, h) == {}
  {
    var t := Step(s, e);
    forall r | r in InsideOf(t.inside, h) ensures r in InsideOf(s.inside, h) {
    }
  }

  lemma OrderlyIsUndisturbed(rule: Rule, s: System, h: string)
    requires Orderly(rule, s, h)
    ensures Undisturbed(rule, s, h)
  {
    TameIsQuiet(s, h);
  }

  lemma RunSnoc(events: seq<Event>, e: Event)
    ensures Run(events + [e]) == Step(Run(events), e)
  {
    assert (events + [e])[..|events|] == events;
  }

  lemma {:induction false} DisciplinedIsOrderly(rule: Rule, events: seq<Event>, h: string)
    requires Disciplined(rule, events, h)
    ensures Orderly(rule, Run(events), h)
  {
    if events != [] {
      var n := |events| - 1;
      DisciplinedPrefix(rule, events, n, h);
      DisciplinedIsOrderly(rule, events[..n], h);
      OrderlyStep(rule, Run(events[..n]), events[n], h);
    }
  }

  /** What further events lead to. */
  function RunFrom(s: System, more: seq<Event>): System
    decreases |more|
  {
    if more == [] then s else RunFrom(Step(s, more[0]), more[1..])
  }

  lemma {:induction false} RunFromIs(before: seq<Event>, more: seq<Event>)
    ensures RunFrom(Run(before), more) == Run(before + more)
    decreases |more|
  {
    if more == [] {
      assert before + more == before;
    } else {
      RunSnoc(before, more[0]);
      RunFromIs(before + [more[0]], more[1..]);
      assert before + more == before + [more[0]] + more[1..];
    }
  }

  /** The events do not break the rule. */
  predicate Careful(rule: Rule, s: System, more: seq<Event>, h: string)
    decreases |more|
  {
    more == [] || (Allowed(rule, s, more[0], h) && Careful(rule, Step(s, more[0]), more[1..], h))
  }

  lemma {:induction false} CarefulIsUndisturbed(rule: Rule, s: System, more: seq<Event>, h: string)
    requires Orderly(rule, s, h) && Careful(rule, s, more, h)
    ensures Undisturbed(rule, RunFrom(s, more), h)
    decreases |more|
  {
    if more == [] {
      OrderlyIsUndisturbed(rule, s, h);
    } else {
      OrderlyStep(rule, s, more[0], h);
      CarefulIsUndisturbed(rule, Step(s, more[0]), more[1..], h);
    }
  }

  lemma {:induction false} AnotherRequest(ids: set<int>) returns (r: int)
    ensures r !in ids && forall i :: i in ids ==> i < r
  {
    r := 0;
    if i :| i in ids {
      r := AnotherRequest(ids - {i});
      if r <= i {
        r := i + 1;
      }
      assert ids == ids - {i} + {i};
    }
  }

  /** Where a forbidden event leads, in terms of what is going to happen to a request. */
  datatype Threat = Now | Expires | Lost | WillBeLost

  ghost predicate Threatens(threat: Threat, rule: Rule, s: System, h: string) {
    match threat
    case Now => !Undisturbed(rule, s, h)
    case Expires => Enabled(s, GoOff(h)) && InsideOf(s.inside, h) != {}
    case Lost => h in s.loose && (rule == NoCleanup ==> h !in s.cleanups)
    case WillBeLost =>
      && h in s.bombs && s.bombs[h].timer == Pending
      && h in s.cleanups && (rule == NoCleanup ==> s.cleanups[h] == 1)
  }

  lemma Broken(rule: Rule, s: System, e: Event, h: string) returns (threat: Threat)
    requires Orderly(rule, s, h) && !Allowed(rule, s, e, h)
    ensures Threatens(threat, rule, Step(s, e), h)
  {
    if e.End? {
      LastInside(s, e.request, h);
      threat := WillBeLost;
    } else if e.Begin? {
      assert e.request in InsideOf(Step(s, e).inside, h);
      threat := Now;
    } else {
      threat := if InsideOf(s.inside, h) != {} then Expires else if h in s.cleanups then WillBeLost else Lost;
    }
  }

  lemma Cons(rule: Rule, s: System, e: Event, rest: seq<Event>, h: string)
    requires Allowed(rule, s, e, h) && Careful(rule, Step(s, e), rest, h)
    ensures Careful(rule, s, [e] + rest, h) && RunFrom(s, [e] + rest) == RunFrom(Step(s, e), rest)
  {
    assert ([e] + rest)[1..] == rest;
  }

  /** A lost timer goes off on the next request. */
  lemma LostGoesOff(rule: Rule, s: System, h: string) returns (more: seq<Event>)
    requires Threatens(Lost, rule, s, h)
    ensures Careful(rule, s, more, h) && !Undisturbed(rule, RunFrom(s, more), h)
  {
    var r := AnotherRequest(s.inside.Keys);
    var t := Step(s, Begin(r, h));
    assert r in InsideOf(t.inside, h) && h in t.loose;
    var rest := LostExpires(rule, t, h, r);
    Cons(rule, s, Begin(r, h), rest, h);
    more := [Begin(r, h)] + rest;
  }

  lemma LostExpires(rule: Rule, s: System, h: string, r: int) returns (more: seq<Event>)
    requires h in s.loose && r in InsideOf(s.inside, h)
    ensures Careful(rule, s, more, h) && !Undisturbed(rule, RunFrom(s, more), h)
  {
    more := [];
    if rule == NoCleanup {
      Cons(rule, s, GoOffLoose(h), [], h);
      more := [GoOffLoose(h)] + [];
    }
  }

  lemma CleanupLoses(rule: Rule, s: System, h: string)
    requires Threatens(WillBeLost, rule, s, h)
    ensures Threatens(Lost, rule, Step(s, Cleanup(h)), h)
  {
  }

  /** From every threat a continuation that keeps to the rule disturbs a request. */
  lemma ThreatComesTrue(threat: Threat, rule: Rule, s: System, h: string) returns (more: seq<Event>)
    requires Threatens(threat, rule, s, h)
    ensures Careful(rule, s, more, h) && !Undisturbed(rule, RunFrom(s, more), h)
  {
    more := [];
    match threat
    case Now =>
    case Expires =>
      if rule == NoCleanup {
        Cons(rule, s, GoOff(h), [], h);
        more := [GoOff(h)] + [];
      }
    case Lost =>
      more := LostGoesOff(rule, s, h);
    case WillBeLost =>
      CleanupLoses(rule, s, h);
      var rest := LostGoesOff(rule, Step(s, Cleanup(h)), h);
      Cons(rule, s, Cleanup(h), rest, h);
      more := [Cleanup(h)] + rest;
  }

  /** After the first breach, a continuation that keeps to the rule disturbs a request. */
  lemma BreachDisturbs(rule: Rule, events: seq<Event>, e: Event, h: string) returns (more: seq<Event>)
    requires Disciplined(rule, events, h) && !Allowed(rule, Run(events), e, h)
    ensures Careful(rule, Run(events + [e]), more, h) && !Undisturbed(rule, RunFrom(Run(events + [e]), more), h)
  {
    DisciplinedIsOrderly(rule, events, h);
    RunSnoc(events, e);
    var threat := Broken(rule, Run(events), e, h);
    more := ThreatComesTrue(threat, rule, Run(events + [e]), h);
  }

  /** A run keeps to a rule exactly if no request is disturbed at any of its points, nor later as long as whatever
      follows keeps to it. */
  lemma DisciplineIsExact(rule: Rule, events: seq<Event>, h: string)
    ensures Disciplined(rule, events, h) <==>
      forall before, more :: before <= events && Careful(rule, Run(before), more, h) ==>
        Undisturbed(rule, RunFrom(Run(before), more), h)
  {
    if Disciplined(rule, events, h) {
      forall before, more | before <= events && Careful(rule, Run(before), more, h)
        ensures Undisturbed(rule, RunFrom(Run(before), more), h)
      {
        DisciplinedPrefix(rule, events, |before|, h);
        assert before == events[..|before|];
        DisciplinedIsOrderly(rule, before, h);
        CarefulIsUndisturbed(rule, Run(before), more, h);
      }
    } else {
      var k := FirstBreach(rule, events, h);
      var more := BreachDisturbs(rule, events[..k], events[k], h);
      assert events[..k] + [events[k]] == events[..k+1];
      assert events[..k+1] <= events;
    }
  }

  lemma DisciplinedPrefix(rule: Rule, events: seq<Event>, n: nat, h: string)
    requires Disciplined(rule, events, h) && n <= |events|
    ensures Disciplined(rule, events[..n], h)
  {
    forall k | 0 <= k < n ensures Allowed(rule, Run(events[..n][..k]), events[..n][k], h) {
      assert events[..n][..k] == events[..k];
    }
  }

  lemma DisciplinedSnoc(rule: Rule, events: seq<Event>, e: Event, h: string)
    requires Disciplined(rule, events, h) && Allowed(rule, Run(events), e, h)
    ensures Disciplined(rule, events + [e], h)
  {
    var all := events + [e];
    forall k | 0 <= k < |all| ensures Allowed(rule, Run(all[..k]), all[k], h) {
      assert all[..k] == events[..k];
      if k == |events| {
        assert events[..k] == events;
      }
    }
  }

  lemma {:induction false} FirstBreach(rule: Rule, events: seq<Event>, h: string) returns (k: nat)
    requires !Disciplined(rule, events, h)
    ensures k < |events| && Disciplined(rule, events[..k], h) && !Allowed(rule, Run(events[..k]), events[k], h)
  {
    assert events != [];
    k := |events| - 1;
    var init := events[..k];
    assert events == init + [events[k]];
    if Disciplined(rule, init, h) {
      if Allowed(rule, Run(init), events[k], h) {
        DisciplinedSnoc(rule, init, events[k], h);
        assert false;
      }
    } else {
      k := FirstBreach(rule, init, h);
      assert init[..k] == events[..k];
    }
  }

  const OUTLIVED := [Strap("c", 1), GoOff("c"), Begin(1, "c"), End(1), Cleanup("c"), Begin(2, "c")]

  /** A bomb that has gone off can be re-armed before its cleanup; the new timer survives
      the cleanup and may go off while a later request is inside its bracket. */
  lemma CanGoOffWhileInside(events: seq<Event>)
    requires events == OUTLIVED
    ensures var s := Run(events); Enabled(s, GoOffLoose("c")) && 2 in InsideOf(s.inside, "c")
  {
    OutlivedPrefix(events);
    TwoMore(events, 4);
    assert events[..6] == events;
    OutlivedEnd(Run(events[..4]), Run(events));
  }

  /** The run of a prefix, two events at a time. */
  lemma TwoMore(events: seq<Event>, k: nat)
    requires k + 2 <= |events|
    ensures Run(events[..k+2]) == Step(Step(Run(events[..k]), events[k]), events[k+1])
  {
    assert events[..k+2][..k+1][..k] == events[..k];
  }

  lemma OutlivedPrefix(events: seq<Event>)
    requires events == OUTLIVED
    ensures var s := Run(events[..4]);
      "c" in s.bombs && s.bombs["c"] == Bomb(0, false, Pending, 1) && s.inside == map[] && "c" in s.cleanups
  {
    OutlivedTwo(events);
    TwoMore(events, 2);
    OutlivedRearmed(Run(events[..2]), Run(events[..4]));
  }

  lemma OutlivedTwo(events: seq<Event>)
    requires events == OUTLIVED
    ensures var s := Run(events[..2]);
      "c" in s.bombs && s.bombs["c"] == Bomb(0, false, Fired, 0) && s.inside == map[] && "c" in s.cleanups
  {
    TwoMore(events, 0);
    OutlivedStart(Run(events[..2]));
  }

  lemma OutlivedStart(s: System)
    requires s == Step(Step(EMPTY, Strap("c", 1)), GoOff("c"))
    ensures "c" in s.bombs && s.bombs["c"] == Bomb(0, false, Fired, 0) && s.inside == map[] && "c" in s.cleanups
  {
  }

  lemma OutlivedRearmed(s: System, t: System)
    requires "c" in s.bombs && s.bombs["c"] == Bomb(0, false, Fired, 0) && s.inside == map[] && "c" in s.cleanups
    requires t == Step(Step(s, Begin(1, "c")), End(1))
    ensures "c" in t.bombs && t.bombs["c"] == Bomb(0, false, Pending, 1) && t.inside == map[] && "c" in t.cleanups
  {
  }

  lemma OutlivedEnd(s: System, t: System)
    requires "c" in s.bombs && s.bombs["c"] == Bomb(0, false, Pending, 1) && s.inside == map[] && "c" in s.cleanups
    requires t == Step(Step(s, Cleanup("c")), Begin(2, "c"))
    ensures Enabled(t, GoOffLoose("c")) && 2 in InsideOf(t.inside, "c")
  {
  }

  const EARLY_PAUSE := [Begin(1, "c"), Strap("c", 1), Begin(2, "c"), End(1)]

  /** A request inside at the strapping makes the bomb re-arm while another is still inside. */
  lemma EarlyPauseRearms(events: seq<Event>)
    requires events == EARLY_PAUSE
    ensures var s := Run(events);
      "c" in s.bombs && s.bombs["c"].timer == Pending && 2 in InsideOf(s.inside, "c")
  {
    TwoMore(events, 0);
    TwoMore(events, 2);
    EarlySteps();
    assert events[..4] == events;
  }

  lemma EarlySteps()
    ensures var s := Step(Step(Step(Step(EMPTY, Begin(1, "c")), Strap("c", 1)), Begin(2, "c")), End(1));
      "c" in s.bombs && s.bombs["c"].timer == Pending && 2 in InsideOf(s.inside, "c")
  {
    var s2 := Step(Step(EMPTY, Begin(1, "c")), Strap("c", 1));
    assert s2.bombs["c"] == Bomb(0, false, Pending, 1) && s2.inside == map[1 := "c"];
  }

  const SECOND_STRAP := [Strap("c", 1), Strap("c", 1), Begin(1, "c")]

  /** The timer of a bomb that is replaced by a second Strap is lost, and goes off on the next request. */
  lemma SecondStrapGoesOff(events: seq<Event>)
    requires events == SECOND_STRAP
    ensures var s := Run(events); Enabled(s, GoOffLoose("c")) && 1 in InsideOf(s.inside, "c")
  {
    TwoMore(events, 0);
    RunSnoc(events[..2], events[2]);
    assert events == events[..2] + [events[2]];
    assert Run(events[..0]) == EMPTY;
  }

  // ------------------------------------------------------ which handles are stored

  predicate Straps(e: Event, h: string) {
    e.Strap? && e.handle == h && e.grace > 0
  }

  /** Event k takes the handle out of the store. */
  predicate DropsAt(events: seq<Event>, k: nat, h: string)
    requires k < |events|
  {
    events[k] == Defuse(h) || (events[k] == Cleanup(h) && h in Run(events[..k]).cleanups)
  }

  ghost predicate KeptFrom(events: seq<Event>, k: nat, h: string) {
    k < |events| && Straps(events[k], h) && forall m :: k < m < |events| ==> !DropsAt(events, m, h)
  }

  lemma KeptPrefix(events: seq<Event>, k: nat, h: string)
    requires events != [] && k < |events| - 1
    ensures KeptFrom(events, k, h) <==> KeptFrom(events[..|events|-1], k, h) && !DropsAt(events, |events| - 1, h)
  {
    var n := |events| - 1;
    forall m | k < m < n ensures DropsAt(events, m, h) == DropsAt(events[..n], m, h) {
      assert events[..n][..m] == events[..m];
    }
  }

  /** A handle is stored if and only if it was strapped with a grace time and neither defused nor cleaned up since. */
  lemma {:induction false} StoredIsStrapped(events: seq<Event>, h: string)
    ensures h in Run(events).bombs <==> exists k: nat :: KeptFrom(events, k, h)
  {
    if events != [] {
      var n := |events| - 1;
      StoredIsStrapped(events[..n], h);
      StoredStep(Run(events[..n]), events[n], h);
      forall k: nat | k < n
        ensures KeptFrom(events, k, h) <==> KeptFrom(events[..n], k, h) && !DropsAt(events, n, h)
      {
        KeptPrefix(events, k, h);
      }
      if k: nat :| KeptFrom(events[..n], k, h) {
        assert k < n;
      }
      if Straps(events[n], h) {
        assert KeptFrom(events, n, h);
      }
    }
  }

  lemma StoredStep(s: System, e: Event, h: string)
    ensures h in Step(s, e).bombs <==>
      Straps(e, h) || (h in s.bombs && e != Defuse(h) && !(e == Cleanup(h) && h in s.cleanups))
  {
  }

  /** After Defuse, until it is strapped again, the handle is not stored, its timer cannot go off, and the expiries
      still to come can only be those of timers a second strap or a clean-up had left behind. */
  lemma {:induction false} DefusedStays(events: seq<Event>, more: seq<Event>, h: string)
    requires forall e :: e in more ==> !Straps(e, h)
    ensures var s, t := Run(events), Run(events + [Defuse(h)] + more);
      && h !in t.bombs && !Enabled(t, GoOff(h))
      && t.loose[h] + t.cleanups[h] <= s.loose[h] + s.cleanups[h]
    decreases |more|
  {
    var base := events + [Defuse(h)];
    if more == [] {
      assert base + more == base;
      RunSnoc(events, Defuse(h));
    } else {
      var before, last := more[..|more|-1], more[|more|-1];
      DefusedStays(events, before, h);
      RunSnoc(base + before, last);
      assert base + more == base + before + [last];
      assert last in more;
      DefusedStep(Run(base + before), last, h);
    }
  }

  lemma DefusedStep(s: System, e: Event, h: string)
    requires h !in s.bombs && !Straps(e, h)
    ensures var t := Step(s, e); h !in t.bombs && t.loose[h] + t.cleanups[h] <= s.loose[h] + s.cleanups[h]
  {
  }

  // -------------------------------------------------------------- the code

  class Bomberman {
    var timeBombs: map<string, TimeBomb>

    ghost function Repr(): set<object>
      reads this
    {
      set h | h in timeBombs :: timeBombs[h] as object
    }

    /** Handles do not share a bomb. */
    ghost predicate Valid()
      reads this
    {
      forall h, k :: h in timeBombs && k in timeBombs && h != k ==> timeBombs[h] != timeBombs[k]
    }

    ghost function View(): Store
      reads this, Repr()
    {
      map h | h in timeBombs :: timeBombs[h].View()
    }

    constructor ()
      ensures Valid() && timeBombs == map[] && View() == map[]
    {
      timeBombs := map[];
    }

    /** The store after one message: the strap, pause, unpause, defuse or cleanup channel. */
    method HandleStrap(handle: string, grace: nat)
      requires Valid()
      modifies this
      ensures Valid()
      ensures View() == if grace == 0 then old(View()) else old(View())[handle := Arm(Fresh())]
      ensures forall h :: h in timeBombs ==> fresh(timeBombs[h]) || timeBombs[h] in old(Repr())
    {
      if grace == 0 {
        return;
      }
      var bomb := new TimeBomb();
      timeBombs := timeBombs[handle := bomb];
      bomb.Strap();
    }

    method HandlePause(handle: string)
      requires Valid()
      modifies Repr()
      ensures Valid() && timeBombs == old(timeBombs)
      ensures View() == OnPause(old(View()), handle)
    {
      if handle in timeBombs {
        var _ := timeBombs[handle].Pause();
      }
    }

    method HandleUnpause(handle: string)
      requires Valid()
      modifies Repr()
      ensures Valid() && timeBombs == old(timeBombs)
      ensures View() == OnUnpause(old(View()), handle)
    {
      if handle in timeBombs {
        timeBombs[handle].Unpause();
      }
    }

    /** The bomb is defused and dropped; no timer of its own is left running. */
    method HandleDefuse(handle: string)
      requires Valid()
      modifies this, Repr()
      ensures Valid()
      ensures View() == old(View()) - {handle} && timeBombs == old(timeBombs) - {handle}
      ensures old(handle in timeBombs) ==> old(timeBombs[handle]).View() == Defused(old(timeBombs[handle].View()))
    {
      if handle in timeBombs {
        var _ := timeBombs[handle].Defuse();
        timeBombs := timeBombs - {handle};
      }
    }

    method HandleCleanup(handle: string)
      requires Valid()
      modifies this
      ensures Valid()
      ensures View() == old(View()) - {handle} && timeBombs == old(timeBombs) - {handle}
    {
      timeBombs := timeBombs - {handle};
    }

    /** One turn of manageBombs, or a timer going off: the store is changed as the system step says. */
    method Consume(s: System, e: Event)
      requires Valid() && View() == s.bombs && Enabled(s, e)
      modifies this, Repr()
      ensures Valid() && View() == Step(s, e).bombs
      ensures forall h :: h in timeBombs ==> fresh(timeBombs[h]) || timeBombs[h] in old(Repr())
    {
      match e
      case Strap(h, grace) => HandleStrap(h, grace);
      case Begin(_, h) => HandlePause(h);
      case End(r) => HandleUnpause(s.inside[r]);
      case Defuse(h) => HandleDefuse(h);
      case Cleanup(h) => HandleCleanup(h);
      case GoOff(h) => timeBombs[h].GoOff();
      case GoOffLoose(_) =>
    }
  }

  /** The loop of manageBombs over everything that comes in. */
  method ManageBombs(events: seq<Event>) returns (bomberman: Bomberman)
    ensures bomberman.Valid() && bomberman.View() == Run(events).bombs
  {
    bomberman := new Bomberman();
    var s := EMPTY;
    for i := 0 to |events|
      invariant fresh(bomberman) && (forall h :: h in bomberman.timeBombs ==> fresh(bomberman.timeBombs[h]))
      invariant bomberman.Valid() && s == Run(events[..i]) && bomberman.View() == s.bombs
    {
      if Enabled(s, events[i]) {
        bomberman.Consume(s, events[i]);
      }
      s := Step(s, events[i]);
      assert events[..i+1] == events[..i] + [events[i]];
      RunSnoc(events[..i], events[i]);
    }
    assert events[..|events|] == events;
  }
}
