/** Stopping a dynamic group: what asks it to end closes it, and a closed group comes to its end once its
    members do. */
module DynamicGroupStop {
  import opened DynamicGroup

  /** The event at k was taken and asks the group to end: a signal, the end of the inserts, the client's close, or the
      first exit when there is a termination signal. */
  ghost predicate AskedAt(c: Config, events: seq<Event>, k: nat)
    requires k < |events|
  {
    AsksToEnd(c, SignalledBefore(c, events, k), events[k]) && Enabled(Run(c, events[..k]), events[k])
  }

  /** A signal was taken before k, or an exit when there is a termination signal. */
  ghost predicate SignalledBefore(c: Config, events: seq<Event>, k: nat)
    requires k <= |events|
  {
    exists j :: 0 <= j < k && SignalsAt(c, events, j)
  }

  ghost predicate SignalsAt(c: Config, events: seq<Event>, j: nat)
    requires j < |events|
  {
    (events[j].Signal? || (events[j].Exit? && c.terminates)) && Enabled(Run(c, events[..j]), events[j])
  }

  lemma RunPrefix(c: Config, events: seq<Event>, k: nat)
    requires k < |events|
    ensures Run(c, events[..k+1]) == Step(c, Run(c, events[..k]), events[k])
  {
    RunSnoc(c, events[..k], events[k]);
    assert events[..k+1] == events[..k] + [events[k]];
  }

  lemma LeaveAsks(c: Config, s: State, name: string)
    ensures Leave(c, s, name).shutdown <==> s.shutdown || c.terminates
    ensures Leave(c, s, name).closed <==> s.closed || (c.terminates && !s.shutdown)
  {
  }

  lemma InsertAsksNothing(c: Config, s: State, name: string)
    ensures OnInsert(c, s, name).shutdown == s.shutdown && OnInsert(c, s, name).closed == s.closed
  {
  }

  /** What one event does to the two marks. */
  lemma AskStep(c: Config, s: State, e: Event)
    ensures Step(c, s, e).shutdown <==> s.shutdown || (Enabled(s, e) && (e.Signal? || (e.Exit? && c.terminates)))
    ensures Step(c, s, e).closed <==> s.closed || (Enabled(s, e) && AsksToEnd(c, s.shutdown, e))
  {
    if Enabled(s, e) {
      match e
      case Exit(name) => LeaveAsks(c, s, name);
      case Insert(name) => InsertAsksNothing(c, s, name);
      case _ =>
    }
  }

  /** Whether an event asks a group, shut down or not, to end. */
  predicate AsksToEnd(c: Config, shutdown: bool, e: Event) {
    e.Signal? || e.InsertsEnd? || e.ClientClose? || (e.Exit? && c.terminates && !shutdown)
  }

  /** The group is shut down exactly by a signal that was taken, or an exit when there is a termination signal. */
  lemma {:induction false} ShutdownIsSignalled(c: Config, events: seq<Event>)
    ensures Run(c, events).shutdown <==> SignalledBefore(c, events, |events|)
  {
    if events != [] {
      var n := |events| - 1;
      var init := events[..n];
      ShutdownIsSignalled(c, init);
      RunPrefix(c, events, n);
      assert events[..n+1] == events;
      AskStep(c, Run(c, init), events[n]);
      forall j | 0 <= j < n ensures SignalsAt(c, events, j) <==> SignalsAt(c, init, j) {
        assert init[..j] == events[..j];
      }
      if SignalledBefore(c, init, n) {
        var j :| 0 <= j < n && SignalsAt(c, init, j);
        assert SignalsAt(c, events, j);
      }
      assert SignalsAt(c, events, n) <==>
        Enabled(Run(c, init), events[n]) && (events[n].Signal? || (events[n].Exit? && c.terminates));
    }
  }

  /** A group is closed exactly when something that asks it to end has been taken. */
  lemma {:induction false} ClosedIsAsked(c: Config, events: seq<Event>)
    ensures Run(c, events).closed <==> exists k :: 0 <= k < |events| && AskedAt(c, events, k)
  {
    if events != [] {
      var n := |events| - 1;
      var init := events[..n];
      ClosedIsAsked(c, init);
      AskedLast(c, events, n);
      if k :| 0 <= k < n && AskedAt(c, init, k) {
        AskedPrefix(c, events, n, k);
      }
      if k :| 0 <= k < |events| && AskedAt(c, events, k) {
        if k < n {
          AskedPrefix(c, events, n, k);
        }
      }
    }
  }

  lemma AskedLast(c: Config, events: seq<Event>, n: nat)
    requires n + 1 == |events|
    ensures Run(c, events).closed <==> Run(c, events[..n]).closed || AskedAt(c, events, n)
  {
    ShutdownIsSignalled(c, events[..n]);
    SignalledPrefix(c, events, n, n);
    RunPrefix(c, events, n);
    assert events[..n+1] == events;
    AskStep(c, Run(c, events[..n]), events[n]);
  }

  lemma SignalledPrefix(c: Config, events: seq<Event>, n: nat, k: nat)
    requires k <= n <= |events|
    ensures SignalledBefore(c, events[..n], k) <==> SignalledBefore(c, events, k)
  {
    forall j | 0 <= j < k ensures SignalsAt(c, events[..n], j) <==> SignalsAt(c, events, j) {
      assert events[..n][..j] == events[..j];
    }
  }

  lemma AskedPrefix(c: Config, events: seq<Event>, n: nat, k: nat)
    requires k < n <= |events|
    ensures AskedAt(c, events, k) <==> AskedAt(c, events[..n], k)
  {
    assert events[..n][..k] == events[..k];
    SignalledPrefix(c, events, n, k);
  }

  // ----------------------------------------------------------- coming to an end

  /** How much is still to happen: the close, and an entrance and an exit of each member. */
  function Remaining(s: State): nat {
    2 * |s.members| + |AtStage(s.members, Invoking)| + if s.listening then 1 else 0
  }

  predicate IsEnding(e: Event) {
    e.CloseSeen? || e.Entrance? || e.Exit?
  }

  /** What can happen next in a closed group: the close is seen, a member enters, or one exits. */
  lemma SomethingHappens(c: Config, s: State) returns (e: Event)
    requires Inv(c, s) && s.status == Running && s.closed
    ensures IsEnding(e) && Enabled(s, e)
  {
    if s.listening {
      e := CloseSeen;
    } else {
      var name :| name in s.members;
      if s.members[name] == Invoking {
        assert name in AtStage(s.members, Invoking);
        e := Entrance(name);
      } else {
        e := Exit(name);
      }
    }
  }

  lemma EndingIsNearer(c: Config, s: State, e: Event)
    requires Inv(c, s) && s.closed && IsEnding(e) && Enabled(s, e)
    ensures Remaining(Step(c, s, e)) < Remaining(s) && Step(c, s, e).closed && Step(c, s, e).status != Panicked
  {
    match e
    case CloseSeen =>
    case Entrance(name) => EntranceIsNearer(s, name);
    case Exit(name) => ExitIsNearer(c, s, name);
  }

  lemma EntranceIsNearer(s: State, name: string)
    requires name in s.members && s.members[name] == Invoking
    ensures Remaining(OnEntrance(s, name)) < Remaining(s)
  {
    var after := s.members[name := Entered];
    assert after.Keys == s.members.Keys;
    assert AtStage(s.members, Invoking) == AtStage(after, Invoking) + {name};
  }

  lemma ExitIsNearer(c: Config, s: State, name: string)
    requires name in s.members && s.members[name] == Entered
    ensures Remaining(OnExit(c, s, name)) < Remaining(s)
  {
    var after := s.members - {name};
    assert s.members.Keys == after.Keys + {name};
    assert AtStage(s.members, Invoking) == AtStage(after, Invoking);
    assert OnExit(c, s, name).members == after;
    ExitKeepsListening(c, s, name);
  }

  lemma ExitKeepsListening(c: Config, s: State, name: string)
    ensures OnExit(c, s, name).listening == s.listening
  {
  }

  lemma NextEnding(c: Config, events: seq<Event>) returns (e: Event)
    requires Run(c, events).closed && Run(c, events).status == Running
    ensures IsEnding(e) && Remaining(Run(c, events + [e])) < Remaining(Run(c, events))
    ensures Run(c, events + [e]).closed && Run(c, events + [e]).status != Panicked
  {
    InvRunFrom(c, INIT, events);
    e := SomethingHappens(c, Run(c, events));
    EndingIsNearer(c, Run(c, events), e);
    RunSnoc(c, events, e);
  }

  /** Once something has asked it to end, a group that has not panicked returns after events that nobody needs to
      ask for: the close is seen, members enter and exit. */
  lemma {:induction false} AskedComesToItsEnd(c: Config, events: seq<Event>) returns (more: seq<Event>)
    requires Run(c, events).closed && Run(c, events).status != Panicked
    ensures forall k :: 0 <= k < |more| ==> IsEnding(more[k])
    ensures Run(c, events + more).status == Returned
    decreases Remaining(Run(c, events))
  {
    var s := Run(c, events);
    more := [];
    if s.status == Returned {
      assert events + more == events;
    } else {
      var e := NextEnding(c, events);
      var rest := AskedComesToItsEnd(c, events + [e]);
      more := [e] + rest;
      assert events + more == events + [e] + rest;
    }
  }

  /** An idle group that is signalled returns as soon as the close is seen. */
  lemma IdleGroupStops(c: Config)
    ensures Run(c, [Signal, CloseSeen]).status == Returned
  {
    RunSnoc(c, [], Signal);
    RunSnoc(c, [Signal], CloseSeen);
    assert [] + [Signal] == [Signal] && [Signal] + [CloseSeen] == [Signal, CloseSeen];
    assert Run(c, []) == INIT;
  }

  /** After a signal the exit of the last member ends the group at once. */
  lemma LastExitReturns(c: Config, events: seq<Event>, name: string)
    requires SignalledBefore(c, events, |events|)
    requires var s := Run(c, events); s.members.Keys == {name} && Enabled(s, Exit(name))
    ensures Run(c, events + [Exit(name)]).status == Returned
  {
    var s := Run(c, events);
    ShutdownIsSignalled(c, events);
    RunSnoc(c, events, Exit(name));
    assert (s.members - {name}).Keys == {};
    assert |s.members - {name}| == 0;
    LeftEmpty(c, s, name);
  }

  lemma LeftEmpty(c: Config, s: State, name: string)
    requires (s.shutdown || !s.inserting) && |s.members - {name}| == 0
    ensures OnExit(c, s, name).status == Returned
  {
  }

  /** Once the close is seen, the entrance broadcaster is closed exactly when no member has still to enter. */
  lemma {:induction false} EntrancesClose(c: Config, events: seq<Event>)
    ensures var s := Run(c, events);
      s.status == Running && !s.listening ==> (s.entranceClosed <==> AtStage(s.members, Invoking) == {})
  {
    if events != [] {
      var n := |events| - 1;
      var init := events[..n];
      EntrancesClose(c, init);
      RunPrefix(c, events, n);
      assert events[..n+1] == events;
      InvRunFrom(c, INIT, init);
      InvRunFrom(c, INIT, events);
      EntrancesStep(c, Run(c, init), events[n]);
    }
  }

  lemma EntrancesStep(c: Config, s: State, e: Event)
    requires Inv(c, s) && Inv(c, Step(c, s, e))
    requires s.status == Running && !s.listening ==> (s.entranceClosed <==> s.invoking == 0)
    ensures var t := Step(c, s, e); t.status == Running && !t.listening ==> (t.entranceClosed <==> t.invoking == 0)
  {
  }

  // ------------------------------------------------------- the insert channel

  /** A member is inserted that is running already. */
  ghost predicate DuplicateAt(c: Config, events: seq<Event>, k: nat)
    requires k < |events|
  {
    var s := Run(c, events[..k]);
    events[k].Insert? && Enabled(s, events[k]) && events[k].name in s.members
  }

  lemma ExitChannel(c: Config, s: State, name: string)
    requires s.status == Running
    ensures OnExit(c, s, name).status != Panicked && OnExit(c, s, name).inserterClosed == s.inserterClosed
  {
  }

  lemma InsertChannel(c: Config, s: State, name: string)
    requires s.status == Running
    ensures OnInsert(c, s, name).status == Panicked <==> name in s.members
    ensures OnInsert(c, s, name).inserterClosed == s.inserterClosed
  {
  }

  lemma OtherChannel(c: Config, s: State, e: Event)
    requires Enabled(s, e) && !e.Exit? && !e.Insert? && !e.ClientClose? && !e.CloseInserter?
    ensures Step(c, s, e).status != Panicked && Step(c, s, e).inserterClosed == s.inserterClosed
  {
  }

  /** What one event does to the insert channel and the panic. */
  lemma ChannelStep(c: Config, s: State, e: Event)
    ensures Step(c, s, e).status == Panicked <==>
      s.status == Panicked || (e.Insert? && Enabled(s, e) && e.name in s.members)
    ensures Step(c, s, e).inserterClosed <==> s.inserterClosed || e.CloseInserter?
  {
    if Enabled(s, e) {
      match e
      case Exit(name) => ExitChannel(c, s, name);
      case Insert(name) => InsertChannel(c, s, name);
      case ClientClose =>
      case CloseInserter =>
      case _ => OtherChannel(c, s, e);
    }
  }

  /** The group panics exactly on the insert of a name that is running. */
  lemma {:induction false} PanicIsDuplicate(c: Config, events: seq<Event>)
    ensures Run(c, events).status == Panicked <==> exists k :: 0 <= k < |events| && DuplicateAt(c, events, k)
  {
    if events != [] {
      var n := |events| - 1;
      var init := events[..n];
      PanicIsDuplicate(c, init);
      RunPrefix(c, events, n);
      assert events[..n+1] == events;
      ChannelStep(c, Run(c, init), events[n]);
      forall k | 0 <= k < n ensures DuplicateAt(c, events, k) <==> DuplicateAt(c, init, k) {
        assert init[..k] == events[..k];
      }
      if k :| 0 <= k < n && DuplicateAt(c, init, k) {
        assert DuplicateAt(c, events, k);
      }
      assert DuplicateAt(c, events, n) <==>
        events[n].Insert? && Enabled(Run(c, init), events[n]) && events[n].name in Run(c, init).members;
    }
  }

  /** The insert channel is closed exactly when the client has closed it, and takes no member from then on. */
  lemma {:induction false} ClosedInserterTakesNone(c: Config, events: seq<Event>, name: string)
    ensures Run(c, events).inserterClosed <==> CloseInserter in events
    ensures CloseInserter in events ==> Run(c, events + [Insert(name)]) == Run(c, events)
  {
    RunSnoc(c, events, Insert(name));
    if events != [] {
      var n := |events| - 1;
      ClosedInserterTakesNone(c, events[..n], name);
      RunPrefix(c, events, n);
      assert events[..n+1] == events;
      ChannelStep(c, Run(c, events[..n]), events[n]);
    }
  }

  lemma EndedStep(c: Config, s: State, e: Event)
    requires s.inserterClosed && !s.inserting && !e.Exit?
    ensures Step(c, s, e).inserterClosed && !Step(c, s, e).inserting
  {
    if Enabled(s, e) && e.Entrance? {
      EnteredInserts(s, e.name);
    }
  }

  lemma EnteredInserts(s: State, name: string)
    requires name in s.members
    ensures OnEntrance(s, name).inserting == s.inserting && OnEntrance(s, name).inserterClosed == s.inserterClosed
  {
  }

  /** After the end of the inserts it is not received again before a member exits, and if that is the only member the
      group returns at once, without waiting for its close to be seen. */
  lemma {:induction false} InsertsEndOnce(c: Config, events: seq<Event>, more: seq<Event>, name: string)
    requires Enabled(Run(c, events), InsertsEnd) && forall e :: e in more ==> !e.Exit?
    ensures var s := Run(c, events + [InsertsEnd] + more);
      && s.inserterClosed && !s.inserting && !Enabled(s, InsertsEnd)
      && (s.members.Keys == {name} && Enabled(s, Exit(name)) ==>
            Run(c, events + [InsertsEnd] + more + [Exit(name)]).status == Returned)
    decreases |more|
  {
    var base := events + [InsertsEnd];
    if more == [] {
      assert base + more == base;
      RunSnoc(c, events, InsertsEnd);
    } else {
      var before, last := more[..|more|-1], more[|more|-1];
      InsertsEndOnce(c, events, before, name);
      RunSnoc(c, base + before, last);
      assert base + more == base + before + [last];
      assert last in more;
      EndedStep(c, Run(c, base + before), last);
    }
    OnlyMemberLeaves(c, base + more, name);
  }

  lemma OnlyMemberLeaves(c: Config, events: seq<Event>, name: string)
    requires !Run(c, events).inserting
    ensures var s := Run(c, events);
      s.members.Keys == {name} && Enabled(s, Exit(name)) ==> Run(c, events + [Exit(name)]).status == Returned
  {
    var s := Run(c, events);
    if s.members.Keys == {name} && Enabled(s, Exit(name)) {
      RunSnoc(c, events, Exit(name));
      assert (s.members - {name}).Keys == {};
      assert |s.members - {name}| == 0;
      LeftEmpty(c, s, name);
    }
  }
}
