/** The event loop of a dynamic group of processes, over every interleaving of its
    client, its members and the signals sent to it. */
module DynamicGroup {

  /** How far the goroutine that watches a member has got. */
  datatype Stage = Invoking | Entered

  datatype Status = Running | Returned | Panicked

  /** The pool size, and whether there is a termination signal to propagate. */
  datatype Config = Config(poolSize: int, terminates: bool)

  datatype State = State(
    members: map<string, Stage>,  // the process set
    shutdown: bool,               // the process set has been signalled
    signalled: set<string>,       // the members that were sent a signal
    inserting: bool,              // insertEvents is not nil
    listening: bool,              // closeNotifier is not nil
    entering: bool,               // entranceEvents is not nil
    invoking: int,
    closed: bool,                 // the client's close notifier is closed
    inserterClosed: bool,         // the insert channel is closed
    entranceClosed: bool,         // the entrance broadcaster is closed
    exitClosed: bool,             // the exit broadcaster is closed
    status: Status,
    started: seq<string>,         // every member ever started, in order
    entrances: seq<string>,       // every entrance broadcast
    exits: seq<string>)           // every exit broadcast

  datatype Event =
    | Signal                 // received on the signals channel
    | CloseSeen              // the close notifier is received from
    | Request(name: string)  // a client asks for a member
    | Insert(name: string)
    | InsertsEnd             // the closed insert channel is received from
    | Entrance(name: string)
    | Exit(name: string)
    | ClientClose            // the client closes the group
    | CloseInserter          // the client closes the insert channel

  const INIT := State(map[], false, {}, true, true, true, 0, false, false, false, false, Running, [], [], [])

  /** Whether the select statement, or the client, can take this event now. */
  predicate Enabled(s: State, e: Event) {
    match e
    case ClientClose => true
    case CloseInserter => !s.inserterClosed
    case Signal => s.status == Running
    case Request(_) => s.status == Running
    case CloseSeen => s.status == Running && s.listening && s.closed
    case Insert(_) => s.status == Running && s.inserting && !s.inserterClosed
    case InsertsEnd => s.status == Running && s.inserting && s.inserterClosed
    case Entrance(name) => s.status == Running && s.entering && name in s.members && s.members[name] == Invoking
    case Exit(name) => s.status == Running && name in s.members && s.members[name] == Entered
  }

  function OnCloseSeen(s: State): State {
    var s := s.(listening := false, inserting := false);
    if |s.members| == 0 then s.(entranceClosed := true, exitClosed := true, status := Returned)
    else if s.invoking == 0 then s.(entranceClosed := true)
    else s
  }

  function Admit(s: State, name: string): (t: State)
    ensures t.shutdown == s.shutdown && t.closed == s.closed
  {
    s.(members := s.members[name := Invoking], started := s.started + [name], signalled := s.signalled - {name})
  }

  function OnInsert(c: Config, s: State, name: string): State {
    if name in s.members then s.(status := Panicked)
    else
      var s := Admit(s, name);
      s.(invoking := s.invoking + 1, inserting := |s.members| != c.poolSize)
  }

  function OnEntrance(s: State, name: string): State
    requires name in s.members
  {
    var s := s.(members := s.members[name := Entered], invoking := s.invoking - 1, entrances := s.entrances + [name]);
    if !s.listening && s.invoking == 0 then s.(entranceClosed := true, entering := false) else s
  }

  /** The member leaves, and its exit shuts the group down if there is a signal for that. */
  function Leave(c: Config, s: State, name: string): State {
    var s := s.(members := s.members - {name}, exits := s.exits + [name]);
    if !s.shutdown && c.terminates
    then s.(shutdown := true, signalled := s.signalled + s.members.Keys, closed := true, inserting := false)
    else s
  }

  /** Return, or take members again. */
  function Settle(s: State): (t: State)
    ensures t.members == s.members && t.signalled == s.signalled && t.shutdown == s.shutdown && t.invoking == s.invoking
    ensures t.started == s.started && t.entrances == s.entrances && t.exits == s.exits
    ensures t.closed == s.closed && t.listening == s.listening
  {
    if |s.members| == 0 && (s.shutdown || !s.inserting)
    then s.(entranceClosed := true, exitClosed := true, status := Returned)
    else if !s.shutdown && s.listening then s.(inserting := true)
    else s
  }

  function OnExit(c: Config, s: State, name: string): State {
    Settle(Leave(c, s, name))
  }

  /** One turn of the loop; an event that is not enabled changes nothing. */
  function Step(c: Config, s: State, e: Event): State {
    if !Enabled(s, e) then s
    else match e
      case Signal => s.(shutdown := true, signalled := s.signalled + s.members.Keys, closed := true)
      case CloseSeen => OnCloseSeen(s)
      case Request(_) => s
      case Insert(name) => OnInsert(c, s, name)
      case InsertsEnd => s.(closed := true, inserting := false)
      case Entrance(name) => OnEntrance(s, name)
      case Exit(name) => OnExit(c, s, name)
      case ClientClose => s.(closed := true)
      case CloseInserter => s.(inserterClosed := true)
  }

  function RunFrom(c: Config, s: State, events: seq<Event>): State
    decreases |events|
  {
    if events == [] then s else RunFrom(c, Step(c, s, events[0]), events[1..])
  }

  function Run(c: Config, events: seq<Event>): State {
    RunFrom(c, INIT, events)
  }

  // --------------------------------------------------------- the invariant

  function AtStage(members: map<string, Stage>, stage: Stage): set<string> {
    set name | name in members && members[name] == stage
  }

  ghost predicate Tally(members: map<string, Stage>, invoking: int, started: seq<string>, entrances: seq<string>,
                        exits: seq<string>) {
    && invoking == |AtStage(members, Invoking)|
    && multiset(started) == multiset(exits) + multiset(members.Keys)
    && multiset(started) == multiset(entrances) + multiset(AtStage(members, Invoking))
  }

  ghost predicate Counts(s: State) {
    Tally(s.members, s.invoking, s.started, s.entrances, s.exits)
  }

  ghost predicate Capacity(c: Config, s: State) {
    c.poolSize >= 1 ==>
      && |s.members| <= c.poolSize
      && (s.status == Running && s.inserting ==> |s.members| < c.poolSize)
  }

  ghost predicate Closing(s: State) {
    && (!s.listening ==> s.closed && !s.inserting && (s.status == Running ==> |s.members| > 0))
    && (!s.entering ==> !s.listening && s.invoking == 0)
    && (s.entranceClosed ==> s.status == Returned || (!s.listening && s.invoking == 0))
    && (s.exitClosed ==> s.status == Returned)
    && (s.status == Returned ==> |s.members| == 0 && s.exitClosed && s.entranceClosed)
  }

  ghost predicate Inv(c: Config, s: State) {
    Counts(s) && Capacity(c, s) && Closing(s)
  }

  lemma TallyInsert(members: map<string, Stage>, n: int, started: seq<string>, entrances: seq<string>,
                    exits: seq<string>, name: string)
    requires name !in members
    ensures |members[name := Invoking]| == |members| + 1
    ensures Tally(members, n, started, entrances, exits) ==>
      Tally(members[name := Invoking], n + 1, started + [name], entrances, exits)
  {
    KeysInsert(members, name);
    MultisetAdd(members.Keys, name);
    MultisetAdd(AtStage(members, Invoking), name);
    if Tally(members, n, started, entrances, exits) {
      assert multiset(started + [name]) == multiset(started) + multiset{name};
    }
  }

  lemma KeysInsert(members: map<string, Stage>, name: string)
    requires name !in members
    ensures members[name := Invoking].Keys == members.Keys + {name}
    ensures AtStage(members[name := Invoking], Invoking) == AtStage(members, Invoking) + {name}
  {
  }

  lemma MultisetAdd(s: set<string>, name: string)
    requires name !in s
    ensures multiset(s + {name}) == multiset(s) + multiset{name}
  {
  }

  lemma TallyEntrance(members: map<string, Stage>, n: int, started: seq<string>, entrances: seq<string>,
                      exits: seq<string>, name: string)
    requires name in members && members[name] == Invoking
    ensures |members[name := Entered]| == |members|
    ensures Tally(members, n, started, entrances, exits) ==>
      n > 0 && Tally(members[name := Entered], n - 1, started, entrances + [name], exits)
  {
    var after := members[name := Entered];
    assert after.Keys == members.Keys;
    assert AtStage(members, Invoking) == AtStage(after, Invoking) + {name};
    assert multiset(AtStage(members, Invoking)) == multiset(AtStage(after, Invoking)) + multiset{name};
  }

  lemma TallyExit(members: map<string, Stage>, n: int, started: seq<string>, entrances: seq<string>,
                  exits: seq<string>, name: string)
    requires name in members && members[name] == Entered
    ensures |members - {name}| == |members| - 1
    ensures Tally(members, n, started, entrances, exits) ==>
      Tally(members - {name}, n, started, entrances, exits + [name])
  {
    var after := members - {name};
    assert members.Keys == after.Keys + {name};
    assert AtStage(members, Invoking) == AtStage(after, Invoking);
    assert multiset(members.Keys) == multiset(after.Keys) + multiset{name};
  }

  lemma InsertStep(c: Config, s: State, name: string)
    requires name !in s.members
    ensures var t := OnInsert(c, s, name);
      |t.members| == |s.members| + 1 && (Counts(s) ==> Counts(t))
  {
    TallyInsert(s.members, s.invoking, s.started, s.entrances, s.exits, name);
  }

  lemma EntranceStep(s: State, name: string)
    requires name in s.members && s.members[name] == Invoking
    ensures var t := OnEntrance(s, name);
      |t.members| == |s.members| && (Counts(s) ==> Counts(t) && s.invoking > 0)
  {
    TallyEntrance(s.members, s.invoking, s.started, s.entrances, s.exits, name);
  }

  lemma ExitStep(c: Config, s: State, name: string)
    requires name in s.members && s.members[name] == Entered
    ensures var t := OnExit(c, s, name);
      |t.members| == |s.members| - 1 && (Counts(s) ==> Counts(t))
  {
    TallyExit(s.members, s.invoking, s.started, s.entrances, s.exits, name);
    assert OnExit(c, s, name).members == s.members - {name};
  }

  lemma SizeStep(c: Config, s: State, e: Event)
    ensures |Step(c, s, e).members| == |s.members| +
      (if Enabled(s, e) && e.Insert? && e.name !in s.members then 1 else if Enabled(s, e) && e.Exit? then -1 else 0)
  {
    if Enabled(s, e) && e.Insert? && e.name !in s.members {
      InsertStep(c, s, e.name);
    } else if Enabled(s, e) && e.Entrance? {
      EntranceStep(s, e.name);
    } else if Enabled(s, e) && e.Exit? {
      ExitStep(c, s, e.name);
    }
  }

  lemma CountsStep(c: Config, s: State, e: Event)
    requires Counts(s)
    ensures Counts(Step(c, s, e))
  {
    if Enabled(s, e) && e.Insert? && e.name !in s.members {
      InsertStep(c, s, e.name);
    } else if Enabled(s, e) && e.Entrance? {
      EntranceStep(s, e.name);
    } else if Enabled(s, e) && e.Exit? {
      ExitStep(c, s, e.name);
    }
  }

  lemma CapacityStep(c: Config, s: State, e: Event)
    requires Capacity(c, s) && Closing(s)
    ensures Capacity(c, Step(c, s, e))
  {
    SizeStep(c, s, e);
  }

  lemma ClosingStep(c: Config, s: State, e: Event)
    requires Closing(s) && Counts(s)
    ensures Closing(Step(c, s, e))
  {
    if Enabled(s, e) {
      SizeStep(c, s, e);
      if e.Entrance? {
        EntranceStep(s, e.name);
      } else if e.Exit? {
        ClosingExit(c, s, e.name);
      }
    }
  }

  lemma ClosingExit(c: Config, s: State, name: string)
    requires Closing(s) && s.status == Running && name in s.members
    ensures Closing(OnExit(c, s, name))
  {
  }

  lemma InvStep(c: Config, s: State, e: Event)
    requires Inv(c, s)
    ensures Inv(c, Step(c, s, e))
  {
    CountsStep(c, s, e);
    CapacityStep(c, s, e);
    ClosingStep(c, s, e);
  }

  lemma {:induction false} InvRunFrom(c: Config, s: State, events: seq<Event>)
    requires Inv(c, s)
    ensures Inv(c, RunFrom(c, s, events))
    decreases |events|
  {
    if events != [] {
      InvStep(c, s, events[0]);
      InvRunFrom(c, Step(c, s, events[0]), events[1..]);
    }
  }

  // ------------------------------------------------------- main properties

  /** In every run: capacity, the invoking counter, no event for a closed broadcaster or a
      nil channel, no empty group left waiting after the close has been seen. */
  lemma RunIsSafe(c: Config, events: seq<Event>)
    ensures var s := Run(c, events);
      && (c.poolSize >= 1 ==> |s.members| <= c.poolSize)
      && (c.poolSize >= 1 && s.status == Running && s.inserting ==> |s.members| < c.poolSize)
      && s.invoking == |AtStage(s.members, Invoking)|
      && (!s.listening ==> !s.inserting && (s.status == Running ==> s.members != map[]))
      && (forall name :: name in s.members && s.members[name] == Invoking && s.status == Running ==>
            s.entering && !s.entranceClosed)
      && (s.status == Running ==> !s.exitClosed)
  {
    InvRunFrom(c, INIT, events);
    var s := Run(c, events);
    forall name | name in s.members && s.members[name] == Invoking ensures s.invoking > 0 {
      assert name in AtStage(s.members, Invoking);
    }
  }

  /** Run returns only when every member that was started has reported its entrance and
      then its exit, each exactly once, and both broadcasters are closed. */
  lemma ReturnIsComplete(c: Config, events: seq<Event>)
    ensures var s := Run(c, events);
      s.status == Returned ==>
        multiset(s.started) == multiset(s.entrances) == multiset(s.exits) && s.entranceClosed && s.exitClosed
  {
    InvRunFrom(c, INIT, events);
    var s := Run(c, events);
    if s.status == Returned {
      assert s.members == map[];
      assert AtStage(s.members, Invoking) == {} && s.members.Keys == {};
    }
  }

  /** At every moment a name has entered at least as often as it has exited, and has been
      started at least as often as it has entered. */
  lemma ExitsFollowEntrances(c: Config, events: seq<Event>, name: string)
    ensures var s := Run(c, events);
      multiset(s.exits)[name] <= multiset(s.entrances)[name] <= multiset(s.started)[name]
  {
    InvRunFrom(c, INIT, events);
    var s := Run(c, events);
    var live, invoking := s.members.Keys, AtStage(s.members, Invoking);
    assert multiset(s.started)[name] == multiset(s.exits)[name] + multiset(live)[name];
    assert multiset(s.started)[name] == multiset(s.entrances)[name] + multiset(invoking)[name];
    assert name in invoking ==> name in live;
  }

  lemma {:induction false} RunFromConcat(c: Config, s: State, first: seq<Event>, second: seq<Event>)
    ensures RunFrom(c, s, first + second) == RunFrom(c, RunFrom(c, s, first), second)
    decreases |first|
  {
    if first == [] {
      assert first + second == second;
    } else {
      assert (first + second)[1..] == first[1..] + second;
      RunFromConcat(c, Step(c, s, first[0]), first[1..], second);
    }
  }

  lemma CloseStep(c: Config, s: State, e: Event)
    requires !s.listening && !s.inserting
    ensures var t := Step(c, s, e); !t.listening && !t.inserting && t.started == s.started
  {
    if e.Exit? {
      assert !OnExit(c, s, e.name).inserting;
    } else if e.Entrance? && Enabled(s, e) {
      assert !OnEntrance(s, e.name).inserting;
    }
  }

  lemma {:induction false} CloseRunFrom(c: Config, s: State, events: seq<Event>)
    requires !s.listening && !s.inserting
    ensures var t := RunFrom(c, s, events); !t.listening && !t.inserting && t.started == s.started
    decreases |events|
  {
    if events != [] {
      CloseStep(c, s, events[0]);
      CloseRunFrom(c, Step(c, s, events[0]), events[1..]);
    }
  }

  /** Once the close has been consumed, no later event starts a member or reopens inserting. */
  lemma CloseIsFinal(c: Config, events: seq<Event>, more: seq<Event>)
    requires !Run(c, events).listening
    ensures var s, t := Run(c, events), Run(c, events + more);
      !t.listening && !t.inserting && t.started == s.started
  {
    InvRunFrom(c, INIT, events);
    RunFromConcat(c, INIT, events, more);
    CloseRunFrom(c, Run(c, events), more);
  }

  // ------------------------------------- ending without having been asked to

  predicate Asks(e: Event) {
    e.Signal? || e.ClientClose? || e.CloseInserter?
  }

  predicate Unasked(events: seq<Event>) {
    forall i :: 0 <= i < |events| ==> !Asks(events[i])
  }

  /** Nobody has asked the group to end, and it takes members unless it is full. */
  ghost predicate Open(c: Config, s: State) {
    && !s.shutdown && !s.closed && s.listening && !s.inserterClosed && s.status != Returned
    && (s.inserting || (|s.members| == c.poolSize && c.poolSize >= 2))
  }

  lemma OpenStep(c: Config, s: State, e: Event)
    requires c.poolSize != 1 && !c.terminates && Open(c, s) && !Asks(e)
    ensures Open(c, Step(c, s, e))
  {
    SizeStep(c, s, e);
  }

  lemma {:induction false} OpenRunFrom(c: Config, s: State, events: seq<Event>)
    requires c.poolSize != 1 && !c.terminates && Open(c, s) && Unasked(events)
    ensures Open(c, RunFrom(c, s, events))
    decreases |events|
  {
    if events != [] {
      OpenStep(c, s, events[0]);
      OpenRunFrom(c, Step(c, s, events[0]), events[1..]);
    }
  }

  const ONE_MEMBER := [Insert("a"), Entrance("a"), Exit("a")]

  lemma OneMemberEnds(c: Config)
    requires c.poolSize == 1 && !c.terminates
    ensures Unasked(ONE_MEMBER) && Run(c, ONE_MEMBER).status == Returned
  {
    var s1 := Step(c, INIT, Insert("a"));
    assert s1.members == map["a" := Invoking];
    var s2 := Step(c, s1, Entrance("a"));
    assert s2.members == map["a" := Entered];
    var s3 := Step(c, s2, Exit("a"));
    assert s3.members == map[];
    assert ONE_MEMBER[1..] == [Entrance("a"), Exit("a")] && ONE_MEMBER[1..][1..] == [Exit("a")];
    assert RunFrom(c, s2, [Exit("a")]) == s3;
    assert RunFrom(c, s1, [Entrance("a"), Exit("a")]) == s3;
  }

  /** A group without a termination signal is documented to run until it is asked to stop.
      That holds exactly when its pool size is not 1. */
  lemma EndsUnaskedIffPoolOfOne(c: Config)
    requires !c.terminates
    ensures (exists events :: Unasked(events) && Run(c, events).status == Returned) <==> c.poolSize == 1
  {
    if c.poolSize == 1 {
      OneMemberEnds(c);
    } else {
      forall events | Unasked(events) ensures Run(c, events).status != Returned {
        OpenRunFrom(c, INIT, events);
      }
    }
  }

  // --------------------------------------------- a pool size of zero or less

  function Name(n: nat): string {
    seq(n, _ => 'a')
  }

  function Inserts(n: nat): seq<Event> {
    if n == 0 then [] else Inserts(n - 1) + [Insert(Name(n))]
  }

  lemma {:induction false} InsertsAll(c: Config, n: nat)
    requires c.poolSize <= 0
    ensures var s := Run(c, Inserts(n));
      && |s.members| == n && s.status == Running && s.inserting && !s.inserterClosed
      && forall name :: name in s.members ==> |name| <= n
  {
    if n > 0 {
      InsertsAll(c, n - 1);
      RunFromConcat(c, INIT, Inserts(n - 1), [Insert(Name(n))]);
      var s := Run(c, Inserts(n - 1));
      SizeStep(c, s, Insert(Name(n)));
      assert RunFrom(c, s, [Insert(Name(n))]) == Step(c, s, Insert(Name(n)));
    }
  }

  ghost predicate BoundedBy(c: Config, bound: nat) {
    forall events :: |Run(c, events).members| <= bound
  }

  /** The number of concurrent members is bounded exactly when the pool size is at least 1. */
  lemma BoundedIffPositive(c: Config)
    ensures (exists bound: nat :: BoundedBy(c, bound)) <==> c.poolSize >= 1
  {
    if c.poolSize >= 1 {
      forall events ensures |Run(c, events).members| <= c.poolSize {
        InvRunFrom(c, INIT, events);
      }
      assert BoundedBy(c, c.poolSize);
    } else {
      forall bound: nat ensures !BoundedBy(c, bound) {
        InsertsAll(c, bound + 1);
        assert |Run(c, Inserts(bound + 1)).members| == bound + 1;
      }
    }
  }

  // -------------------------------------- inserting after the stop signal

  ghost predicate AllSignalled(s: State) {
    s.members.Keys <= s.signalled
  }

  predicate Unsignalled(s: State, name: string) {
    name in s.members && name !in s.signalled
  }

  /** The event starts the member. */
  predicate Begins(s: State, e: Event, name: string) {
    e == Insert(name) && Enabled(s, e) && name !in s.members
  }

  /** The event sends the member a signal, or is its exit. */
  predicate Reaches(c: Config, s: State, e: Event, name: string) {
    Enabled(s, e) && (e.Signal? || e == Exit(name) || (e.Exit? && c.terminates && !s.shutdown))
  }

  /** The member was started by the event at k, and nothing has reached it since. */
  ghost predicate LateAt(c: Config, events: seq<Event>, k: nat, name: string)
    requires k < |events|
  {
    && Begins(Run(c, events[..k]), events[k], name)
    && forall j :: k < j < |events| ==> !Reaches(c, Run(c, events[..j]), events[j], name)
  }

  lemma UnsignalledStep(c: Config, s: State, e: Event, name: string)
    ensures Unsignalled(Step(c, s, e), name) <==>
      Begins(s, e, name) || (Unsignalled(s, name) && !Reaches(c, s, e, name))
  {
    if Enabled(s, e) {
      if e.Insert? {
        UnsignalledInsert(c, s, e.name, name);
      } else if e.Exit? {
        UnsignalledExit(c, s, e.name, name);
      }
    }
  }

  lemma UnsignalledInsert(c: Config, s: State, other: string, name: string)
    ensures Unsignalled(OnInsert(c, s, other), name) <==> (name == other && name !in s.members) || Unsignalled(s, name)
  {
    if other !in s.members {
      var t := OnInsert(c, s, other);
      assert t.members == s.members[other := Invoking];
      assert t.signalled == s.signalled - {other};
      UnsignalledAdded(s.members, s.signalled, other, name);
    }
  }

  lemma UnsignalledAdded(members: map<string, Stage>, signalled: set<string>, other: string, name: string)
    ensures name in members[other := Invoking] && name !in signalled - {other} <==>
      name == other || (name in members && name !in signalled)
  {
  }

  lemma UnsignalledExit(c: Config, s: State, other: string, name: string)
    ensures Unsignalled(OnExit(c, s, other), name) <==>
      Unsignalled(s, name) && name != other && !(c.terminates && !s.shutdown)
  {
  }

  lemma RunSnoc(c: Config, events: seq<Event>, e: Event)
    ensures Run(c, events + [e]) == Step(c, Run(c, events), e)
  {
    RunFromConcat(c, INIT, events, [e]);
    var s := Run(c, events);
    assert RunFrom(c, Step(c, s, e), []) == Step(c, s, e);
    assert [e][1..] == [];
  }

  lemma LateSnoc(c: Config, events: seq<Event>, e: Event, k: nat, name: string)
    requires k < |events|
    ensures LateAt(c, events + [e], k, name) <==> LateAt(c, events, k, name) && !Reaches(c, Run(c, events), e, name)
  {
    var all := events + [e];
    assert all[..k] == events[..k] && all[k] == events[k];
    assert all[..|events|] == events;
    forall j | k < j < |events| ensures all[..j] == events[..j] && all[j] == events[j] {
    }
    if LateAt(c, all, k, name) {
      assert !Reaches(c, Run(c, all[..|events|]), all[|events|], name);
      forall j | k < j < |events| ensures !Reaches(c, Run(c, events[..j]), events[j], name) {
        assert !Reaches(c, Run(c, all[..j]), all[j], name);
      }
    }
  }

  /** In every run the members without a signal are exactly those that nothing has reached since they were
      started: a member inserted after the last stop signal gets none. */
  lemma {:induction false} UnsignalledAreLate(c: Config, events: seq<Event>, name: string)
    ensures Unsignalled(Run(c, events), name) <==> exists k :: 0 <= k < |events| && LateAt(c, events, k, name)
  {
    if events != [] {
      var n := |events| - 1;
      var init, e := events[..n], events[n];
      assert events == init + [e];
      UnsignalledAreLate(c, init, name);
      RunSnoc(c, init, e);
      UnsignalledStep(c, Run(c, init), e, name);
      if Begins(Run(c, init), e, name) {
        assert LateAt(c, events, n, name);
      } else {
        LateBefore(c, init, e, name);
      }
    }
  }

  lemma LateBefore(c: Config, init: seq<Event>, e: Event, name: string)
    requires !Begins(Run(c, init), e, name)
    ensures (exists k :: 0 <= k < |init + [e]| && LateAt(c, init + [e], k, name)) <==>
      (exists k :: 0 <= k < |init| && LateAt(c, init, k, name)) && !Reaches(c, Run(c, init), e, name)
  {
    var all := init + [e];
    assert all[..|init|] == init;
    forall k | 0 <= k < |init|
      ensures LateAt(c, all, k, name) <==> LateAt(c, init, k, name) && !Reaches(c, Run(c, init), e, name)
    {
      LateSnoc(c, init, e, k, name);
    }
    if k :| 0 <= k < |all| && LateAt(c, all, k, name) {
      assert k < |init|;
      assert LateAt(c, init, k, name);
    }
    if k :| 0 <= k < |init| && LateAt(c, init, k, name) && !Reaches(c, Run(c, init), e, name) {
      assert LateAt(c, all, k, name);
    }
  }

  /** A stopped group has signalled all its members if and only if no member was inserted since; such an
      insertion came before the close was consumed. */
  lemma AllSignalledUnlessLate(c: Config, events: seq<Event>)
    ensures AllSignalled(Run(c, events)) <==> forall k, name :: 0 <= k < |events| ==> !LateAt(c, events, k, name)
    ensures forall k, name :: 0 <= k < |events| && LateAt(c, events, k, name) ==> Run(c, events[..k]).listening
  {
    var s := Run(c, events);
    if AllSignalled(s) {
      forall k, name | 0 <= k < |events| ensures !LateAt(c, events, k, name) {
        UnsignalledAreLate(c, events, name);
      }
    } else {
      var name :| name in s.members.Keys && name !in s.signalled;
      UnsignalledAreLate(c, events, name);
    }
    forall k, name | 0 <= k < |events| && LateAt(c, events, k, name) ensures Run(c, events[..k]).listening {
      InvRunFrom(c, INIT, events[..k]);
    }
  }

  lemma LateInsertIsNotSignalled(c: Config)
    ensures var s := Run(c, [Signal, Insert("a")]);
      s.shutdown && "a" in s.members && "a" !in s.signalled
  {
    var s := Step(c, INIT, Signal);
    assert [Signal, Insert("a")][1..] == [Insert("a")];
    assert RunFrom(c, s, [Insert("a")]) == Step(c, s, Insert("a"));
  }
}
