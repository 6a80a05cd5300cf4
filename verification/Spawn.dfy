/** The rendezvous between the acceptor, the main routine and the child runner of the
    iodaemon's spawn, as interleaved atomic steps.  A send and the receive it meets on an
    unbuffered channel are one step. */
module Spawn {

  datatype Acceptor =
    | Accepting         // in listener.Accept
    | AcceptFailed      // Accept returned an error; stopAccepting not looked at yet
    | Connected         // has a connection, before once.Do
    | SendingConnected  // onFirstConn: connected <- true
    | SendingInit       // onFirstConn: initChild <- true
    | AwaitingStarted   // onFirstConn: <-childStarted
    | Processing        // in processConn
    | AcceptorDone

  datatype MainRoutine =
    | Selecting         // connected or timeout
    | AwaitingInit      // <-initChild
    | AwaitingEnded     // <-childEnded
    | Leaving           // the exit code is set
    | StopClosed        // stopAccepting is closed
    | ListenerShut      // the listener is closed
    | MainDone          // the exit code has been sent to terminate

  datatype Runner =
    | NoRunner
    | Starting          // before cmd.Start
    | SendingStarted    // childStarted <- true
    | Waiting           // in cmd.Wait
    | SendingEnded      // childEnded <- true
    | RunnerDone

  datatype State = State(
    acceptor: Acceptor, main: MainRoutine, runner: Runner,
    onceDone: bool, stopAccepting: bool, listenerClosed: bool, exitCode: int,
    codes: seq<int>,      // everything sent to terminate
    starts: nat,          // calls of cmd.Start
    started: bool,        // cmd.Start has succeeded
    ended: bool,          // the child has ended
    timedOut: bool,       // the timeout branch was taken
    acceptError: bool,    // Accept has failed although the listener was open
    links: nat)           // link requests processed

  datatype Event =
    | Accept | AcceptFails | LookAtStop | Once | LinkRequest | ConnectionEnds
    | MeetConnected | MeetInit | MeetStarted | MeetEnded
    | Timeout | CloseStop | CloseListener | Terminate
    | StartSucceeds | StartFails | ChildEnds

  const INIT := State(Accepting, Selecting, NoRunner, false, false, false, 1, [], 0, false, false, false, false, 0)

  predicate Enabled(s: State, e: Event) {
    match e
    case Accept => s.acceptor == Accepting && !s.listenerClosed
    case AcceptFails => s.acceptor == Accepting
    case LookAtStop => s.acceptor == AcceptFailed
    case Once => s.acceptor == Connected
    case LinkRequest => s.acceptor == Processing
    case ConnectionEnds => s.acceptor == Processing
    case MeetConnected => s.acceptor == SendingConnected && s.main == Selecting
    case MeetInit => s.acceptor == SendingInit && s.main == AwaitingInit
    case MeetStarted => s.runner == SendingStarted && s.acceptor == AwaitingStarted
    case MeetEnded => s.runner == SendingEnded && s.main == AwaitingEnded
    case Timeout => s.main == Selecting
    case CloseStop => s.main == Leaving
    case CloseListener => s.main == StopClosed
    case Terminate => s.main == ListenerShut
    case StartSucceeds => s.runner == Starting
    case StartFails => s.runner == Starting
    case ChildEnds => s.runner == Waiting
  }

  /** fatal: close the listener and send 1. */
  function Fatal(s: State): State {
    s.(listenerClosed := true, codes := s.codes + [1])
  }

  function Step(s: State, e: Event): State {
    if !Enabled(s, e) then s
    else match e
      case Accept => s.(acceptor := Connected)
      case AcceptFails => s.(acceptor := AcceptFailed, acceptError := s.acceptError || !s.listenerClosed)
      case LookAtStop => (if s.stopAccepting then s else Fatal(s)).(acceptor := AcceptorDone)
      case Once => if s.onceDone then s.(acceptor := Processing) else s.(acceptor := SendingConnected, onceDone := true)
      case LinkRequest => s.(links := s.links + 1)
      case ConnectionEnds => s.(acceptor := Accepting)
      case MeetConnected => s.(acceptor := SendingInit, main := AwaitingInit)
      case MeetInit => s.(acceptor := AwaitingStarted, main := AwaitingEnded, runner := Starting)
      case MeetStarted => s.(acceptor := Processing, runner := Waiting)
      case MeetEnded => s.(main := Leaving, runner := RunnerDone, exitCode := 0)
      case Timeout => s.(main := Leaving, timedOut := true, exitCode := 2)
      case CloseStop => s.(main := StopClosed, stopAccepting := true)
      case CloseListener => s.(main := ListenerShut, listenerClosed := true)
      case Terminate => s.(main := MainDone, codes := s.codes + [s.exitCode])
      case StartSucceeds => s.(runner := SendingStarted, starts := s.starts + 1, started := true)
      case StartFails => Fatal(s.(runner := RunnerDone, starts := s.starts + 1))
      case ChildEnds => s.(runner := SendingEnded, ended := true)
  }

  function Run(events: seq<Event>): State {
    if events == [] then INIT else Step(Run(events[..|events|-1]), events[|events|-1])
  }

  // ------------------------------------------------------------ invariant

  predicate Left(m: MainRoutine) {
    m == Leaving || m == StopClosed || m == ListenerShut || m == MainDone
  }

  /** Where the three routines can stand relative to one another. */
  ghost predicate Places(s: State) {
    && (s.acceptor == SendingInit <==> s.main == AwaitingInit)
    && (s.runner == NoRunner <==> (s.main == Selecting || s.main == AwaitingInit || s.timedOut))
    && (s.timedOut ==> Left(s.main))
    && (!s.onceDone ==> s.acceptor in {Accepting, AcceptFailed, Connected, AcceptorDone})
    && (!s.onceDone ==> s.main == Selecting || s.timedOut)
    && (s.runner != NoRunner && !s.started ==> s.acceptor == AwaitingStarted && s.main == AwaitingEnded)
    && (s.onceDone && s.runner == NoRunner ==> s.acceptor in {SendingConnected, SendingInit})
    && (s.runner == SendingStarted ==> s.acceptor == AwaitingStarted)
    && (s.runner in {Starting, SendingStarted, Waiting, SendingEnded} ==> s.main == AwaitingEnded)
    && (s.acceptor == AwaitingStarted ==>
      s.main == AwaitingEnded && (s.runner in {Starting, SendingStarted} || !s.started))
    && (Left(s.main) <==> s.timedOut || s.exitCode == 0)
    && (s.runner == RunnerDone && s.started ==> Left(s.main))
    && (s.acceptor == SendingConnected ==> s.main == Selecting || s.timedOut)
  }

  ghost predicate Child(s: State) {
    && s.starts == (if s.runner == NoRunner || s.runner == Starting then 0 else 1)
    && (s.started ==> s.starts == 1)
    && (s.runner in {SendingStarted, Waiting, SendingEnded} ==> s.started)
    && (s.acceptor == Processing || s.links > 0 ==> s.started)
    && (s.exitCode == 0 || s.runner == SendingEnded ==> s.ended && s.started)
    && s.exitCode == (if s.timedOut then 2 else if Left(s.main) then 0 else 1)
  }

  ghost predicate Codes(s: State) {
    && (s.stopAccepting <==> s.main in {StopClosed, ListenerShut, MainDone})
    && (forall c :: c in s.codes ==> c == 0 || c == 1 || c == 2)
    && (0 in s.codes ==> s.exitCode == 0)
    && (2 in s.codes ==> s.timedOut)
    && (1 in s.codes ==> s.acceptError || StartFailed(s))
    && (s.listenerClosed ==> s.stopAccepting || s.acceptor == AcceptorDone || StartFailed(s))
    && (s.acceptor == AcceptFailed ==> s.acceptError || s.stopAccepting)
    && (s.acceptor != AcceptorDone && s.main != MainDone ==> s.codes == if StartFailed(s) then [1] else [])
    && (s.main == MainDone || (s.acceptor == AcceptorDone && !s.stopAccepting) ==> s.codes != [])
  }

  predicate StartFailed(s: State) {
    s.starts == 1 && !s.started
  }

  ghost predicate Inv(s: State) {
    Places(s) && Child(s) && Codes(s)
  }

  lemma PlacesStep(s: State, e: Event)
    requires Inv(s)
    ensures Places(Step(s, e))
  {
  }

  lemma ChildStep(s: State, e: Event)
    requires Inv(s)
    ensures Child(Step(s, e))
  {
  }

  lemma CodesStep(s: State, e: Event)
    requires Inv(s)
    ensures Codes(Step(s, e))
  {
  }

  lemma {:induction false} InvRun(events: seq<Event>)
    ensures Inv(Run(events))
  {
    if events != [] {
      var before, last := events[..|events|-1], events[|events|-1];
      InvRun(before);
      PlacesStep(Run(before), last);
      ChildStep(Run(before), last);
      CodesStep(Run(before), last);
    }
  }

  // ------------------------------------------------------------- theorems

  /** In every interleaving: the child is started at most once and only for a connection, no
      link request is processed before it has started, exit code 0 is sent only after it has
      ended, and after the timeout it is never started. */
  lemma SpawnIsSafe(events: seq<Event>)
    ensures var s := Run(events);
      && s.starts <= 1
      && (s.starts > 0 ==> s.onceDone)
      && (s.links > 0 || Enabled(s, LinkRequest) ==> s.started)
      && (0 in s.codes ==> s.ended)
      && (2 in s.codes ==> s.timedOut)
      && (s.timedOut ==> s.starts == 0 && s.links == 0)
  {
    InvRun(events);
  }

  /** Code 1 means that Start failed or that Accept failed on an open listener: the closing of
      the listener at the end is never taken for a failure. */
  lemma FatalHasACause(events: seq<Event>)
    ensures var s := Run(events);
      && (1 in s.codes ==> s.acceptError || StartFailed(s))
      && (StartFailed(s) ==> s.codes == [1])
  {
    InvRun(events);
  }

  lemma RunSnoc(events: seq<Event>, e: Event)
    ensures Run(events + [e]) == Step(Run(events), e)
  {
    assert (events + [e])[..|events|] == events;
  }

  lemma StuckStep(s: State, e: Event)
    requires Inv(s) && StartFailed(s)
    ensures StartFailed(Step(s, e)) && Step(s, e) == s
  {
  }

  /** After a failed Start none of the three routines goes on: spawn does not return, no link
      request is processed, and the only code sent is 1, with which the process exits. */
  lemma {:induction false} FailedStartIsFinal(events: seq<Event>, more: seq<Event>)
    requires StartFailed(Run(events))
    ensures Run(events + more) == Run(events)
    decreases |more|
  {
    if more == [] {
      assert events + more == events;
    } else {
      var before, last := more[..|more|-1], more[|more|-1];
      FailedStartIsFinal(events, before);
      RunSnoc(events + before, last);
      assert events + more == events + before + [last];
      InvRun(events);
      StuckStep(Run(events), last);
    }
  }

  // ------------------------------------------------- whether spawn can return

  /** An event that brings the main routine nearer to its end. */
  function Onwards(s: State): Event {
    match s.main
    case Selecting => Timeout
    case AwaitingInit => MeetInit
    case AwaitingEnded =>
      if s.runner == Starting then StartSucceeds
      else if s.runner == SendingStarted then MeetStarted
      else if s.runner == Waiting then ChildEnds
      else MeetEnded
    case Leaving => CloseStop
    case StopClosed => CloseListener
    case ListenerShut => Terminate
    case MainDone => Terminate
  }

  function Distance(s: State): nat {
    match s.main
    case AwaitingInit => 8
    case AwaitingEnded =>
      if s.runner == Starting then 7
      else if s.runner == SendingStarted then 6
      else if s.runner == Waiting then 5
      else 4
    case Selecting => 4
    case Leaving => 3
    case StopClosed => 2
    case ListenerShut => 1
    case MainDone => 0
  }

  lemma OnwardsIsNearer(s: State)
    requires Inv(s) && !StartFailed(s) && s.main != MainDone
    ensures !StartFailed(Step(s, Onwards(s))) && Distance(Step(s, Onwards(s))) < Distance(s)
  {
  }

  lemma NearerAfter(events: seq<Event>, e: Event)
    requires !StartFailed(Run(events)) && Run(events).main != MainDone && e == Onwards(Run(events))
    ensures !StartFailed(Run(events + [e])) && Distance(Run(events + [e])) < Distance(Run(events))
  {
    InvRun(events);
    OnwardsIsNearer(Run(events));
    RunSnoc(events, e);
  }

  lemma {:induction false} CanFinish(events: seq<Event>) returns (more: seq<Event>)
    requires !StartFailed(Run(events))
    ensures Run(events + more).main == MainDone
    decreases Distance(Run(events))
  {
    var s := Run(events);
    if s.main == MainDone {
      more := [];
      assert events + more == events;
    } else {
      var e := Onwards(s);
      NearerAfter(events, e);
      var rest := CanFinish(events + [e]);
      more := [e] + rest;
      assert events + more == events + [e] + rest;
    }
  }

  /** From whatever has happened, the call of spawn can still return exactly unless Start has failed. */
  lemma FinishesUnlessStartFailed(events: seq<Event>)
    ensures (exists more :: Run(events + more).main == MainDone) <==> !StartFailed(Run(events))
  {
    if StartFailed(Run(events)) {
      InvRun(events);
      forall more ensures Run(events + more).main != MainDone {
        FailedStartIsFinal(events, more);
      }
    } else {
      var more := CanFinish(events);
    }
  }

  const FAILED_START := [Accept, Once, MeetConnected, MeetInit, StartFails]

  lemma FiveSteps(events: seq<Event>)
    requires |events| == 5
    ensures Run(events) == Step(Step(Step(Step(Step(INIT, events[0]), events[1]), events[2]), events[3]), events[4])
  {
    assert events[..4][..3] == events[..3] && events[..3][..2] == events[..2] && events[..2][..1] == events[..1];
    assert Run(events[..1]) == Step(INIT, events[0]);
    assert Run(events[..3]) == Step(Run(events[..2]), events[2]);
  }

  /** A run in which Start fails: code 1 is sent, and spawn does not return. */
  lemma StartCanFail(events: seq<Event>)
    requires events == FAILED_START
    ensures StartFailed(Run(events)) && Run(events).codes == [1] && Run(events).main == AwaitingEnded
  {
    FiveSteps(events);
    var s := Rendezvous();
    Failing(s);
  }

  lemma Rendezvous() returns (s: State)
    ensures s == Step(Step(Step(INIT, Accept), Once), MeetConnected)
    ensures s.acceptor == SendingInit && s.main == AwaitingInit && s.starts == 0 && !s.started && s.codes == []
  {
    s := Step(Step(Step(INIT, Accept), Once), MeetConnected);
  }

  lemma Failing(s: State)
    requires s.acceptor == SendingInit && s.main == AwaitingInit && s.starts == 0 && !s.started && s.codes == []
    ensures var t := Step(Step(s, MeetInit), StartFails); StartFailed(t) && t.codes == [1] && t.main == AwaitingEnded
  {
  }

  // -------------------------------------------- the exit status of the process

  /** The daemon exits with the first code that is sent to terminate.  Which status it can still exit with: once a
      code has been sent, that one.  Before, 0 unless the timeout was taken or the acceptor has given up before a
      connection; 2 if the timeout was taken or still can be; and 1, from a failed Start or Accept, until
      stopAccepting is closed, unless the first connection came too late for the main routine. */
  predicate CanExitWith(s: State, code: int) {
    if s.codes != [] then s.codes[0] == code
    else match code
      case 0 => !s.timedOut && !(s.main == Selecting && s.acceptor == AcceptFailed)
      case 1 => !s.stopAccepting && !(s.timedOut && s.acceptor in {Connected, SendingConnected})
      case 2 => s.timedOut || s.main == Selecting
      case _ => false
  }

  lemma CannotStays(s: State, e: Event, code: int)
    requires Inv(s) && !CanExitWith(s, code)
    ensures !CanExitWith(Step(s, e), code)
  {
  }

  lemma CannotAfter(events: seq<Event>, e: Event, code: int)
    requires !CanExitWith(Run(events), code)
    ensures !CanExitWith(Run(events + [e]), code)
  {
    InvRun(events);
    CannotStays(Run(events), e, code);
    RunSnoc(events, e);
  }

  lemma {:induction false} CannotRun(events: seq<Event>, more: seq<Event>, code: int)
    requires !CanExitWith(Run(events), code)
    ensures !CanExitWith(Run(events + more), code)
    decreases |more|
  {
    if more == [] {
      assert events + more == events;
    } else {
      var before, last := more[..|more|-1], more[|more|-1];
      CannotRun(events, before, code);
      CannotAfter(events + before, last, code);
      assert events + more == events + before + [last];
    }
  }

  /** An event that brings the given status nearer. */
  function Towards(s: State, code: int): Event {
    if code == 1 then
      match s.acceptor
      case AcceptFailed => LookAtStop
      case Accepting => AcceptFails
      case Processing => ConnectionEnds
      case Connected => Once
      case SendingConnected => MeetConnected
      case SendingInit => MeetInit
      case AwaitingStarted => if s.runner == Starting then StartFails else MeetStarted
      case AcceptorDone => LookAtStop
    else if code == 0 && s.main == Selecting then
      if s.acceptor == Accepting then Accept else if s.acceptor == Connected then Once else MeetConnected
    else Onwards(s)
  }

  function StepsTo(s: State, code: int): nat {
    if code == 1 then
      match s.acceptor
      case AcceptFailed => 1
      case Accepting => 2
      case Processing => 3
      case AwaitingStarted => if s.runner == Starting then 5 else 4
      case SendingInit => 6
      case SendingConnected => 7
      case Connected => 8
      case AcceptorDone => 0
    else if code == 0 && s.main == Selecting then
      if s.acceptor == Accepting then 11 else if s.acceptor == Connected then 10 else 9
    else Distance(s)
  }

  lemma TowardsIsNearer(s: State, code: int)
    requires Inv(s) && s.codes == [] && CanExitWith(s, code)
    ensures var t := Step(s, Towards(s, code)); CanExitWith(t, code) && (t.codes == [] ==>
      StepsTo(t, code) < StepsTo(s, code))
  {
    if code == 1 {
      TowardsOne(s);
    } else if code == 0 {
      TowardsZero(s);
    }
  }

  lemma TowardsOne(s: State)
    requires Inv(s) && s.codes == [] && CanExitWith(s, 1)
    ensures var t := Step(s, Towards(s, 1)); CanExitWith(t, 1) && (t.codes == [] ==> StepsTo(t, 1) < StepsTo(s, 1))
  {
  }

  lemma TowardsZero(s: State)
    requires Inv(s) && s.codes == [] && CanExitWith(s, 0)
    ensures var t := Step(s, Towards(s, 0)); CanExitWith(t, 0) && (t.codes == [] ==> StepsTo(t, 0) < StepsTo(s, 0))
  {
  }

  ghost function StepsLeft(s: State, code: int): nat {
    if s.codes == [] then 1 + StepsTo(s, code) else 0
  }

  lemma NearerStatus(events: seq<Event>, e: Event, code: int)
    requires CanExitWith(Run(events), code) && Run(events).codes == [] && e == Towards(Run(events), code)
    ensures CanExitWith(Run(events + [e]), code)
    ensures StepsLeft(Run(events + [e]), code) < StepsLeft(Run(events), code)
  {
    InvRun(events);
    TowardsIsNearer(Run(events), code);
    RunSnoc(events, e);
  }

  lemma {:induction false} ReachesStatus(events: seq<Event>, code: int) returns (more: seq<Event>)
    requires CanExitWith(Run(events), code)
    ensures Run(events + more).codes != [] && Run(events + more).codes[0] == code
    decreases StepsLeft(Run(events), code)
  {
    var s := Run(events);
    if s.codes != [] {
      more := [];
      assert events + more == events;
    } else {
      var e := Towards(s, code);
      NearerStatus(events, e, code);
      var rest := ReachesStatus(events + [e], code);
      more := [e] + rest;
      assert events + more == events + [e] + rest;
    }
  }

  /** From whatever has happened, exactly these statuses are still possible. */
  lemma ExitStatusIs(events: seq<Event>, code: int)
    ensures (exists more :: Run(events + more).codes != [] && Run(events + more).codes[0] == code) <==>
      CanExitWith(Run(events), code)
  {
    if CanExitWith(Run(events), code) {
      var more := ReachesStatus(events, code);
    } else {
      forall more | Run(events + more).codes != [] ensures Run(events + more).codes[0] != code {
        CannotRun(events, more, code);
      }
    }
  }

  /** The process can always come to its exit, with one of three statuses: 0 only after the child has ended, 2 only
      if it was never started, 1 only for a failed Start or Accept. */
  lemma ProcessCanExit(events: seq<Event>)
    ensures exists more :: Run(events + more).codes != []
    ensures var s := Run(events);
      s.codes != [] ==>
        && s.codes[0] in {0, 1, 2}
        && (s.codes[0] == 0 ==> s.ended)
        && (s.codes[0] == 1 ==> s.acceptError || StartFailed(s))
        && (s.codes[0] == 2 ==> s.starts == 0)
  {
    var s := Run(events);
    InvRun(events);
    if s.codes != [] {
      assert events + [] == events;
      assert s.codes[0] in s.codes;
    } else {
      var more := ReachesStatus(events, if s.timedOut || s.main == Selecting then 2 else 0);
    }
  }

  const ACCEPT_FAILS := [Accept, Once, MeetConnected, MeetInit, StartSucceeds, MeetStarted, ConnectionEnds,
    AcceptFails, LookAtStop]

  /** The process can exit while the child is running: an Accept that fails between two connections is fatal. */
  lemma ExitsWhileChildRuns(events: seq<Event>)
    requires events == ACCEPT_FAILS
    ensures var s := Run(events); s.codes == [1] && s.started && !s.ended
  {
    var s := Rendezvous();
    FiveSteps(events[..5]);
    Served(s);
    var t := Step(Step(s, MeetInit), StartSucceeds);
    assert events[..5] == [Accept, Once, MeetConnected, MeetInit, StartSucceeds];
    assert Run(events[..5]) == t;
    FourMore(events);
  }

  lemma FourMore(events: seq<Event>)
    requires |events| == 9
    ensures Run(events) == Step(Step(Step(Step(Run(events[..5]), events[5]), events[6]), events[7]), events[8])
  {
    assert events[..8][..7] == events[..7] && events[..7][..6] == events[..6] && events[..6][..5] == events[..5];
    assert Run(events[..6]) == Step(Run(events[..5]), events[5]);
    assert Run(events[..8]) == Step(Run(events[..7]), events[7]);
  }

  lemma Served(s: State)
    requires s == Step(Step(Step(INIT, Accept), Once), MeetConnected)
    ensures var t := Step(Step(s, MeetInit), StartSucceeds);
      var u := Step(Step(Step(Step(t, MeetStarted), ConnectionEnds), AcceptFails), LookAtStop);
      u.codes == [1] && u.started && !u.ended
  {
    var t := Step(Step(s, MeetInit), StartSucceeds);
    assert t.acceptor == AwaitingStarted && t.runner == SendingStarted && t.codes == [] && !t.stopAccepting;
    assert t.started && !t.ended;
    Fails(t);
  }

  lemma Fails(t: State)
    requires t.acceptor == AwaitingStarted && t.runner == SendingStarted && t.codes == [] && !t.stopAccepting
    ensures var u := Step(Step(Step(Step(t, MeetStarted), ConnectionEnds), AcceptFails), LookAtStop);
      u.codes == [1] && u.started == t.started && u.ended == t.ended
  {
  }

  // --------------------------------------------------------- one client after another

  /** The connection ends and another client links. */
  function Clients(n: nat): seq<Event> {
    if n == 0 then [] else Clients(n - 1) + [ConnectionEnds, Accept, Once, LinkRequest]
  }

  /** A client is connected, and the listener is open. */
  predicate Serving(s: State) {
    s.acceptor == Processing && !s.listenerClosed
  }

  lemma Reconnects(events: seq<Event>)
    requires Serving(Run(events))
    ensures Run(events + [ConnectionEnds, Accept]) == Run(events).(acceptor := Connected)
  {
    RunSnoc(events, ConnectionEnds);
    RunSnoc(events + [ConnectionEnds], Accept);
    assert events + [ConnectionEnds] + [Accept] == events + [ConnectionEnds, Accept];
  }

  lemma Links(events: seq<Event>)
    requires var s := Run(events); s.acceptor == Connected && s.onceDone
    ensures var s := Run(events); Run(events + [Once, LinkRequest]) == s.(acceptor := Processing, links := s.links + 1)
  {
    RunSnoc(events, Once);
    Linked(events + [Once]);
    assert events + [Once] + [LinkRequest] == events + [Once, LinkRequest];
  }

  lemma Linked(events: seq<Event>)
    requires Run(events).acceptor == Processing
    ensures Run(events + [LinkRequest]) == Run(events).(links := Run(events).links + 1)
  {
    RunSnoc(events, LinkRequest);
  }

  lemma ServesAgain(events: seq<Event>)
    requires Serving(Run(events))
    ensures Run(events + [ConnectionEnds, Accept, Once, LinkRequest]) == Run(events).(links := Run(events).links + 1)
  {
    InvRun(events);
    Reconnects(events);
    Links(events + [ConnectionEnds, Accept]);
    assert events + [ConnectionEnds, Accept] + [Once, LinkRequest] ==
           events + [ConnectionEnds, Accept, Once, LinkRequest];
  }

  /** While the listener is open any number of further clients can link, one after another, without a second start
      and without touching the child or the main routine. */
  lemma {:induction false} ServesClients(events: seq<Event>, n: nat)
    requires Serving(Run(events))
    ensures Run(events + Clients(n)) == Run(events).(links := Run(events).links + n)
  {
    if n == 0 {
      assert events + Clients(0) == events;
    } else {
      ServesClients(events, n - 1);
      OneMoreClient(events, n, events + Clients(n - 1));
    }
  }

  lemma OneMoreClient(events: seq<Event>, n: nat, before: seq<Event>)
    requires n > 0 && before == events + Clients(n - 1)
    requires Serving(Run(before))
    ensures Run(events + Clients(n)) == Run(before).(links := Run(before).links + 1)
  {
    assert before + [ConnectionEnds, Accept, Once, LinkRequest] == events + Clients(n);
    ServesAgain(before);
  }

  /** The listener is closed when the exit code is about to be sent, or by a fatal error, and not otherwise. */
  ghost predicate ListenerAgrees(s: State) {
    s.listenerClosed <==> s.main in {ListenerShut, MainDone} || 1 in s.codes
  }

  lemma ListenerStep(s: State, e: Event)
    requires Inv(s) && ListenerAgrees(s)
    ensures ListenerAgrees(Step(s, e))
  {
    if Enabled(s, e) && e.Terminate? {
      assert s.exitCode != 1;
    } else if Enabled(s, e) && (e.LookAtStop? || e.StartFails?) {
      assert 1 in (s.codes + [1]);
    }
  }

  lemma {:induction false} ListenerIsClosed(events: seq<Event>)
    ensures ListenerAgrees(Run(events))
  {
    if events != [] {
      var before, last := events[..|events|-1], events[|events|-1];
      ListenerIsClosed(before);
      InvRun(before);
      ListenerStep(Run(before), last);
    }
  }

  predicate WithoutClient(s: State) {
    s.listenerClosed && s.acceptor in {Accepting, AcceptFailed, AcceptorDone}
  }

  lemma NoClient(s: State, e: Event)
    requires WithoutClient(s)
    ensures WithoutClient(Step(s, e)) && Step(s, e).links == s.links
  {
  }

  /** Once it is closed and the last connection has ended, no link request is processed any more. */
  lemma {:induction false} ServesNoMore(events: seq<Event>, more: seq<Event>)
    requires WithoutClient(Run(events))
    ensures WithoutClient(Run(events + more)) && Run(events + more).links == Run(events).links
    decreases |more|
  {
    if more == [] {
      assert events + more == events;
    } else {
      var before, last := more[..|more|-1], more[|more|-1];
      ServesNoMore(events, before);
      NoClient(Run(events + before), last);
      RunSnoc(events + before, last);
      assert events + more == events + before + [last];
    }
  }
}
