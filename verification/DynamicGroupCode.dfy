/** The event loop as the program has it: a set of process objects, a client, a counter, and three channel
    variables that are set to nil to stop receiving from them. */
module DynamicGroupCode {
  import opened DynamicGroup
  import DynamicGroupStop

  /** A running process, by the number of signals it has been sent. */
  datatype Process = Process(signals: nat)

  class ProcessSet {
    var processes: map<string, Process>
    var shutdown: bool

    /** The names of the processes that have been signalled. */
    ghost function Signalled(): set<string>
      reads this
    {
      set n | n in processes && processes[n].signals > 0
    }

    constructor ()
      ensures processes == map[] && !shutdown
    {
      processes, shutdown := map[], false;
    }

    method Signal()
      modifies this
      ensures processes.Keys == old(processes.Keys) && shutdown && Signalled() == processes.Keys
      ensures forall n :: n in processes ==> processes[n].signals == old(processes)[n].signals + 1
    {
      shutdown := true;
      var rest := processes.Keys;
      while rest != {}
        invariant processes.Keys == old(processes.Keys) && shutdown && rest <= processes.Keys
        invariant forall n :: n in processes ==>
          processes[n].signals == old(processes)[n].signals + if n in rest then 0 else 1
        decreases |rest|
      {
        var n :| n in rest;
        processes := processes[n := Process(processes[n].signals + 1)];
        rest := rest - {n};
      }
    }

    /** Refuses a name that is taken, where the program panics. */
    method Add(name: string, process: Process) returns (ok: bool)
      modifies this
      ensures shutdown == old(shutdown) && ok == (name !in old(processes))
      ensures processes == if ok then old(processes)[name := process] else old(processes)
    {
      ok := name !in processes;
      if ok {
        processes := processes[name := process];
      }
    }

    method Remove(name: string)
      modifies this
      ensures shutdown == old(shutdown) && processes == old(processes) - {name}
    {
      processes := processes - {name};
    }
  }

  /** What the group shows to its client; the broadcasters are the events sent so far. */
  class Client {
    var closed: bool
    var inserterClosed: bool
    var entrances: seq<string>
    var exits: seq<string>
    var entranceClosed: bool
    var exitClosed: bool

    constructor ()
      ensures !closed && !inserterClosed && entrances == [] && exits == [] && !entranceClosed && !exitClosed
    {
      closed, inserterClosed, entrances, exits, entranceClosed, exitClosed := false, false, [], [], false, false;
    }
  }

  class Group {
    const config: Config
    const processes: ProcessSet
    const client: Client
    var insertEvents: bool                // not nil
    var closeNotifier: bool               // not nil
    var entranceEvents: bool              // not nil
    var invoking: int
    var watchers: map<string, Stage>      // the goroutines that wait for a member's events
    var status: Status
    ghost var started: seq<string>
    ghost var signalled: set<string>

    ghost function Repr(): set<object> {
      {this, processes, client}
    }

    /** There is a goroutine for each process, and the processes signalled are the ones recorded. */
    ghost predicate Valid()
      reads this, processes
    {
      && processes.processes.Keys == watchers.Keys
      && processes.Signalled() == signalled * watchers.Keys
    }

    ghost function View(): State
      reads this, processes, client
    {
      State(watchers, processes.shutdown, signalled, insertEvents, closeNotifier, entranceEvents, invoking,
            client.closed, client.inserterClosed, client.entranceClosed, client.exitClosed, status,
            started, client.entrances, client.exits)
    }

    constructor (config: Config)
      ensures Valid() && View() == INIT && this.config == config && fresh(Repr())
    {
      this.config := config;
      processes := new ProcessSet();
      client := new Client();
      insertEvents, closeNotifier, entranceEvents, invoking := true, true, true, 0;
      watchers, status, started, signalled := map[], Running, [], {};
    }

    /** Whether the select can receive the event: its channel is not nil, and somebody sends. */
    predicate Receives(e: Event)
      reads this, processes, client
      ensures Receives(e) == Enabled(View(), e)
    {
      match e
      case ClientClose => true
      case CloseInserter => !client.inserterClosed
      case Signal => status == Running
      case Request(_) => status == Running
      case CloseSeen => status == Running && closeNotifier && client.closed
      case Insert(_) => status == Running && insertEvents && !client.inserterClosed
      case InsertsEnd => status == Running && insertEvents && client.inserterClosed
      case Entrance(name) => status == Running && entranceEvents && name in watchers && watchers[name] == Invoking
      case Exit(name) => status == Running && name in watchers && watchers[name] == Entered
    }

    /** One turn of the loop for an event that can be received now. */
    method Take(e: Event)
      requires Valid() && Receives(e)
      modifies Repr()
      ensures Valid() && View() == Step(config, old(View()), e)
    {
      match e {
        case Signal => HandleSignal();
        case CloseSeen => HandleClose();
        case Request(name) =>
        case Insert(name) => HandleInsert(name);
        case InsertsEnd =>
          client.closed := true;
          insertEvents := false;
        case Entrance(name) => HandleEntrance(name);
        case Exit(name) => HandleExit(name);
        case ClientClose => client.closed := true;
        case CloseInserter => client.inserterClosed := true;
      }
    }

    method HandleSignal()
      requires Valid()
      modifies Repr()
      ensures Valid()
      ensures View() == var s := old(View()); s.(shutdown := true, signalled := s.signalled +
        s.members.Keys, closed := true)
    {
      processes.Signal();
      client.closed := true;
      signalled := signalled + watchers.Keys;
    }

    method HandleClose()
      requires Valid()
      modifies this, client
      ensures Valid() && View() == OnCloseSeen(old(View()))
    {
      SameSize(processes.processes, watchers);
      closeNotifier := false;
      insertEvents := false;
      if |processes.processes| == 0 {
        CloseBroadcasters();
      } else if invoking == 0 {
        client.entranceClosed := true;
      }
    }

    method CloseBroadcasters()
      modifies this`status, client`entranceClosed, client`exitClosed
      ensures client.entranceClosed && client.exitClosed && status == Returned
    {
      client.entranceClosed := true;
      client.exitClosed := true;
      status := Returned;
    }

    method HandleInsert(name: string)
      requires Valid() && insertEvents
      modifies this, processes
      ensures Valid() && View() == OnInsert(config, old(View()), name)
    {
      var ok := AddProcess(name);
      if ok {
        CountInsert();
      } else {
        status := Panicked;
      }
    }

    method CountInsert()
      requires Valid() && insertEvents
      modifies this`insertEvents, this`invoking
      ensures Valid()
      ensures View() == var s := old(View()); s.(invoking := s.invoking +
        1, inserting := |s.members| != config.poolSize)
    {
      SameSize(processes.processes, watchers);
      if |processes.processes| == config.poolSize {
        insertEvents := false;
      }
      invoking := invoking + 1;
    }

    method AddProcess(name: string) returns (ok: bool)
      requires Valid()
      modifies this, processes
      ensures Valid() && ok == (name !in old(watchers))
      ensures View() == if ok then Admit(old(View()), name) else old(View())
    {
      ok := processes.Add(name, Process(0));
      if ok {
        watchers, started, signalled := watchers[name := Invoking], started + [name], signalled - {name};
        assert watchers.Keys == old(watchers.Keys) + {name};
        assert signalled * watchers.Keys == old(signalled) * old(watchers.Keys);
      }
    }

    method HandleEntrance(name: string)
      requires Valid() && name in watchers
      modifies this, client
      ensures Valid() && View() == OnEntrance(old(View()), name)
    {
      watchers := watchers[name := Entered];
      invoking := invoking - 1;
      client.entrances := client.entrances + [name];
      if !closeNotifier && invoking == 0 {
        client.entranceClosed := true;
        entranceEvents := false;
      }
    }

    method HandleExit(name: string)
      requires Valid()
      modifies Repr()
      ensures Valid() && View() == OnExit(config, old(View()), name)
    {
      LeaveGroup(name);
      SettleGroup();
    }

    method SettleGroup()
      requires Valid()
      modifies this`status, this`insertEvents, client`entranceClosed, client`exitClosed
      ensures Valid() && View() == Settle(old(View()))
    {
      SameSize(processes.processes, watchers);
      if (|processes.processes| == 0 && processes.shutdown) || (|processes.processes| == 0 && !insertEvents) {
        CloseBroadcasters();
      } else if !processes.shutdown && closeNotifier {
        insertEvents := true;
      }
    }

    /** The first half of the exit case: the member leaves, and the others are signalled if its exit ends the group. */
    method LeaveGroup(name: string)
      requires Valid()
      modifies Repr()
      ensures Valid() && View() == Leave(config, old(View()), name)
    {
      RemoveProcess(name);
      if !processes.shutdown && config.terminates {
        HandleSignal();
        insertEvents := false;
      }
    }

    method RemoveProcess(name: string)
      requires Valid()
      modifies this, processes, client
      ensures Valid()
      ensures View() == var s := old(View()); s.(members := s.members - {name}, exits := s.exits + [name])
    {
      processes.Remove(name);
      watchers := watchers - {name};
      client.exits := client.exits + [name];
      assert watchers.Keys == old(watchers.Keys) - {name};
      assert signalled * watchers.Keys == signalled * old(watchers.Keys) - {name};
    }
  }

  lemma SameSize<S, T>(a: map<string, S>, b: map<string, T>)
    requires a.Keys == b.Keys
    ensures |a| == |b|
  {
    assert |a| == |a.Keys| && |b| == |b.Keys|;
  }

  /** The loop, fed with whatever the environment offers; what cannot be received is left where it is.  The
      objects end up as the transitions say, so what is proved of every run holds of them. */
  method RunLoop(config: Config, schedule: seq<Event>) returns (g: Group)
    ensures fresh(g.Repr()) && g.Valid() && g.config == config && g.View() == Run(config, schedule)
    ensures config.poolSize >= 1 ==> |g.processes.processes| <= config.poolSize
    ensures g.client.closed <==> exists k :: 0 <= k < |schedule| && DynamicGroupStop.AskedAt(config, schedule, k)
    ensures g.status == Returned ==>
      g.processes.processes == map[] && multiset(g.client.entrances) == multiset(g.client.exits)
  {
    g := new Group(config);
    assert schedule[..0] == [];
    for i := 0 to |schedule|
      invariant fresh(g.Repr()) && g.Valid() && g.config == config && g.View() == Run(config, schedule[..i])
    {
      RunSnoc(config, schedule[..i], schedule[i]);
      assert schedule[..i+1] == schedule[..i] + [schedule[i]];
      if g.Receives(schedule[i]) {
        g.Take(schedule[i]);
      }
    }
    assert schedule[..|schedule|] == schedule;
    RunIsSafe(config, schedule);
    DynamicGroupStop.ClosedIsAsked(config, schedule);
    ReturnIsComplete(config, schedule);
    InvRunFrom(config, INIT, schedule);
    SameSize(g.processes.processes, g.watchers);
  }
}
