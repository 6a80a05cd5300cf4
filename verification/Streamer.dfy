/** An output stream of the server: writers that drop what does not fit, a bounded channel,
    and one reader that drains it to a connection after the stream is stopped. */
module Streamer {

  type Chunk = seq<bv8>

  datatype Reader = Absent | Looping | Draining | Returned

  datatype State = State(
    queue: seq<Chunk>,
    reader: Reader,
    done: bool,             // the done channel is closed
    written: seq<Chunk>,    // everything passed to Write
    accepted: seq<Chunk>,   // what the channel took
    delivered: seq<Chunk>,  // what the connection was sent
    dropped: nat,
    atStop: nat,            // how many chunks were accepted when done was closed,
    writtenAtStop: nat,     // written,
    droppedAtStop: nat)     // and dropped

  /** `parked` says that the reader is waiting in its select, so that an unbuffered send meets it. */
  datatype Event =
    | Write(chunk: Chunk, parked: bool)
    | Stop
    | Attach      // the handler enters its loop
    | Receive     // case output := <-ch in the outer select
    | SeeDone     // case <-done
    | Drain       // case output := <-ch in the inner select
    | Return      // its default case

  const INIT := State([], Absent, false, [], [], [], 0, 0, 0, 0)

  predicate Enabled(s: State, e: Event) {
    match e
    case Write(_, _) => true
    case Stop => !s.done
    case Attach => s.reader == Absent
    case Receive => s.reader == Looping && s.queue != []
    case SeeDone => s.reader == Looping && s.done
    case Drain => s.reader == Draining && s.queue != []
    case Return => s.reader == Draining && s.queue == []
  }

  function Deliver(s: State): State
    requires s.queue != []
  {
    s.(queue := s.queue[1..], delivered := s.delivered + [s.queue[0]])
  }

  function OnWrite(capacity: nat, s: State, chunk: Chunk, parked: bool): State {
    var s := s.(written := s.written + [chunk]);
    if |s.queue| < capacity then
      s.(queue := s.queue + [chunk], accepted := s.accepted + [chunk])
    else if capacity == 0 && parked && s.reader == Looping then
      s.(accepted := s.accepted + [chunk], delivered := s.delivered + [chunk])
    else
      s.(dropped := s.dropped + 1)
  }

  function Step(capacity: nat, s: State, e: Event): State {
    if !Enabled(s, e) then s
    else match e
      case Write(chunk, parked) => OnWrite(capacity, s, chunk, parked)
      case Stop =>
        s.(done := true, atStop := |s.accepted|, writtenAtStop := |s.written|, droppedAtStop := s.dropped)
      case Attach => s.(reader := Looping)
      case Receive => Deliver(s)
      case SeeDone => s.(reader := Draining)
      case Drain => Deliver(s)
      case Return => s.(reader := Returned)
  }

  function RunFrom(capacity: nat, s: State, events: seq<Event>): State
    decreases |events|
  {
    if events == [] then s else RunFrom(capacity, Step(capacity, s, events[0]), events[1..])
  }

  function Run(capacity: nat, events: seq<Event>): State {
    RunFrom(capacity, INIT, events)
  }

  // ------------------------------------------------------------ invariant

  /** a can be got from b by leaving out n elements. */
  predicate Thinned<T(==)>(a: seq<T>, b: seq<T>, n: nat)
    decreases |b|
  {
    if b == [] then a == [] && n == 0
    else
      || (a != [] && a[|a|-1] == b[|b|-1] && Thinned(a[..|a|-1], b[..|b|-1], n))
      || (n > 0 && Thinned(a, b[..|b|-1], n - 1))
  }

  lemma ThinnedKeep<T>(a: seq<T>, b: seq<T>, n: nat, x: T)
    requires Thinned(a, b, n)
    ensures Thinned(a + [x], b + [x], n)
  {
    assert (a + [x])[..|a|] == a && (b + [x])[..|b|] == b;
  }

  lemma ThinnedDrop<T>(a: seq<T>, b: seq<T>, n: nat, x: T)
    requires Thinned(a, b, n)
    ensures Thinned(a, b + [x], n + 1)
  {
    assert (b + [x])[..|b|] == b;
  }

  lemma {:induction false} ThinnedNone<T>(a: seq<T>, b: seq<T>)
    requires Thinned(a, b, 0)
    ensures a == b
    decreases |b|
  {
    if b != [] {
      ThinnedNone(a[..|a|-1], b[..|b|-1]);
      assert a == a[..|a|-1] + [a[|a|-1]] && b == b[..|b|-1] + [b[|b|-1]];
    }
  }

  /** What had been accepted at the stop is what had been written less the chunks dropped by then. */
  ghost predicate Cut(s: State) {
    && s.atStop <= |s.accepted| && s.writtenAtStop <= |s.written|
    && Thinned(s.accepted[..s.atStop], s.written[..s.writtenAtStop], s.droppedAtStop)
  }

  ghost predicate Flows(capacity: nat, s: State) {
    s.accepted == s.delivered + s.queue && |s.queue| <= capacity && Thinned(s.accepted, s.written, s.dropped)
  }

  ghost predicate Inv(capacity: nat, s: State) {
    && Flows(capacity, s)
    && (s.reader == Draining || s.reader == Returned ==> s.done)
    && (s.done ==> Cut(s))
    && (s.reader == Returned ==> s.atStop <= |s.delivered|)
  }

  lemma DeliverKeeps(capacity: nat, s: State)
    requires Inv(capacity, s) && s.queue != [] && s.reader != Returned
    ensures Inv(capacity, Deliver(s))
  {
    assert s.delivered + s.queue == s.delivered + [s.queue[0]] + s.queue[1..];
  }

  lemma WriteFlows(capacity: nat, s: State, chunk: Chunk, parked: bool)
    requires Flows(capacity, s)
    ensures Flows(capacity, OnWrite(capacity, s, chunk, parked))
  {
    if |s.queue| < capacity {
      Enqueue(capacity, s, chunk);
    } else if capacity == 0 && parked && s.reader == Looping {
      HandOver(s, chunk);
    } else {
      ThinnedDrop(s.accepted, s.written, s.dropped, chunk);
    }
  }

  lemma WriteKeeps(capacity: nat, s: State, chunk: Chunk, parked: bool)
    requires Inv(capacity, s)
    ensures Inv(capacity, OnWrite(capacity, s, chunk, parked))
  {
    WriteFlows(capacity, s, chunk, parked);
    if s.done {
      WriteExtends(capacity, s, chunk, parked);
      CutKeeps(s, OnWrite(capacity, s, chunk, parked));
    }
  }

  lemma WriteExtends(capacity: nat, s: State, chunk: Chunk, parked: bool)
    ensures var t := OnWrite(capacity, s, chunk, parked);
      && s.accepted <= t.accepted && s.written <= t.written
      && t.atStop == s.atStop && t.writtenAtStop == s.writtenAtStop && t.droppedAtStop == s.droppedAtStop
  {
  }

  lemma CutKeeps(s: State, t: State)
    requires Cut(s) && s.accepted <= t.accepted && s.written <= t.written
    requires t.atStop == s.atStop && t.writtenAtStop == s.writtenAtStop && t.droppedAtStop == s.droppedAtStop
    ensures Cut(t)
  {
    assert t.accepted[..t.atStop] == s.accepted[..s.atStop];
    assert t.written[..t.writtenAtStop] == s.written[..s.writtenAtStop];
  }

  lemma Enqueue(capacity: nat, s: State, chunk: Chunk)
    requires Flows(capacity, s)
    ensures Thinned(s.accepted + [chunk], s.written + [chunk], s.dropped)
    ensures s.accepted + [chunk] == s.delivered + (s.queue + [chunk])
  {
    ThinnedKeep(s.accepted, s.written, s.dropped, chunk);
  }

  lemma HandOver(s: State, chunk: Chunk)
    requires Flows(0, s)
    ensures Thinned(s.accepted + [chunk], s.written + [chunk], s.dropped)
    ensures s.accepted + [chunk] == s.delivered + [chunk] + s.queue
  {
    ThinnedKeep(s.accepted, s.written, s.dropped, chunk);
  }

  lemma InvStep(capacity: nat, s: State, e: Event)
    requires Inv(capacity, s)
    ensures Inv(capacity, Step(capacity, s, e))
  {
    if Enabled(s, e) {
      if e.Write? {
        WriteKeeps(capacity, s, e.chunk, e.parked);
      } else if e.Receive? || e.Drain? {
        DeliverKeeps(capacity, s);
      } else if e.Stop? {
        assert s.accepted[..|s.accepted|] == s.accepted && s.written[..|s.written|] == s.written;
      }
    }
  }

  lemma {:induction false} InvRunFrom(capacity: nat, s: State, events: seq<Event>)
    requires Inv(capacity, s)
    ensures Inv(capacity, RunFrom(capacity, s, events))
    decreases |events|
  {
    if events != [] {
      InvStep(capacity, s, events[0]);
      InvRunFrom(capacity, Step(capacity, s, events[0]), events[1..]);
    }
  }

  // ------------------------------------------------------------- theorems

  /** The connection is sent the accepted chunks in order, each once: what was delivered is a
      prefix of what was accepted, the rest is waiting in the channel, and what was accepted is
      what was written less the dropped chunks, namely the chunks of the writes that fit. */
  lemma DeliveredInOrder(capacity: nat, events: seq<Event>)
    ensures var s := Run(capacity, events);
      && s.delivered <= s.accepted
      && s.accepted[|s.delivered|..] == s.queue && |s.queue| <= capacity
      && Thinned(s.accepted, s.written, s.dropped)
      && (s.dropped == 0 ==> s.accepted == s.written)
      && s.accepted == Taken(capacity, events) && s.written == Chunks(events)
      && (s.accepted == s.written <==> AllFit(capacity, events))
  {
    InvRunFrom(capacity, INIT, events);
    AcceptedIsTaken(capacity, events);
    AllIsTaken(capacity, events);
    var s := Run(capacity, events);
    if s.dropped == 0 {
      ThinnedNone(s.accepted, s.written);
    }
  }

  /** When the handler has returned, everything accepted before the stop has been delivered; if
      no write before the stop found the channel full, that is everything written before it. */
  lemma StopLosesNothing(capacity: nat, events: seq<Event>)
    ensures var s := Run(capacity, events);
      s.reader == Returned ==>
        && s.done && Cut(s)
        && s.atStop <= |s.delivered| <= |s.accepted|
        && s.accepted[..s.atStop] <= s.delivered
        && (s.droppedAtStop == 0 ==> s.written[..s.writtenAtStop] <= s.delivered)
  {
    InvRunFrom(capacity, INIT, events);
    DeliveredInOrder(capacity, events);
    var s := Run(capacity, events);
    if s.reader == Returned && s.droppedAtStop == 0 {
      ThinnedNone(s.accepted[..s.atStop], s.written[..s.writtenAtStop]);
    }
  }

  lemma {:induction false} RunFromConcat(capacity: nat, s: State, first: seq<Event>, second: seq<Event>)
    ensures RunFrom(capacity, s, first + second) == RunFrom(capacity, RunFrom(capacity, s, first), second)
    decreases |first|
  {
    if first == [] {
      assert first + second == second;
    } else {
      assert (first + second)[1..] == first[1..] + second;
      RunFromConcat(capacity, Step(capacity, s, first[0]), first[1..], second);
    }
  }

  lemma {:induction false} ReturnedStays(capacity: nat, s: State, events: seq<Event>)
    requires s.reader == Returned
    ensures var t := RunFrom(capacity, s, events); t.reader == Returned && t.delivered == s.delivered
    decreases |events|
  {
    if events != [] {
      ReturnedStays(capacity, Step(capacity, s, events[0]), events[1..]);
    }
  }

  /** At the moment the handler returns the channel is empty, so exactly the chunks accepted up
      to then are delivered; a chunk accepted later never is. */
  lemma ReturnIsTheCut(capacity: nat, events: seq<Event>, more: seq<Event>)
    requires Enabled(Run(capacity, events), Return)
    ensures var s, t := Run(capacity, events), Run(capacity, events + [Return] + more);
      t.reader == Returned && t.delivered == s.accepted == s.delivered
  {
    InvRunFrom(capacity, INIT, events);
    RunFromConcat(capacity, INIT, events, [Return]);
    RunFromConcat(capacity, INIT, events + [Return], more);
    var s := Run(capacity, events);
    assert RunFrom(capacity, s, [Return]) == Step(capacity, s, Return);
    ReturnedStays(capacity, Step(capacity, s, Return), more);
  }

  // --------------------------------------- what is taken, from the events alone

  /** The chunks passed to Write. */
  function Chunks(events: seq<Event>): seq<Chunk> {
    if events == [] then []
    else
      var e := events[|events|-1];
      Chunks(events[..|events|-1]) + if e.Write? then [e.chunk] else []
  }

  /** The write finds room in the channel, or a reader parked at a channel without any. */
  predicate Fits(capacity: nat, s: State, e: Event)
    requires e.Write?
  {
    |s.queue| < capacity || (capacity == 0 && e.parked && s.reader == Looping)
  }

  predicate FitsAt(capacity: nat, events: seq<Event>, k: nat)
    requires k < |events| && events[k].Write?
  {
    Fits(capacity, Run(capacity, events[..k]), events[k])
  }

  ghost predicate AllFit(capacity: nat, events: seq<Event>) {
    forall k :: 0 <= k < |events| && events[k].Write? ==> FitsAt(capacity, events, k)
  }

  /** The chunks of the writes that fit. */
  function Taken(capacity: nat, events: seq<Event>): seq<Chunk> {
    if events == [] then []
    else
      var n := |events| - 1;
      Taken(capacity, events[..n]) +
      if events[n].Write? && FitsAt(capacity, events, n) then [events[n].chunk] else []
  }

  lemma RunSnoc(capacity: nat, events: seq<Event>)
    requires events != []
    ensures var n := |events| - 1; Run(capacity, events) == Step(capacity, Run(capacity, events[..n]), events[n])
  {
    var n := |events| - 1;
    RunFromConcat(capacity, INIT, events[..n], [events[n]]);
    assert events == events[..n] + [events[n]];
    var s := Run(capacity, events[..n]);
    assert RunFrom(capacity, s, [events[n]]) == RunFrom(capacity, Step(capacity, s, events[n]), []);
  }

  /** A write is taken if and only if it fits; nothing else is. */
  lemma {:induction false} AcceptedIsTaken(capacity: nat, events: seq<Event>)
    ensures Run(capacity, events).accepted == Taken(capacity, events)
    ensures Run(capacity, events).written == Chunks(events)
    decreases |events|
  {
    if events != [] {
      AcceptedIsTaken(capacity, events[..|events|-1]);
      RunSnoc(capacity, events);
    }
  }

  lemma {:induction false} TakenIsShorter(capacity: nat, events: seq<Event>)
    ensures |Taken(capacity, events)| <= |Chunks(events)|
    decreases |events|
  {
    if events != [] {
      TakenIsShorter(capacity, events[..|events|-1]);
    }
  }

  /** All that is written is taken if and only if every write fits. */
  lemma {:induction false} AllIsTaken(capacity: nat, events: seq<Event>)
    ensures Taken(capacity, events) == Chunks(events) <==> AllFit(capacity, events)
    decreases |events|
  {
    if events != [] {
      var n := |events| - 1;
      var init := events[..n];
      AllIsTaken(capacity, init);
      TakenIsShorter(capacity, init);
      forall k | 0 <= k < n && events[k].Write? ensures FitsAt(capacity, events, k) == FitsAt(capacity, init, k) {
        assert init[..k] == events[..k] && init[k] == events[k];
      }
      if AllFit(capacity, events) {
        assert AllFit(capacity, init);
      } else if events[n].Write? && FitsAt(capacity, events, n) {
        assert !AllFit(capacity, init);
        assert Taken(capacity, init) != Chunks(init);
        LastEqual(Taken(capacity, init), Chunks(init), events[n].chunk);
      } else if events[n].Write? {
        assert |Taken(capacity, events)| < |Chunks(events)|;
      } else {
        assert !AllFit(capacity, init);
        assert Taken(capacity, events) == Taken(capacity, init) && Chunks(events) == Chunks(init);
      }
    }
  }

  lemma LastEqual<T>(a: seq<T>, b: seq<T>, x: T)
    requires a != b
    ensures a + [x] != b + [x]
  {
    assert (a + [x])[..|a|] == a && (b + [x])[..|b|] == b;
  }

  /** What had been accepted at the first stop. */
  lemma {:induction false} StopRecords(capacity: nat, events: seq<Event>, k: nat)
    requires k < |events| && events[k].Stop? && Stop !in events[..k]
    ensures var before, s := Run(capacity, events[..k]), Run(capacity, events);
      s.done && s.atStop == |before.accepted| && before.accepted <= s.accepted
    decreases |events|
  {
    var n := |events| - 1;
    RunSnoc(capacity, events);
    if k < n {
      assert events[..n][..k] == events[..k];
      StopRecords(capacity, events[..n], k);
    } else {
      NotDone(capacity, events[..k]);
    }
  }

  lemma {:induction false} NotDone(capacity: nat, events: seq<Event>)
    requires Stop !in events
    ensures !Run(capacity, events).done
    decreases |events|
  {
    if events != [] {
      RunSnoc(capacity, events);
      NotDone(capacity, events[..|events|-1]);
    }
  }

  /** Once the handler has returned, the writes before the stop that found room have been delivered, in order; if all
      of them did, that is everything written before it. */
  lemma WrittenIsDelivered(capacity: nat, events: seq<Event>, k: nat)
    requires k < |events| && events[k].Stop? && Stop !in events[..k]
    requires Run(capacity, events).reader == Returned
    ensures Taken(capacity, events[..k]) <= Run(capacity, events).delivered
    ensures AllFit(capacity, events[..k]) ==> Chunks(events[..k]) <= Run(capacity, events).delivered
  {
    StopLosesNothing(capacity, events);
    StopRecords(capacity, events, k);
    AcceptedIsTaken(capacity, events[..k]);
    AllIsTaken(capacity, events[..k]);
    var before, s := Run(capacity, events[..k]), Run(capacity, events);
    assert s.accepted[..s.atStop] == before.accepted;
  }

  // ----------------------------------------------------------------- progress

  lemma {:induction false} Emptied(capacity: nat, s: State, e: Event)
    requires (e == Receive && s.reader == Looping) || (e == Drain && s.reader == Draining)
    ensures RunFrom(capacity, s, seq(|s.queue|, _ => e)) == s.(queue := [], delivered := s.delivered + s.queue)
    decreases |s.queue|
  {
    var events := seq(|s.queue|, _ => e);
    if s.queue != [] {
      var t := Step(capacity, s, e);
      assert events[0] == e && events[1..] == seq(|t.queue|, _ => e);
      Emptied(capacity, t, e);
      assert s.delivered + s.queue == t.delivered + t.queue;
    } else {
      assert s.delivered + s.queue == s.delivered;
    }
  }

  /** An attached handler that is left to itself delivers all that has been accepted, stopped or not. */
  lemma ReaderCatchesUp(capacity: nat, events: seq<Event>)
    requires Run(capacity, events).reader == Looping
    ensures var s := Run(capacity, events); var t := Run(capacity, events + seq(|s.queue|, _ => Receive));
      t.queue == [] && t.delivered == s.accepted && t.reader == Looping
  {
    var s := Run(capacity, events);
    InvRunFrom(capacity, INIT, events);
    RunFromConcat(capacity, INIT, events, seq(|s.queue|, _ => Receive));
    Emptied(capacity, s, Receive);
  }

  function Finish(n: nat): seq<Event> {
    [Attach, SeeDone] + seq(n, _ => Drain) + [Return]
  }

  /** After the stop a handler that has not returned can: it then has delivered all that was accepted, even if it
      attaches only now. */
  lemma HandlerReturns(capacity: nat, events: seq<Event>)
    requires Stop in events && Run(capacity, events).reader != Returned
    ensures var s := Run(capacity, events); var t := Run(capacity, events + Finish(|s.queue|));
      t.reader == Returned && t.delivered == s.accepted
  {
    var s := Run(capacity, events);
    InvRunFrom(capacity, INIT, events);
    StopIsDone(capacity, events);
    var drains := seq(|s.queue|, _ => Drain);
    RunFromConcat(capacity, INIT, events, Finish(|s.queue|));
    RunFromConcat(capacity, s, [Attach, SeeDone] + drains, [Return]);
    RunFromConcat(capacity, s, [Attach, SeeDone], drains);
    var t := RunFrom(capacity, s, [Attach, SeeDone]);
    assert [Attach, SeeDone][1..] == [SeeDone] && [SeeDone][1..] == [];
    assert t == Step(capacity, Step(capacity, s, Attach), SeeDone);
    Emptied(capacity, t, Drain);
    var u := RunFrom(capacity, t, drains);
    assert RunFrom(capacity, u, [Return]) == Step(capacity, u, Return);
  }

  lemma {:induction false} StopIsDone(capacity: nat, events: seq<Event>)
    requires Stop in events
    ensures Run(capacity, events).done
    decreases |events|
  {
    var n := |events| - 1;
    RunSnoc(capacity, events);
    if events[n] != Stop {
      StopIsDone(capacity, events[..n]);
    }
  }

  // ------------------------------------------------------------- the code

  /** A writer that never blocks and never reports a dropped chunk. */
  class ChanWriter {
    const capacity: nat
    var queue: seq<array<bv8>>

    constructor (capacity: nat)
      ensures this.capacity == capacity && queue == []
    {
      this.capacity := capacity;
      queue := [];
    }

    /** What a reader of the channel will see. */
    ghost function View(): seq<Chunk>
      reads this, queue
    {
      seq(|queue|, i requires 0 <= i < |queue| reads this, queue => queue[i][..])
    }

    /** Enqueues a copy, so that reusing the caller's buffer cannot change it. */
    method Write(d: array<bv8>) returns (n: nat)
      modifies this
      ensures n == d.Length
      ensures View() == if |old(queue)| < capacity then old(View()) + [old(d[..])] else old(View())
      ensures forall s: State, parked :: s.queue == old(View()) ==>
        OnWrite(capacity, s, old(d[..]), parked).queue == View()
      ensures forall a :: a in queue ==> a in old(queue) || fresh(a)
    {
      var data := new bv8[d.Length];
      for i := 0 to d.Length
        invariant fresh(data) && queue == old(queue) && unchanged(d)
        invariant forall a :: a in queue ==> a[..] == old(a[..])
        invariant forall k :: 0 <= k < i ==> data[k] == d[k]
      {
        data[i] := d[i];
      }
      assert data[..] == d[..];
      assert View() == old(View());
      if |queue| < capacity {
        queue := queue + [data];
        assert View()[..|old(queue)|] == old(View());
      }
      n := d.Length;
    }
  }

  /** The inner loop of the handler, while no writer interferes. */
  method DrainAll(capacity: nat, before: State) returns (s: State)
    requires before.reader == Draining
    ensures s == RunFrom(capacity, before, seq(|before.queue|, _ => Drain) + [Return])
    ensures s == before.(queue := [], delivered := before.delivered + before.queue, reader := Returned)
  {
    s := before;
    ghost var left := seq(|before.queue|, _ => Drain) + [Return];
    while s.queue != []
      invariant s == before.(queue := s.queue, delivered := s.delivered)
      invariant s.delivered + s.queue == before.delivered + before.queue
      invariant |s.queue| <= |before.queue| && left == seq(|s.queue|, _ => Drain) + [Return]
      invariant RunFrom(capacity, s, left) == RunFrom(capacity, before, seq(|before.queue|, _ => Drain) + [Return])
      decreases |s.queue|
    {
      assert left[0] == Drain && left[1..] == seq(|s.queue| - 1, _ => Drain) + [Return];
      left := left[1..];
      s := s.(queue := s.queue[1..], delivered := s.delivered + [s.queue[0]]);
    }
    assert left == [Return];
    s := s.(reader := Returned);
    assert s.delivered + [] == s.delivered;
  }
}
