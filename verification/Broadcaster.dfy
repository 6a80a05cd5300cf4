/** Event broadcasters that replay the most recent events to a listener that attaches late.
    Entrance and exit events are handled alike. */
module Broadcaster {

  // -------------------------------------------------------- sliding buffer

  /** slidingBuffer.Append: push at the back, drop from the front beyond the capacity. */
  function Append<T>(buffer: seq<T>, capacity: nat, item: T): seq<T> {
    if capacity == 0 then buffer
    else
      var pushed := buffer + [item];
      if |pushed| > capacity then pushed[1..] else pushed
  }

  function AppendAll<T>(capacity: nat, items: seq<T>): seq<T> {
    if items == [] then [] else Append(AppendAll(capacity, items[..|items|-1]), capacity, items[|items|-1])
  }

  /** The last n items, or all if there are fewer. */
  function Last<T>(items: seq<T>, n: nat): seq<T> {
    if |items| <= n then items else items[|items|-n..]
  }

  lemma AppendKeepsLast<T>(items: seq<T>, capacity: nat, item: T)
    ensures Append(Last(items, capacity), capacity, item) == Last(items + [item], capacity)
  {
  }

  /** However many items are appended, the buffer holds exactly the last ones. */
  lemma {:induction false} BufferHoldsLast<T>(capacity: nat, items: seq<T>)
    ensures AppendAll(capacity, items) == Last(items, capacity)
    ensures |AppendAll(capacity, items)| <= capacity
  {
    if items != [] {
      BufferHoldsLast(capacity, items[..|items|-1]);
      AppendKeepsLast(items[..|items|-1], capacity, items[|items|-1]);
      assert items == items[..|items|-1] + [items[|items|-1]];
    }
  }

  // ------------------------------------------------------- runs on values

  datatype Op<T> = Broadcast(event: T) | Attach | Close

  /** A listener's channel: what was put into it, and whether it is closed. */
  datatype Feed<T> = Feed(sent: seq<T>, closed: bool)

  /** The listeners in the order in which they attached. */
  datatype State<T> = State(buffer: seq<T>, closed: bool, feeds: seq<Feed<T>>)

  function SendAll<T>(feeds: seq<Feed<T>>, event: T): (r: seq<Feed<T>>)
    ensures |r| == |feeds|
  {
    seq(|feeds|, i requires 0 <= i < |feeds| =>
      if feeds[i].closed then feeds[i] else Feed(feeds[i].sent + [event], false))
  }

  function CloseAll<T>(feeds: seq<Feed<T>>): (r: seq<Feed<T>>)
    ensures |r| == |feeds|
  {
    seq(|feeds|, i requires 0 <= i < |feeds| => Feed(feeds[i].sent, true))
  }

  function Step<T>(capacity: nat, s: State<T>, op: Op<T>): State<T> {
    match op
    case Broadcast(e) => State(Append(s.buffer, capacity, e), s.closed, SendAll(s.feeds, e))
    case Attach => State(s.buffer, s.closed, s.feeds + [Feed(s.buffer, s.closed)])
    case Close => State(s.buffer, true, CloseAll(s.feeds))
  }

  function Run<T>(capacity: nat, ops: seq<Op<T>>): State<T> {
    if ops == [] then State([], false, []) else Step(capacity, Run(capacity, ops[..|ops|-1]), ops[|ops|-1])
  }

  /** All events broadcast. */
  function Events<T>(ops: seq<Op<T>>): seq<T> {
    if ops == [] then []
    else Events(ops[..|ops|-1]) + if ops[|ops|-1].Broadcast? then [ops[|ops|-1].event] else []
  }

  /** Those broadcast before the first Close. */
  function OpenEvents<T>(ops: seq<Op<T>>): seq<T> {
    if ops == [] then []
    else
      var before, op := ops[..|ops|-1], ops[|ops|-1];
      OpenEvents(before) + if op.Broadcast? && !HasClose(before) then [op.event] else []
  }

  predicate HasClose<T>(ops: seq<Op<T>>) {
    exists k :: 0 <= k < |ops| && ops[k].Close?
  }

  lemma HasCloseConcat<T>(s: seq<Op<T>>, t: seq<Op<T>>)
    ensures HasClose(s + t) <==> HasClose(s) || HasClose(t)
  {
    if HasClose(s) {
      var k :| 0 <= k < |s| && s[k].Close?;
      assert (s + t)[k].Close?;
    }
    if HasClose(t) {
      var k :| 0 <= k < |t| && t[k].Close?;
      assert (s + t)[|s|+k].Close?;
    }
  }

  function Attaches<T>(ops: seq<Op<T>>): nat {
    if ops == [] then 0 else Attaches(ops[..|ops|-1]) + if ops[|ops|-1].Attach? then 1 else 0
  }

  lemma {:induction false} RunBasics<T>(capacity: nat, ops: seq<Op<T>>)
    ensures var s := Run(capacity, ops);
      && s.buffer == Last(Events(ops), capacity)
      && (s.closed <==> HasClose(ops))
      && |s.feeds| == Attaches(ops)
      && forall i :: 0 <= i < |s.feeds| ==> s.feeds[i].closed == s.closed
  {
    if ops != [] {
      var before, op := ops[..|ops|-1], ops[|ops|-1];
      RunBasics(capacity, before);
      assert ops == before + [op];
      HasCloseConcat(before, [op]);
      assert HasClose([op]) <==> [op][0].Close?;
      if op.Broadcast? {
        AppendKeepsLast(Events(before), capacity, op.event);
      } else {
        assert Events(before) + [] == Events(before);
      }
    }
  }

  lemma FeedStep<T>(capacity: nat, s: State<T>, op: Op<T>, i: nat)
    requires i < |s.feeds|
    ensures i < |Step(capacity, s, op).feeds|
    ensures Step(capacity, s, op).feeds[i].sent ==
      s.feeds[i].sent + if op.Broadcast? && !s.feeds[i].closed then [op.event] else []
  {
  }

  lemma OpenEventsSnoc<T>(ops: seq<Op<T>>)
    requires ops != []
    ensures var before, op := ops[..|ops|-1], ops[|ops|-1];
      OpenEvents(ops) == OpenEvents(before) + if op.Broadcast? && !HasClose(before) then [op.event] else []
  {
  }

  lemma ClosedAfter<T>(before: seq<Op<T>>, after: seq<Op<T>>)
    ensures HasClose(before + [Attach] + after) <==> HasClose(before) || HasClose(after)
  {
    HasCloseConcat(before + [Attach], after);
    HasCloseConcat(before, [Attach]);
    assert !HasClose([Op<T>.Attach]);
  }

  /** The last min(capacity, n) of the n events before, and the later ones up to the Close. */
  function Due<T>(capacity: nat, before: seq<Op<T>>, after: seq<Op<T>>): seq<T> {
    Last(Events(before), capacity) + if HasClose(before) then [] else OpenEvents(after)
  }

  lemma DueSnoc<T>(capacity: nat, before: seq<Op<T>>, after: seq<Op<T>>)
    requires after != []
    ensures var earlier, op := after[..|after|-1], after[|after|-1];
      Due(capacity, before, after) == Due(capacity, before, earlier) +
        if op.Broadcast? && !HasClose(before) && !HasClose(earlier) then [op.event] else []
  {
    OpenEventsSnoc(after);
  }

  lemma JustAttached<T>(capacity: nat, before: seq<Op<T>>)
    ensures var s := Run(capacity, before + [Attach]);
      Attaches(before) < |s.feeds| && s.feeds[Attaches(before)].sent == Due(capacity, before, [])
  {
    RunBasics(capacity, before);
    RunSnoc(capacity, before, Attach);
  }

  /** A listener that attaches at any moment is sent exactly the last min(capacity, n) of the n
      events before it, followed by every later event up to the Close, in order; the replayed
      part fits the channel's buffer. */
  lemma {:induction false} ListenerSees<T>(capacity: nat, before: seq<Op<T>>, after: seq<Op<T>>)
    ensures var s := Run(capacity, before + [Attach] + after);
      Attaches(before) < |s.feeds| && s.feeds[Attaches(before)].sent == Due(capacity, before, after)
    ensures |Last(Events(before), capacity)| <= capacity
  {
    if after == [] {
      JustAttached(capacity, before);
      assert before + [Attach] + after == before + [Attach];
    } else {
      var earlier, op := after[..|after|-1], after[|after|-1];
      ListenerSees(capacity, before, earlier);
      DueSnoc(capacity, before, after);
      NextSeen(capacity, before, earlier, op);
      assert before + [Attach] + after == before + [Attach] + earlier + [op];
    }
  }

  lemma RunSnoc<T>(capacity: nat, ops: seq<Op<T>>, op: Op<T>)
    ensures Run(capacity, ops + [op]) == Step(capacity, Run(capacity, ops), op)
  {
    assert (ops + [op])[..|ops|] == ops;
  }

  /** What one more operation sends to a listener. */
  lemma NextSeen<T>(capacity: nat, before: seq<Op<T>>, earlier: seq<Op<T>>, op: Op<T>)
    requires Attaches(before) < |Run(capacity, before + [Attach] + earlier).feeds|
    ensures var s, t := Run(capacity, before + [Attach] + earlier), Run(capacity, before + [Attach] + earlier + [op]);
      var i := Attaches(before);
      && i < |t.feeds|
      && t.feeds[i].sent == s.feeds[i].sent +
           if op.Broadcast? && !HasClose(before) && !HasClose(earlier) then [op.event] else []
  {
    var soFar := before + [Attach] + earlier;
    RunBasics(capacity, soFar);
    ClosedAfter(before, earlier);
    RunSnoc(capacity, soFar, op);
    FeedStep(capacity, Run(capacity, soFar), op, Attaches(before));
  }

  // ------------------------------------------------------------- the code

  class Channel<T> {
    const bufferSize: nat
    var sent: seq<T>
    var closed: bool

    constructor (bufferSize: nat)
      ensures this.bufferSize == bufferSize && sent == [] && !closed
    {
      this.bufferSize, sent, closed := bufferSize, [], false;
    }
  }

  class EventBroadcaster<T> {
    const bufferSize: nat
    var buffer: seq<T>
    var channels: seq<Channel<T>>        // the open listeners; meaningless once closed
    var closed: bool                     // channels is nil
    ghost var listeners: seq<Channel<T>> // every listener ever attached
    ghost var state: State<T>

    ghost predicate Valid()
      reads this, listeners
    {
      && |buffer| <= bufferSize
      && (forall i, j :: 0 <= i < j < |listeners| ==> listeners[i] != listeners[j])
      && channels == (if closed then [] else listeners)
      && state.buffer == buffer && state.closed == closed && |state.feeds| == |listeners|
      && (forall i :: 0 <= i < |listeners| ==>
            && listeners[i].closed == closed
            && state.feeds[i] == Feed(listeners[i].sent, listeners[i].closed))
    }

    constructor (bufferSize: nat)
      ensures Valid() && state == State([], false, []) && this.bufferSize == bufferSize && listeners == []
    {
      this.bufferSize, buffer, channels, closed := bufferSize, [], [], false;
      listeners, state := [], State([], false, []);
    }

    /** Filling the new channel never exceeds its buffer, so it does not block. */
    method AttachListener() returns (channel: Channel<T>)
      requires Valid()
      modifies this
      ensures Valid() && fresh(channel) && listeners == old(listeners) + [channel]
      ensures |channel.sent| <= channel.bufferSize == bufferSize
      ensures state == Step(bufferSize, old(state), Attach)
    {
      channel := new Channel(bufferSize);
      Replay(buffer, channel);
      if !closed {
        channels := channels + [channel];
      } else {
        channel.closed := true;
      }
      listeners, state := listeners + [channel], Step(bufferSize, state, Attach);
    }

    method BroadcastEvent(event: T)
      requires Valid()
      modifies this, listeners
      ensures Valid() && listeners == old(listeners)
      ensures state == Step(bufferSize, old(state), Broadcast(event))
    {
      if bufferSize != 0 {
        buffer := buffer + [event];
        if |buffer| > bufferSize {
          buffer := buffer[1..];
        }
      }
      SendToEach(channels, event);
      state := Step(bufferSize, state, Broadcast(event));
    }

    method CloseListeners()
      requires Valid()
      modifies this, listeners
      ensures Valid() && listeners == old(listeners)
      ensures state == Step(bufferSize, old(state), Close)
    {
      CloseEach(channels);
      channels, closed := [], true;
      state := Step(bufferSize, state, Close);
    }
  }

  /** slidingBuffer.Range with a send as its callback; the channel's buffer is never exceeded. */
  method Replay<T>(buffer: seq<T>, channel: Channel<T>)
    requires channel.sent == [] && |buffer| <= channel.bufferSize
    modifies channel`sent
    ensures channel.sent == buffer
  {
    for i := 0 to |buffer|
      invariant channel.sent == buffer[..i] && |channel.sent| <= channel.bufferSize
    {
      channel.sent := channel.sent + [buffer[i]];
    }
  }

  method SendToEach<T>(channels: seq<Channel<T>>, event: T)
    requires forall i, j :: 0 <= i < j < |channels| ==> channels[i] != channels[j]
    modifies (set c | c in channels)`sent
    ensures forall k :: 0 <= k < |channels| ==> channels[k].sent == old(channels[k].sent) + [event]
  {
    for i := 0 to |channels|
      invariant forall k :: 0 <= k < |channels| ==>
        channels[k].sent == old(channels[k].sent) + if k < i then [event] else []
    {
      channels[i].sent := channels[i].sent + [event];
    }
  }

  method CloseEach<T>(channels: seq<Channel<T>>)
    requires forall i, j :: 0 <= i < j < |channels| ==> channels[i] != channels[j]
    modifies (set c | c in channels)`closed
    ensures forall k :: 0 <= k < |channels| ==> channels[k].closed
  {
    for i := 0 to |channels|
      invariant forall k :: 0 <= k < i ==> channels[k].closed
    {
      channels[i].closed := true;
    }
  }
}
