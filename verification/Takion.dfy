/** The reliable data channel of lib/src/takion.c, both ends running this code over a channel that may lose,
    duplicate and reorder data and acks. */
module Takion {
  import opened Powers
  import opened SeqNum
  import opened ReorderQueue
  import opened Sequences

  const REORDER_QUEUE_SIZE_EXP := 4
  const REORDER_QUEUE_SIZE := 16
  const SEND_BUFFER_SIZE := 16
  const MESSAGES_MAX := 0x8000_0000

  /** What follows the first eight header bytes of a data payload: the data type and the content. */
  type Body = seq<int>

  datatype Event = Event(dataType: int, content: seq<int>)

  /** The CHIAKI_TAKION_MESSAGE_DATA_TYPE_ values the receiver passes on. */
  const DATA_TYPES := {0, 7, 9, 11}

  /** The receiving half: the data queue and everything pulled from it so far. */
  datatype Receiver = Receiver(queue: Window<Body>, pulled: seq<Body>)

  /** The messages that are in order now. */
  function Flush(queue: Window<Body>): seq<Entry<Body>>
    decreases queue.end - queue.begin
  {
    if queue.begin < queue.end && queue.begin in queue.items then
      Take(queue).entry + Flush(Take(queue).window)
    else
      []
  }

  function Flushed(queue: Window<Body>): Window<Body>
    decreases queue.end - queue.begin
  {
    if queue.begin < queue.end && queue.begin in queue.items then Flushed(Take(queue).window) else queue
  }

  function Bodies(entries: seq<Entry<Body>>): (r: seq<Body>)
    ensures |r| == |entries|
  {
    if entries == [] then [] else [entries[0].1] + Bodies(entries[1..])
  }

  lemma FlushUnfolds(queue: Window<Body>)
    requires forall i | i in queue.items :: queue.begin <= i < queue.end
    ensures Take(queue).entry == [] ==> Flush(queue) == [] && Flushed(queue) == queue == Take(queue).window
    ensures Take(queue).entry != [] ==> Flush(queue) == Take(queue).entry + Flush(Take(queue).window)
    ensures Take(queue).entry != [] ==> Flushed(queue) == Flushed(Take(queue).window)
  {}

  /** Flushing takes the items from the front up to the first number that has not arrived, and leaves all others. */
  lemma {:induction false} FlushIs(queue: Window<Body>)
    requires forall i | i in queue.items :: queue.begin <= i < queue.end
    ensures var n, rest := |Flush(queue)|, Flushed(queue);
      && (forall i | queue.begin <= i < queue.begin + n ::
            i in queue.items && Flush(queue)[i - queue.begin] == (Wrap32(i), queue.items[i]))
      && rest.begin == queue.begin + n && rest.begin !in queue.items
      && (forall i :: i in rest.items <==> i in queue.items && rest.begin <= i)
      && (forall i | i in rest.items :: rest.items[i] == queue.items[i])
    decreases queue.end - queue.begin
  {
    hide Wrap32, Flush, Flushed;
    FlushUnfolds(queue);
    if queue.begin in queue.items {
      var later := Take(queue).window;
      FlushIs(later);
      forall i | queue.begin <= i < queue.begin + |Flush(queue)|
        ensures i in queue.items && Flush(queue)[i - queue.begin] == (Wrap32(i), queue.items[i])
      {
        if i > queue.begin {
          assert i in later.items && Flush(queue)[i - queue.begin] == Flush(later)[i - later.begin];
        }
      }
    }
  }

  lemma {:induction false} BodiesAppend(entries: seq<Entry<Body>>, e: Entry<Body>)
    ensures Bodies(entries + [e]) == Bodies(entries) + [e.1]
  {
    if entries != [] {
      BodiesAppend(entries[1..], e);
      assert (entries + [e])[1..] == entries[1..] + [e];
    }
  }

  function LastNumber(entries: seq<Entry<Body>>): seq<SeqNum32> {
    if entries == [] then [] else [entries[|entries| - 1].0]
  }

  datatype Handled = Handled(rx: Receiver, acks: seq<SeqNum32>)

  /** takion_handle_packet_message_data: payloads without a data type byte are ignored, others are queued and
      everything that is now in order is pulled; one ack carries the number of the last message pulled. */
  function HandleData(rx: Receiver, seqNum: SeqNum32, body: Body): Handled {
    if |body| < 1 then
      Handled(rx, [])
    else
      var s := Unwrap(TWO32, rx.queue.begin, seqNum);
      var w := Insert(rx.queue, REORDER_QUEUE_SIZE, DropEnd, s, body).window;
      Handled(Receiver(Flushed(w), rx.pulled + Bodies(Flush(w))), LastNumber(Flush(w)))
  }

  /** The events the application sees for pulled messages: unknown data types are skipped. */
  function Events(bodies: seq<Body>): seq<Event> {
    if bodies == [] then [] else Events(bodies[..|bodies| - 1]) + EventOf(bodies[|bodies| - 1])
  }

  function EventOf(body: Body): seq<Event> {
    if |body| >= 1 && body[0] in DATA_TYPES then [Event(body[0], body[1..])] else []
  }

  /** The messages that the application is told of: protobuf, rumble, pad info and trigger effects */
  predicate IsKnown(body: Body) {
    |body| >= 1 && (body[0] == 0 || body[0] == 7 || body[0] == 9 || body[0] == 11)
  }

  /** The messages that events were made of */
  function BodiesOf(events: seq<Event>): (bodies: seq<Body>)
    ensures |bodies| == |events|
    ensures forall i | 0 <= i < |events| :: bodies[i] == [events[i].dataType] + events[i].content
  {
    seq(|events|, i requires 0 <= i < |events| => [events[i].dataType] + events[i].content)
  }

  /** The application sees exactly the messages pulled of the known types, whole, in order and each once. */
  lemma {:induction false} EventsAreKnown(bodies: seq<Body>)
    ensures Filtered(bodies, IsKnown, BodiesOf(Events(bodies)))
  {
    hide Filtered, BodiesOf, EventOf, Events, IsKnown;
    if bodies == [] {
      FilteredNothing(IsKnown);
      NoEvents();
    } else {
      var front, body := bodies[..|bodies| - 1], bodies[|bodies| - 1];
      EventsAreKnown(front);
      EventsAppend(front, body);
      EventIsBody(Events(front), body);
      FilteredAppend(front, IsKnown, BodiesOf(Events(front)), body);
      assert front + [body] == bodies;
    }
  }

  lemma NoEvents()
    ensures Events([]) == [] && BodiesOf([]) == []
  {}

  lemma EventIsBody(events: seq<Event>, body: Body)
    ensures BodiesOf(events + EventOf(body))
         == if IsKnown(body) then BodiesOf(events) + [body] else BodiesOf(events)
  {
    assert IsKnown(body) ==> [body[0]] + body[1..] == body;
  }

  lemma EventsAppend(bodies: seq<Body>, body: Body)
    ensures Events(bodies + [body]) == Events(bodies) + EventOf(body)
  {
    assert (bodies + [body])[..|bodies|] == bodies;
  }

  lemma NoBodies()
    ensures Bodies([]) == []
  {}

  /** The receiving thread's view of struct chiaki_takion_t; `events` and `acks` record what it hands to the
      application and sends back. */
  class Endpoint {
    const dataQueue: Queue<Body>
    ghost var pulled: seq<Body>
    var events: seq<Event>
    var acks: seq<SeqNum32>

    ghost predicate Valid()
      reads this, dataQueue, dataQueue.slots
    {
      && dataQueue.Valid()
      && dataQueue.size == REORDER_QUEUE_SIZE && dataQueue.strategy == DropEnd
      && events == Events(pulled)
    }

    ghost function View(): Receiver
      reads this, dataQueue
    {
      Receiver(dataQueue.Contents(), pulled)
    }

    /** chiaki_reorder_queue_init_32 in takion_thread_func: the first number expected is the peer's tag. */
    constructor (tagRemote: SeqNum32)
      ensures Valid() && fresh(dataQueue) && fresh(dataQueue.slots)
      ensures View() == Receiver(Window(tagRemote, tagRemote, map[]), []) && acks == []
    {
      dataQueue := new Queue(REORDER_QUEUE_SIZE_EXP, tagRemote);
      pulled, events, acks := [], [], [];
      new;
      assert Pow2(REORDER_QUEUE_SIZE_EXP) == REORDER_QUEUE_SIZE by { Pow2Values(); }
    }

    /** takion_flush_data_queue */
    method FlushDataQueue()
      requires Valid()
      modifies this, dataQueue
      ensures Valid()
      ensures var w := old(dataQueue.Contents());
        && View() == Receiver(Flushed(w), old(pulled) + Bodies(Flush(w)))
        && acks == old(acks) + LastNumber(Flush(w))
      ensures Filtered(pulled, IsKnown, BodiesOf(events))
    {
      hide Flush, Flushed, Bodies, Events, Take, Queue.Valid;
      ghost var entries: seq<Entry<Body>> := [];
      ghost var was := dataQueue.Contents();
      NoBodies();
      var ack, seqNum: SeqNum32 := false, 0;
      while true
        invariant Valid() && acks == old(acks)
        invariant pulled == old(pulled) + Bodies(entries)
        invariant Flush(was) == entries + Flush(dataQueue.Contents())
        invariant Flushed(was) == Flushed(dataQueue.Contents())
        invariant ack == (entries != []) && (ack ==> seqNum == entries[|entries| - 1].0)
        decreases dataQueue.count
      {
        dataQueue.Bounds();
        FlushUnfolds(dataQueue.Contents());
        var entry := HandleNext();
        if entry == [] {
          assert entries + [] == entries;
          break;
        }
        assert entry == [entry[0]];
        ack, seqNum := true, entry[0].0;
        BodiesAppend(entries, entry[0]);
        entries := entries + entry;
      }
      if ack {
        acks := acks + [seqNum];
      }
      EventsAreKnown(pulled);
    }

    /** One turn of that loop: pulls the next message, if it is there, and hands it to the application. */
    method HandleNext() returns (entry: seq<Entry<Body>>)
      requires Valid()
      modifies this, dataQueue
      ensures Valid() && acks == old(acks)
      ensures dataQueue.Contents() == Take(old(dataQueue.Contents())).window
      ensures entry == Take(old(dataQueue.Contents())).entry && |entry| <= 1
      ensures pulled == old(pulled) + if entry == [] then [] else [entry[0].1]
      ensures entry != [] ==> dataQueue.count < old(dataQueue.count)
      ensures events == old(events) + if entry != [] && IsKnown(entry[0].1)
                                      then [Event(entry[0].1[0], entry[0].1[1..])] else []
    {
      hide Events;
      entry := dataQueue.Pull();
      if entry != [] {
        var payload := entry[0].1;
        EventsAppend(pulled, payload);
        pulled := pulled + [payload];
        if |payload| >= 1 && payload[0] in DATA_TYPES {
          events := events + [Event(payload[0], payload[1..])];
        }
      }
    }

    /** takion_handle_packet_message_data, for a payload of eight header bytes and `body`. */
    method HandlePacketMessageData(seqNum: SeqNum32, body: Body)
      requires Valid()
      requires dataQueue.count == 0 ==> seqNum != Wrap32(dataQueue.begin + TWO31)
      modifies this, dataQueue, dataQueue.slots
      ensures Valid()
      ensures var h := HandleData(old(View()), seqNum, body);
        View() == h.rx && acks == old(acks) + h.acks
      ensures acks == old(acks) + if pulled == old(pulled) then [] else [Wrap32(dataQueue.base - 1)]
      ensures Filtered(pulled, IsKnown, BodiesOf(events))
    {
      hide Wrap32, Flush, Flushed, Insert, IsKnown, Filtered, Events;
      EventsAreKnown(pulled);
      if 8 + |body| < 9 {
        return;
      }
      dataQueue.Push(seqNum, body);
      dataQueue.Bounds();
      FlushIs(dataQueue.Contents());
      FlushDataQueue();
    }
  }
}
