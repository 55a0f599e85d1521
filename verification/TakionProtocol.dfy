/** The whole data channel as a state machine: sending threads, the resend thread and the ack handler on one
    side, the receiving thread on the other, and between them a channel that loses, repeats and reorders.
    Each mutex-protected block is one step. Giving up on a packet takes three: the resend thread decides and releases
    the mutex, reads the number in the packet's slot without it, and acks that number under it again. */
module TakionProtocol {
  import opened Powers
  import opened SeqNum
  import opened ReorderQueue
  import opened SendBuffer
  import opened Takion

  type Data = (SeqNum32, Body)

  /** Where the sending thread of a message stands. */
  datatype Phase = Numbered | OnTheWire | Done

  /** Where the resend thread stands: with slot k given up and the mutex released, or with the number read from there.
      `exhausted` is the packet it decided to give up, and `displaced` whether another one took its slot since. */
  datatype Resender =
    | Idle
    | Decided(k: nat, exhausted: Packet, displaced: bool)
    | Acking(seqNum: SeqNum32, exhausted: Packet, displaced: bool)

  /** `sent[i]` is the message that drew the number tag + i; `net` and `ackNet` are all the packets that ever
      entered the channel: each may arrive at any later time, any number of times, or never. */
  datatype State = State(tag: SeqNum32, sent: seq<Body>, phase: seq<Phase>, slots: Slots, resender: Resender,
                         net: set<Data>, ackNet: set<SeqNum32>, rx: Receiver)

  datatype Step =
    | Number(body: Body)                  // a sending thread draws seq_num_local++
    | Transmit(i: nat)                    // its packet goes to the socket
    | Push(i: nat, now: nat)              // and then to the send buffer, which may refuse it
    | Resend(k: nat, now: nat)            // the resend thread repeats the k-th packet of the buffer
    | Decide(k: nat, now: nat)            // or gives up on it and releases the mutex,
    | ReadNumber                          // reads the number in its slot
    | AckGivenUp                          // and acks that number
    | Deliver(d: Data)                    // the receiver gets a data packet
    | DeliverAck(ack: SeqNum32)           // the sender gets an ack

  /** The packet array starts with any content. */
  function Init(tag: SeqNum32, raw: seq<Packet>): State {
    State(tag, [], [], Slots(raw, 0), Idle, {}, {}, Receiver(Window(tag, tag, map[]), []))
  }

  function NumberOf(s: State, i: int): SeqNum32 {
    Wrap32(s.tag + i)
  }

  /** The packets that wait for an ack. */
  function Waiting(s: State): seq<Packet> {
    if s.slots.count <= |s.slots.raw| then s.slots.Live() else []
  }

  predicate Enabled(s: State, step: Step) {
    && s.slots.count <= |s.slots.raw|
    && match step
       case Number(_) => |s.sent| + 1 < MESSAGES_MAX
       case Transmit(i) => i < |s.sent| && i < |s.phase| && s.phase[i] == Numbered
       case Push(i, _) => i < |s.sent| && i < |s.phase| && s.phase[i] == OnTheWire
       case Resend(k, now) =>
         s.resender.Idle? && k < s.slots.count && Expired(s.slots.raw[k], now) && s.slots.raw[k].tries < TRIES_MAX
       case Decide(k, now) =>
         s.resender.Idle? && k < s.slots.count && Expired(s.slots.raw[k], now) && s.slots.raw[k].tries >= TRIES_MAX
       case ReadNumber => s.resender.Decided? && s.resender.k < |s.slots.raw|
       case AckGivenUp => s.resender.Acking?
       case Deliver(d) => d in s.net
       case DeliverAck(ack) => ack in s.ackNet
  }

  /** The step puts another packet into the slot that is being given up: an ack that leaves more packets than come
      before the slot and covers one up to it, or a push right into it after acks have emptied it. */
  predicate Displaces(s: State, step: Step)
    requires Enabled(s, step)
  {
    s.resender.Decided? &&
    match step
    case DeliverAck(ack) => Moves(s.slots, ack, s.resender.k)
    case Push(i, now) =>
      && s.resender.k == s.slots.count
      && Pushed(s.slots.Live(), |s.slots.raw|, NumberOf(s, i), s.sent[i], now).1 == Success
    case _ => false
  }

  function Watched(s: State, step: Step): Resender
    requires Enabled(s, step)
  {
    match s.resender
    case Decided(k, exhausted, displaced) => Decided(k, exhausted, displaced || Displaces(s, step))
    case r => r
  }

  function Apply(s: State, step: Step): State
    requires Enabled(s, step)
  {
    match step
    case Number(body) => s.(sent := s.sent + [body], phase := s.phase + [Numbered])
    case Transmit(i) => s.(phase := s.phase[i := OnTheWire], net := s.net + {(NumberOf(s, i), s.sent[i])})
    case Push(i, now) =>
      s.(phase := s.phase[i := Done], slots := s.slots.AfterPush(NumberOf(s, i), s.sent[i], now),
         resender := Watched(s, step))
    case Resend(k, now) =>
      var p := s.slots.raw[k];
      s.(slots := s.slots.(raw := s.slots.raw[k := p.(lastSendMs := now, tries := p.tries + 1)]),
         net := s.net + {(p.seqNum, p.buf)})
    case Decide(k, _) => s.(resender := Decided(k, s.slots.raw[k], false))
    case ReadNumber =>
      var r := s.resender;
      s.(resender := Acking(s.slots.raw[r.k].seqNum, r.exhausted, r.displaced))
    case AckGivenUp => s.(slots := s.slots.AfterAck(s.resender.seqNum), resender := Idle)
    case Deliver(d) =>
      var h := HandleData(s.rx, d.0, d.1);
      s.(rx := h.rx, ackNet := s.ackNet + set a | a in h.acks)
    case DeliverAck(ack) => s.(slots := s.slots.AfterAck(ack), resender := Watched(s, step))
  }

  /** (seqNum, body) is the i-th message sent. */
  ghost predicate IsMessage(s: State, i: int, seqNum: SeqNum32, body: Body) {
    0 <= i < |s.sent| && seqNum == NumberOf(s, i) && body == s.sent[i]
  }

  ghost predicate InSent(s: State, seqNum: SeqNum32, body: Body) {
    exists i :: IsMessage(s, i, seqNum, body)
  }

  /** `a` acknowledges some message that has been pulled. */
  ghost predicate AcksPulled(s: State, a: SeqNum32) {
    exists i | 0 <= i < |s.rx.pulled| :: a == NumberOf(s, i)
  }

  /** The receiver: the messages pulled are a prefix of those sent, the queue starts right after it, and what
      waits in the queue sits at its own place. */
  ghost predicate ReceiverInv(tag: int, sent: seq<Body>, rx: Receiver) {
    && rx.pulled <= sent
    && rx.queue.begin == tag + |rx.pulled|
    && rx.queue.WellFormed(REORDER_QUEUE_SIZE)
    && rx.queue.end <= tag + |sent|
    && forall k | k in rx.queue.items :: rx.queue.items[k] == sent[k - tag]
  }

  /** The message of this number has gone through the send buffer's push. */
  ghost predicate WasPushed(s: State, seqNum: SeqNum32, body: Body) {
    exists i :: IsMessage(s, i, seqNum, body) && i < |s.phase| && s.phase[i] == Done
  }

  ghost predicate BufferInv(s: State) {
    && s.slots.count <= |s.slots.raw| == SEND_BUFFER_SIZE
    && Distinct(s.slots.Live())
    && forall p | p in s.slots.Live() :: WasPushed(s, p.seqNum, p.buf) && p.tries <= TRIES_MAX
  }

  /** The packet given up had all its tries; its number is in its slot, and will be the one acked, if and only if it was
      not displaced; and it is nowhere behind the slot. */
  ghost predicate ResenderInv(s: State) {
    match s.resender
    case Idle => true
    case Decided(k, g, displaced) =>
      && k < |s.slots.raw| && WasPushed(s, g.seqNum, g.buf) && g.tries == TRIES_MAX
      && WasPushed(s, s.slots.raw[k].seqNum, s.slots.raw[k].buf)
      && (s.slots.raw[k].seqNum == g.seqNum <==> !displaced)
      && forall x | 0 <= x < s.slots.count && x < |s.slots.raw| && s.slots.raw[x].seqNum == g.seqNum ::
           if displaced then x < k else x <= k
    case Acking(seqNum, g, displaced) =>
      && WasPushed(s, g.seqNum, g.buf) && g.tries == TRIES_MAX
      && (exists i | 0 <= i < |s.sent| :: seqNum == NumberOf(s, i))
      && (seqNum == g.seqNum <==> !displaced)
  }

  ghost predicate Inv(s: State) {
    && |s.sent| == |s.phase| < MESSAGES_MAX
    && ReceiverInv(s.tag, s.sent, s.rx)
    && (forall d | d in s.net :: InSent(s, d.0, d.1))
    && (forall a | a in s.ackNet :: AcksPulled(s, a))
    && BufferInv(s) && ResenderInv(s)
  }

  lemma InitInv(tag: SeqNum32, raw: seq<Packet>)
    requires |raw| == SEND_BUFFER_SIZE
    ensures Inv(Init(tag, raw))
  {}

  /** The queue's unwrapping finds the true position of every packet in the channel, at less than half the
      number space, so reorder_queue_push never sees its excluded case. */
  lemma UnwrapMessage(s: State, i: int, seqNum: SeqNum32, body: Body)
    requires Inv(s) && IsMessage(s, i, seqNum, body)
    ensures Unwrap(TWO32, s.rx.queue.begin, seqNum) == s.tag + i
    ensures seqNum != Wrap32(s.rx.queue.begin + TWO31)
  {
    UnwrapNear(TWO32, s.rx.queue.begin, s.tag + i);
    UnwrapNear(TWO32, s.rx.queue.begin, s.rx.queue.begin + TWO31);
  }

  lemma InsertInv(tag: int, sent: seq<Body>, rx: Receiver, i: int)
    requires ReceiverInv(tag, sent, rx) && 0 <= i < |sent|
    ensures ReceiverInv(tag, sent, rx.(queue := Insert(rx.queue, REORDER_QUEUE_SIZE, DropEnd, tag + i, sent[i]).window))
  {}

  /** Flushing pulls exactly the next messages in order, and the ack names the last of them. */
  lemma {:induction false} FlushInv(tag: int, sent: seq<Body>, rx: Receiver)
    requires ReceiverInv(tag, sent, rx)
    ensures ReceiverInv(tag, sent, Receiver(Flushed(rx.queue), rx.pulled + Bodies(Flush(rx.queue))))
    ensures Flush(rx.queue) != [] ==>
      LastNumber(Flush(rx.queue)) == [Wrap32(tag + |rx.pulled| + |Flush(rx.queue)| - 1)]
    decreases rx.queue.end - rx.queue.begin
  {
    hide Wrap32, Flush, Flushed;
    var q := rx.queue;
    FlushUnfolds(q);
    if q.begin < q.end && q.begin in q.items {
      var next := Receiver(Take(q).window, rx.pulled + [q.items[q.begin]]);
      assert sent[..|rx.pulled| + 1] == next.pulled;
      FlushInv(tag, sent, next);
      var rest := Flush(next.queue);
      assert Bodies(Flush(q)) == [q.items[q.begin]] + Bodies(rest) by { assert Flush(q)[1..] == rest; }
      assert rx.pulled + Bodies(Flush(q)) == next.pulled + Bodies(rest);
    } else {
      assert rx.pulled + [] == rx.pulled;
    }
  }

  /** Growing the list of messages or the pulled prefix keeps every fact about packets. */
  lemma SentGrows(s: State, t: State)
    requires s.tag == t.tag && s.sent <= t.sent && s.rx.pulled <= t.rx.pulled
    requires |s.phase| <= |t.phase| && forall i | 0 <= i < |s.phase| && s.phase[i] == Done :: t.phase[i] == Done
    ensures forall n, b :: InSent(s, n, b) ==> InSent(t, n, b)
    ensures forall n, b :: WasPushed(s, n, b) ==> WasPushed(t, n, b)
    ensures forall a :: AcksPulled(s, a) ==> AcksPulled(t, a)
  {
    forall n, b | InSent(s, n, b) ensures InSent(t, n, b) {
      var i :| IsMessage(s, i, n, b);
      assert IsMessage(t, i, n, b);
    }
    forall n, b | WasPushed(s, n, b) ensures WasPushed(t, n, b) {
      var i :| IsMessage(s, i, n, b) && i < |s.phase| && s.phase[i] == Done;
      assert IsMessage(t, i, n, b);
    }
    forall a | AcksPulled(s, a) ensures AcksPulled(t, a) {
      var i :| 0 <= i < |s.rx.pulled| && a == NumberOf(s, i);
      assert a == NumberOf(t, i);
    }
  }

  /** A step that leaves the packets and the resend thread alone */
  lemma SameBuffer(s: State, t: State)
    requires BufferInv(s) && ResenderInv(s) && t.slots == s.slots && t.resender == s.resender
    requires s.tag == t.tag && s.sent <= t.sent
    requires |s.phase| <= |t.phase| && forall i | 0 <= i < |s.phase| && s.phase[i] == Done :: t.phase[i] == Done
    ensures BufferInv(t) && ResenderInv(t)
  {
    hide Wrap32;
    SentGrows(s.(rx := t.rx), t);
    assert forall n, b :: WasPushed(s, n, b) ==> WasPushed(t, n, b) by {
      forall n, b | WasPushed(s, n, b) ensures WasPushed(t, n, b) {
        var i :| IsMessage(s, i, n, b) && i < |s.phase| && s.phase[i] == Done;
        assert IsMessage(t, i, n, b);
      }
    }
    if s.resender.Acking? {
      var i :| 0 <= i < |s.sent| && s.resender.seqNum == NumberOf(s, i);
      assert s.resender.seqNum == NumberOf(t, i);
    }
  }

  lemma DeliverInv(s: State, d: Data)
    requires Inv(s) && Enabled(s, Deliver(d))
    ensures Inv(Apply(s, Deliver(d)))
    ensures s.rx.pulled <= Apply(s, Deliver(d)).rx.pulled
  {
    hide Wrap32, Flush, Flushed, Bodies, Insert, BufferInv, ResenderInv;
    var t := Apply(s, Deliver(d));
    SameBuffer(s, t);
    var i :| IsMessage(s, i, d.0, d.1);
    if |d.1| >= 1 {
      UnwrapMessage(s, i, d.0, d.1);
      InsertInv(s.tag, s.sent, s.rx, i);
      var w := Insert(s.rx.queue, REORDER_QUEUE_SIZE, DropEnd, s.tag + i, d.1).window;
      FlushInv(s.tag, s.sent, s.rx.(queue := w));
      var last := |s.rx.pulled| + |Flush(w)| - 1;
      assert Flush(w) != [] ==> t.ackNet == s.ackNet + {NumberOf(t, last)};
    }
    SentGrows(s, t);
  }

  /** A message that is about to be pushed has another number than any that was. */
  lemma FreshNumber(s: State, i: nat, seqNum: SeqNum32, body: Body)
    requires |s.sent| == |s.phase| < MESSAGES_MAX && i < |s.sent| && s.phase[i] != Done && WasPushed(s, seqNum, body)
    ensures NumberOf(s, i) != seqNum
  {
    hide Wrap32;
    var j :| IsMessage(s, j, seqNum, body) && j < |s.phase| && s.phase[j] == Done;
    CompareWrapped32(s.tag + i, s.tag + j);
  }

  lemma PushInv(s: State, i: nat, now: nat)
    requires Inv(s) && Enabled(s, Push(i, now))
    ensures Inv(Apply(s, Push(i, now)))
  {
    hide Wrap32, ReceiverInv, Distinct, Pushed;
    var t := Apply(s, Push(i, now));
    SentGrows(s, t);
    assert IsMessage(t, i, NumberOf(s, i), s.sent[i]);
    PushKeepsDistinct(s.slots.Live(), SEND_BUFFER_SIZE, NumberOf(s, i), s.sent[i], now);
    PushBuffer(s, t, i, now);
    PushResender(s, t, i, now);
  }

  lemma PushBuffer(s: State, t: State, i: nat, now: nat)
    requires BufferInv(s) && Enabled(s, Push(i, now)) && t == Apply(s, Push(i, now))
    requires WasPushed(t, NumberOf(s, i), s.sent[i]) && Distinct(t.slots.Live())
    requires forall n, b :: WasPushed(s, n, b) ==> WasPushed(t, n, b)
    ensures BufferInv(t)
  {
    hide Wrap32, WasPushed, Distinct;
  }

  lemma PushResender(s: State, t: State, i: nat, now: nat)
    requires Inv(s) && Enabled(s, Push(i, now)) && t == Apply(s, Push(i, now))
    requires WasPushed(t, NumberOf(s, i), s.sent[i])
    requires forall n, b :: WasPushed(s, n, b) ==> WasPushed(t, n, b)
    ensures ResenderInv(t)
  {
    hide Wrap32, ReceiverInv, Distinct, WasPushed;
    match s.resender
    case Idle =>
    case Decided(k, g, displaced) => FreshNumber(s, i, g.seqNum, g.buf);
    case Acking(seqNum, _, _) =>
      var j :| 0 <= j < |s.sent| && seqNum == NumberOf(s, j);
      assert seqNum == NumberOf(t, j);
  }

  lemma AckBuffer(s: State, t: State, seqNum: SeqNum32)
    requires BufferInv(s) && t.slots == s.slots.AfterAck(seqNum)
    requires t.sent == s.sent && t.phase == s.phase && t.tag == s.tag
    ensures BufferInv(t)
  {
    hide Wrap32, Covers, Unacked, Distinct;
    AckPartitions(s.slots.Live(), seqNum);
    AckKeepsDistinct(s.slots.Live(), seqNum);
    assert forall n, b :: WasPushed(s, n, b) ==> WasPushed(t, n, b) by {
      forall n, b | WasPushed(s, n, b) ensures WasPushed(t, n, b) {
        var i :| IsMessage(s, i, n, b) && i < |s.phase| && s.phase[i] == Done;
        assert IsMessage(t, i, n, b);
      }
    }
  }

  /** An ack between the decision and the read changes the slot's number exactly if it displaces the packet, and moves
      packets only towards the front. */
  lemma AckResender(s: State, seqNum: SeqNum32)
    requires BufferInv(s) && ResenderInv(s) && Enabled(s, DeliverAck(seqNum))
    ensures ResenderInv(Apply(s, DeliverAck(seqNum)))
  {
    hide Wrap32, Covers, Unacked;
    var t := Apply(s, DeliverAck(seqNum));
    assert forall n, b :: WasPushed(s, n, b) ==> WasPushed(t, n, b) by {
      forall n, b | WasPushed(s, n, b) ensures WasPushed(t, n, b) {
        var i :| IsMessage(s, i, n, b) && i < |s.phase| && s.phase[i] == Done;
        assert IsMessage(t, i, n, b);
      }
    }
    match s.resender
    case Idle =>
    case Decided(_, _, _) => AckDecided(s, seqNum);
    case Acking(a, _, _) =>
      var i :| 0 <= i < |s.sent| && a == NumberOf(s, i);
      assert a == NumberOf(t, i);
  }

  lemma AckDecided(s: State, seqNum: SeqNum32)
    requires BufferInv(s) && ResenderInv(s) && s.resender.Decided? && Enabled(s, DeliverAck(seqNum))
    ensures var t, g, k := Apply(s, DeliverAck(seqNum)), s.resender.exhausted, s.resender.k;
      && (t.slots.raw[k].seqNum == g.seqNum <==> !t.resender.displaced)
      && ((k < t.slots.count && t.slots.raw[k] in s.slots.Live()) || t.slots.raw[k] == s.slots.raw[k])
      && forall x | 0 <= x < t.slots.count && t.slots.raw[x].seqNum == g.seqNum ::
           if t.resender.displaced then x < k else x <= k
  {
    hide Wrap32, Covers, Unacked, WasPushed, Distinct, Expired, Moves, Pushed;
    var t, g, k := Apply(s, DeliverAck(seqNum)), s.resender.exhausted, s.resender.k;
    AckChangesSlot(s.slots, seqNum, k);
    SlotAfterAck(s.slots, seqNum, k);
    if k < t.slots.count {
      var m :| k <= m < s.slots.count && t.slots.raw[k] == s.slots.raw[m];
      assert s.slots.Live()[m] == s.slots.raw[m];
    }
    forall x | 0 <= x < t.slots.count && t.slots.raw[x].seqNum == g.seqNum
      ensures if t.resender.displaced then x < k else x <= k
    {
      SlotAfterAck(s.slots, seqNum, x);
    }
  }

  lemma SlotAfterAck(b: Slots, seqNum: SeqNum32, k: nat)
    requires b.count <= |b.raw| && k < |b.raw|
    ensures var r := b.AfterAck(seqNum);
      if k < r.count then exists m | k <= m < b.count :: r.raw[k] == b.raw[m] && (Moves(b, seqNum, k) ==> k < m)
      else r.raw[k] == b.raw[k]
  {
    hide Covers, Unacked;
    if k < |Unacked(b.Live(), seqNum)| {
      var m := UnackedAt(b.Live(), seqNum, k);
      assert forall j | 0 <= j <= k :: b.Live()[j] == b.raw[j];
      assert b.AfterAck(seqNum).raw[k] == b.raw[m];
    }
  }

  lemma AckInv(s: State, ack: SeqNum32)
    requires Inv(s) && Enabled(s, DeliverAck(ack))
    ensures Inv(Apply(s, DeliverAck(ack)))
  {
    hide Wrap32, Covers, Unacked, ReceiverInv, Displaces, BufferInv, ResenderInv;
    AckBuffer(s, Apply(s, DeliverAck(ack)), ack) by { BufferValid(s); }
    AckResender(s, ack);
    SentGrows(s, Apply(s, DeliverAck(ack)));
  }

  lemma BufferValid(s: State)
    requires BufferInv(s)
    ensures s.slots.count <= |s.slots.raw| == SEND_BUFFER_SIZE
  {}

  lemma GivenUpInv(s: State)
    requires Inv(s) && Enabled(s, AckGivenUp)
    ensures Inv(Apply(s, AckGivenUp))
  {
    hide Wrap32, Covers, Unacked, ReceiverInv, BufferInv;
    BufferValid(s);
    AckBuffer(s, Apply(s, AckGivenUp), s.resender.seqNum);
    SentGrows(s, Apply(s, AckGivenUp));
  }

  lemma DecideInv(s: State, k: nat, now: nat)
    requires Inv(s) && Enabled(s, Decide(k, now))
    ensures Inv(Apply(s, Decide(k, now)))
  {
    hide Wrap32, ReceiverInv, Expired;
    var t, g := Apply(s, Decide(k, now)), s.slots.raw[k];
    SentGrows(s, t);
    assert s.slots.Live()[k] == g && g in s.slots.Live();
    forall x | 0 <= x < s.slots.count && s.slots.raw[x].seqNum == g.seqNum ensures x == k {
      assert s.slots.Live()[x] == s.slots.raw[x];
    }
  }

  lemma ReadInv(s: State)
    requires Inv(s) && Enabled(s, ReadNumber)
    ensures Inv(Apply(s, ReadNumber))
  {
    hide Wrap32, ReceiverInv, Distinct;
    var t, p := Apply(s, ReadNumber), s.slots.raw[s.resender.k];
    SentGrows(s, t);
    var i :| IsMessage(s, i, p.seqNum, p.buf) && i < |s.phase| && s.phase[i] == Done;
    assert p.seqNum == NumberOf(t, i);
  }

  lemma ResendInv(s: State, k: nat, now: nat)
    requires Inv(s) && Enabled(s, Resend(k, now))
    ensures Inv(Apply(s, Resend(k, now)))
  {
    hide Wrap32, Expired, ReceiverInv;
    var t := Apply(s, Resend(k, now));
    SentGrows(s, t);
    assert t.slots.Live() == s.slots.Live()[k := t.slots.raw[k]];
    assert s.slots.Live()[k] in s.slots.Live();
    var p := s.slots.raw[k];
    var i :| IsMessage(s, i, p.seqNum, p.buf) && i < |s.phase| && s.phase[i] == Done;
    assert IsMessage(t, i, p.seqNum, p.buf);
  }

  lemma NumberInv(s: State, body: Body)
    requires Inv(s) && Enabled(s, Number(body))
    ensures Inv(Apply(s, Number(body)))
  {
    hide Wrap32, BufferInv, ResenderInv;
    SentGrows(s, Apply(s, Number(body)));
    SameBuffer(s, Apply(s, Number(body)));
  }

  lemma TransmitInv(s: State, i: nat)
    requires Inv(s) && Enabled(s, Transmit(i))
    ensures Inv(Apply(s, Transmit(i)))
  {
    hide Wrap32, BufferInv, ResenderInv;
    var t := Apply(s, Transmit(i));
    SentGrows(s, t);
    SameBuffer(s, t);
    assert IsMessage(t, i, NumberOf(s, i), s.sent[i]);
  }

  lemma StepInv(s: State, step: Step)
    requires Inv(s) && Enabled(s, step)
    ensures Inv(Apply(s, step))
    ensures s.rx.pulled <= Apply(s, step).rx.pulled && s.sent <= Apply(s, step).sent
  {
    hide Inv;
    match step
    case Number(body) => NumberInv(s, body);
    case Transmit(i) => TransmitInv(s, i);
    case Push(i, now) => PushInv(s, i, now);
    case Resend(k, now) => ResendInv(s, k, now);
    case Decide(k, now) => DecideInv(s, k, now);
    case ReadNumber => ReadInv(s);
    case AckGivenUp => GivenUpInv(s);
    case Deliver(d) => DeliverInv(s, d);
    case DeliverAck(ack) => AckInv(s, ack);
  }

  /** A run: any interleaving of the steps, with any behaviour of the channel. */
  ghost predicate IsRun(tag: SeqNum32, run: seq<State>, steps: seq<Step>) {
    && |run| == |steps| + 1
    && run[0] == Init(tag, run[0].slots.raw) && |run[0].slots.raw| == SEND_BUFFER_SIZE
    && forall n | 0 <= n < |steps| :: Enabled(run[n], steps[n]) && run[n + 1] == Apply(run[n], steps[n])
  }

  lemma {:induction false} RunInv(tag: SeqNum32, run: seq<State>, steps: seq<Step>, n: nat)
    requires IsRun(tag, run, steps) && n < |run|
    ensures Inv(run[n])
  {
    if n == 0 {
      InitInv(tag, run[0].slots.raw);
    } else {
      RunInv(tag, run, steps, n - 1);
      StepInv(run[n - 1], steps[n - 1]);
    }
  }

  lemma PulledOfSent(s: State)
    requires Inv(s)
    ensures s.rx.pulled <= s.sent
  {}

  /** Main result: whatever the channel loses, repeats or reorders, at every moment of every run the receiver has
      pulled a prefix of the messages sent, in order and each once, and what it pulled before stays. */
  lemma {:induction false} PulledIsPrefixOfSent(tag: SeqNum32, run: seq<State>, steps: seq<Step>, m: nat, n: nat)
    requires IsRun(tag, run, steps) && m <= n < |run|
    ensures run[n].rx.pulled <= run[n].sent
    ensures run[m].rx.pulled <= run[n].rx.pulled
    decreases n - m
  {
    hide Apply, Enabled, BufferInv, ResenderInv;
    RunInv(tag, run, steps, n);
    PulledOfSent(run[n]);
    if m < n {
      RunInv(tag, run, steps, n - 1);
      StepInv(run[n - 1], steps[n - 1]);
      PulledIsPrefixOfSent(tag, run, steps, m, n - 1);
    }
  }

  /** So the application sees a prefix of the events it would see over a perfect channel. */
  lemma EventsArePrefix(tag: SeqNum32, run: seq<State>, steps: seq<Step>, n: nat)
    requires IsRun(tag, run, steps) && n < |run|
    ensures Events(run[n].rx.pulled) <= Events(run[n].sent)
  {
    PulledIsPrefixOfSent(tag, run, steps, n, n);
    EventsOfPrefix(run[n].rx.pulled, run[n].sent);
  }

  lemma {:induction false} EventsOfPrefix(a: seq<Body>, b: seq<Body>)
    requires a <= b
    ensures Events(a) <= Events(b)
  {
    if a != b {
      assert a <= b[..|b| - 1];
      EventsOfPrefix(a, b[..|b| - 1]);
    }
  }

  /** The i-th message has left the send buffer. */
  ghost predicate Removed(s: State, t: State, i: int) {
    && (exists p | p in Waiting(s) :: IsMessage(s, i, p.seqNum, p.buf))
    && !(exists q | q in Waiting(t) :: IsMessage(t, i, q.seqNum, q.buf))
  }

  /** Main result: a message removed by a received ack has already been pulled at the other end. The only other step
      that removes one is the end of a give-up; what is acked then is the number of the packet that had used up its
      tries, and so the message removed is that one or an older one, if and only if that packet was not displaced
      from its slot between the decision and the read. */
  lemma RemovalIsJustified(tag: SeqNum32, run: seq<State>, steps: seq<Step>, n: nat, i: nat)
    requires IsRun(tag, run, steps) && n < |steps| && Removed(run[n], run[n + 1], i)
    ensures steps[n].DeliverAck? || steps[n].AckGivenUp?
    ensures steps[n].DeliverAck? ==> i < |run[n].rx.pulled|
    ensures steps[n].AckGivenUp? ==>
      var r := run[n].resender;
      && r.Acking? && r.exhausted.tries == TRIES_MAX && (r.seqNum == r.exhausted.seqNum <==> !r.displaced)
      && exists j | i <= j < |run[n].sent| ::
           r.seqNum == NumberOf(run[n], j) && (!r.displaced ==> IsMessage(run[n], j, r.seqNum, r.exhausted.buf))
  {
    hide Apply, Inv, IsMessage, Waiting, NumberOf;
    var s, t, step := run[n], run[n + 1], steps[n];
    RunInv(tag, run, steps, n);
    var p :| p in Waiting(s) && IsMessage(s, i, p.seqNum, p.buf);
    match step
    case DeliverAck(ack) => RemovedByAck(s, ack, i);
    case AckGivenUp => RemovedByGiveUp(s, i);
    case _ => KeepsBuffer(s, step, p, i);
  }

  /** An ack of the j-th message removes no younger one. */
  lemma RemovedIsOlder(s: State, t: State, i: int, j: int)
    requires s.slots.count <= |s.slots.raw| && 0 <= j < |s.sent| < MESSAGES_MAX
    requires t.tag == s.tag && t.sent == s.sent && t.slots == s.slots.AfterAck(NumberOf(s, j)) && Removed(s, t, i)
    ensures i <= j
  {
    hide Wrap32, Unacked, Covers, Slots.AfterAck;
    var p :| p in Waiting(s) && IsMessage(s, i, p.seqNum, p.buf);
    CoversOlder(s, i, j, p);
    AckPartitions(Waiting(s), NumberOf(s, j));
    assert Waiting(t) == Unacked(Waiting(s), NumberOf(s, j));
    assert p !in Waiting(t) by { assert IsMessage(t, i, p.seqNum, p.buf); }
  }

  lemma RemovedByAck(s: State, ack: SeqNum32, i: int)
    requires Inv(s) && Enabled(s, DeliverAck(ack)) && Removed(s, Apply(s, DeliverAck(ack)), i)
    ensures i < |s.rx.pulled|
  {
    hide Wrap32, ReceiverInv, ResenderInv, BufferInv, Displaces, Removed;
    var j :| 0 <= j < |s.rx.pulled| && ack == NumberOf(s, j);
    PulledWithinSent(s);
    RemovedIsOlder(s, Apply(s, DeliverAck(ack)), i, j);
  }

  lemma PulledWithinSent(s: State)
    requires ReceiverInv(s.tag, s.sent, s.rx)
    ensures |s.rx.pulled| <= |s.sent|
  {}

  lemma RemovedByGiveUp(s: State, i: int)
    requires Inv(s) && Enabled(s, AckGivenUp)
    ensures Removed(s, Apply(s, AckGivenUp), i) ==>
      var r := s.resender;
      && r.exhausted.tries == TRIES_MAX && (r.seqNum == r.exhausted.seqNum <==> !r.displaced)
      && exists j | i <= j < |s.sent| ::
           r.seqNum == NumberOf(s, j) && (!r.displaced ==> IsMessage(s, j, r.seqNum, r.exhausted.buf))
  {
    hide Wrap32, ReceiverInv, BufferInv, Removed;
    if !Removed(s, Apply(s, AckGivenUp), i) { return; }
    var r := s.resender;
    var j :| 0 <= j < |s.sent| && r.seqNum == NumberOf(s, j);
    RemovedIsOlder(s, Apply(s, AckGivenUp), i, j);
    if !r.displaced {
      var m :| IsMessage(s, m, r.exhausted.seqNum, r.exhausted.buf);
      CompareWrapped32(s.tag + m, s.tag + j);
    }
  }

  lemma CoversOlder(s: State, i: int, j: int, p: Packet)
    requires 0 <= i < |s.sent| && 0 <= j < |s.sent| && |s.sent| < MESSAGES_MAX
    requires p.seqNum == NumberOf(s, i)
    ensures Covers(NumberOf(s, j), p) <==> i <= j
  {
    CompareWrapped32(s.tag + i, s.tag + j);
  }

  lemma KeepsBuffer(s: State, step: Step, p: Packet, i: int)
    requires Inv(s) && Enabled(s, step) && !step.DeliverAck? && !step.AckGivenUp?
    requires p in Waiting(s) && IsMessage(s, i, p.seqNum, p.buf)
    ensures exists q | q in Waiting(Apply(s, step)) :: IsMessage(Apply(s, step), i, q.seqNum, q.buf)
  {
    hide Wrap32, Expired, ReceiverInv, ResenderInv, Distinct;
    var t := Apply(s, step);
    match step
    case Resend(k, now) =>
      var m :| 0 <= m < s.slots.count && s.slots.Live()[m] == p;
      assert t.slots.Live()[m] in t.slots.Live();
      assert IsMessage(t, i, t.slots.raw[m].seqNum, t.slots.raw[m].buf);
    case Push(_, _) => assert p in Waiting(t) && IsMessage(t, i, p.seqNum, p.buf);
    case Number(_) => assert p in Waiting(t) && IsMessage(t, i, p.seqNum, p.buf);
    case Transmit(_) => assert p in Waiting(t) && IsMessage(t, i, p.seqNum, p.buf);
    case Decide(_, _) => assert p in Waiting(t) && IsMessage(t, i, p.seqNum, p.buf);
    case ReadNumber => assert p in Waiting(t) && IsMessage(t, i, p.seqNum, p.buf);
    case Deliver(_) => assert p in Waiting(t) && IsMessage(t, i, p.seqNum, p.buf);
  }
}
