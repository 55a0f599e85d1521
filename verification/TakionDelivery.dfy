/** That the data channel delivers: the messages pulled are exactly those up to the first one that has not arrived, and
    what is acknowledged is exactly that. */
module TakionDelivery {
  import opened Powers
  import opened SeqNum
  import opened ReorderQueue
  import ReorderRuns
  import opened Sequences
  import opened Takion
  import opened TakionProtocol

  /** The step brings the i-th message to the receiver, with a data type, and no further ahead than the queue
      reaches. */
  ghost predicate Brings(s: State, step: Step, i: nat) {
    step.Deliver? && IsMessage(s, i, step.d.0, step.d.1) && |step.d.1| >= 1 && i < |s.rx.pulled| + 16
  }

  ghost predicate HasArrived(run: seq<State>, steps: seq<Step>, n: nat, i: nat) {
    exists m: nat :: m < n && m < |steps| && m < |run| && Brings(run[m], steps[m], i)
  }

  /** The receiver has the message, in the queue or pulled from it. */
  ghost predicate Has(s: State, i: nat) {
    i < |s.rx.pulled| || s.tag + i in s.rx.queue.items
  }

  /** Whatever is in order has been pulled. */
  ghost predicate Flushed(s: State) {
    s.rx.queue.begin !in s.rx.queue.items
  }

  lemma OneMessage(s: State, i: nat, j: nat, d: Data)
    requires |s.sent| < MESSAGES_MAX && IsMessage(s, j, d.0, d.1)
    ensures IsMessage(s, i, d.0, d.1) <==> i == j
  {
    hide Wrap32;
    if i < |s.sent| { CompareWrapped32(s.tag + i, s.tag + j); }
  }

  /** What the j-th message does to the receiver. */
  lemma HandleHas(tag: int, sent: seq<Body>, rx: Receiver, j: nat, i: nat)
    requires ReceiverInv(tag, sent, rx) && rx.queue.begin !in rx.queue.items && j < |sent| && |sent[j]| >= 1
    requires Unwrap(TWO32, rx.queue.begin, Wrap32(tag + j)) == tag + j
    ensures var h := HandleData(rx, Wrap32(tag + j), sent[j]);
      && h.rx.queue.begin !in h.rx.queue.items && |rx.pulled| <= |h.rx.pulled|
      && (i < |h.rx.pulled| || tag + i in h.rx.queue.items
          <==> i < |rx.pulled| || tag + i in rx.queue.items || (i == j && i < |rx.pulled| + 16))
      && h.acks == if |h.rx.pulled| == |rx.pulled| then [] else [Wrap32(tag + |h.rx.pulled| - 1)]
  {
    hide Wrap32, Insert, Flush, Takion.Flushed;
    InsertInv(tag, sent, rx, j);
    var w := Insert(rx.queue, REORDER_QUEUE_SIZE, DropEnd, tag + j, sent[j]).window;
    ReorderRuns.PushFate(rx.queue, REORDER_QUEUE_SIZE, DropEnd, tag + j, sent[j]);
    FlushIs(w);
    FlushInv(tag, sent, rx.(queue := w));
  }

  /** What a packet does to it. */
  lemma DeliverHas(s: State, d: Data, i: nat)
    requires Inv(s) && Flushed(s) && Enabled(s, Deliver(d))
    ensures var t := Apply(s, Deliver(d));
      && Flushed(t) && (Has(t, i) <==> Has(s, i) || Brings(s, Deliver(d), i))
      && |s.rx.pulled| <= |t.rx.pulled|
      && t.ackNet == s.ackNet + if |t.rx.pulled| == |s.rx.pulled| then {} else {NumberOf(t, |t.rx.pulled| - 1)}
  {
    hide Wrap32, HandleData, BufferInv, ResenderInv, ReceiverInv;
    var j: nat :| IsMessage(s, j, d.0, d.1);
    OneMessage(s, i, j, d);
    if |d.1| >= 1 {
      UnwrapMessage(s, j, d.0, d.1);
      HandleHas(s.tag, s.sent, s.rx, j, i);
    } else {
      NothingHandled(s.rx, d.0, d.1);
    }
  }

  lemma NothingHandled(rx: Receiver, seqNum: SeqNum32, body: Body)
    requires |body| < 1
    ensures HandleData(rx, seqNum, body) == Handled(rx, [])
  {}

  lemma StepHas(s: State, step: Step, i: nat)
    requires Inv(s) && Flushed(s) && Enabled(s, step)
    ensures var t := Apply(s, step);
      Flushed(t) && (Has(t, i) <==> Has(s, i) || Brings(s, step, i))
  {
    hide Wrap32, Inv;
    match step
    case Deliver(d) => DeliverHas(s, d, i);
    case _ =>
  }

  lemma {:induction false} RunHas(tag: SeqNum32, run: seq<State>, steps: seq<Step>, n: nat, i: nat)
    requires IsRun(tag, run, steps) && n < |run|
    ensures Flushed(run[n]) && (Has(run[n], i) <==> HasArrived(run, steps, n, i))
  {
    hide Apply, Enabled, Inv, Brings;
    if n > 0 {
      RunInv(tag, run, steps, n - 1);
      RunHas(tag, run, steps, n - 1, i);
      StepHas(run[n - 1], steps[n - 1], i);
    }
  }

  /** Main result: at every moment of every run the receiver has pulled exactly the messages up to the first one that
      has not arrived, where a message arrives when one of its packets is delivered while it is among the 16 that follow
      those pulled. So each of them is pulled as soon as it and all before it have arrived. */
  lemma PulledIsArrived(tag: SeqNum32, run: seq<State>, steps: seq<Step>, n: nat)
    requires IsRun(tag, run, steps) && n < |run|
    ensures forall i: nat | i < |run[n].rx.pulled| :: HasArrived(run, steps, n, i)
    ensures !HasArrived(run, steps, n, |run[n].rx.pulled|)
  {
    hide IsRun, HasArrived, Inv;
    forall i: nat | i < |run[n].rx.pulled| ensures HasArrived(run, steps, n, i) {
      RunHas(tag, run, steps, n, i);
    }
    RunHas(tag, run, steps, n, |run[n].rx.pulled|);
    RunInv(tag, run, steps, n);
    QueueStart(run[n]);
  }

  lemma QueueStart(s: State)
    requires Inv(s)
    ensures s.rx.queue.begin == s.tag + |s.rx.pulled|
  {}

  /** And an ack goes out exactly when messages have been pulled, with the number of the last of them. */
  lemma PulledIsAcknowledged(tag: SeqNum32, run: seq<State>, steps: seq<Step>, n: nat)
    requires IsRun(tag, run, steps) && n < |steps|
    ensures var before, after := run[n].rx.pulled, run[n + 1].rx.pulled;
      run[n + 1].ackNet == run[n].ackNet + if |after| == |before| then {} else {NumberOf(run[n], |after| - 1)}
  {
    hide Wrap32, Inv, Flushed;
    RunInv(tag, run, steps, n);
    RunHas(tag, run, steps, n, 0);
    match steps[n]
    case Deliver(d) => DeliverHas(run[n], d, 0);
    case _ =>
  }

  /** And of the messages pulled it sees exactly those of the known types, whole, in order and each once; so do its
      events tell of the messages sent that have been pulled. */
  lemma EventsAreExact(tag: SeqNum32, run: seq<State>, steps: seq<Step>, n: nat)
    requires IsRun(tag, run, steps) && n < |run|
    ensures var pulled := run[n].rx.pulled;
      && pulled <= run[n].sent
      && Filtered(run[n].sent[..|pulled|], IsKnown, BodiesOf(Events(pulled)))
  {
    hide Filtered, IsKnown, Events, IsRun;
    PulledIsPrefixOfSent(tag, run, steps, n, n);
    EventsAreKnown(run[n].rx.pulled);
    assert run[n].sent[..|run[n].rx.pulled|] == run[n].rx.pulled;
  }
}
