/** The outgoing message queue of lib/src/ctrl.c: any number of threads enqueue under the mutex and then, without
    it, write a byte to the wake-up pipe; the ctrl thread waits in select, drains the queue and resets the pipe. Login
    PINs and stop requests use the same pipe. */
module CtrlQueue {

  /** Where a sending thread stands: about to enqueue a message, or between its unlock and its pipe write. */
  datatype Sender<M> = Ready | Enqueued(m: M)

  /** The ctrl thread: holding the lock at the top of its loop, waiting in select without it, or back from
      select on its way to the lock, with the reason; or it has stopped. */
  datatype Thread = Top | Selecting | Woken(cancelled: bool) | Stopped

  /** `pipe` counts the bytes in the wake-up pipe; `pinEntered` is the login PIN handed in by another thread, and
      `pinsSent` how many of them went out. */
  datatype State<M> = State(senders: seq<Sender<M>>, thread: Thread, queue: seq<M>, pipe: nat, pinEntered: bool,
                            shouldStop: bool, enqueued: seq<M>, sent: seq<M>, pinsSent: nat)

  datatype Step<M> =
    | Enqueue(i: nat, m: M)   // chiaki_ctrl_send_message, the part under the mutex
    | Wake(i: nat)            // and its pipe write after the unlock
    | EnterPin                // chiaki_ctrl_set_login_pin, all under the mutex
    | RequestStop             // chiaki_ctrl_stop, all under the mutex
    | Wait                    // the ctrl thread releases the mutex and enters select
    | Return                  // select returns: the pipe if it is readable, else the socket
    | Handle                  // the ctrl thread takes the mutex and acts
    | Exit                    // it leaves its loop: after an overflow, a failed select, or a failed or closed socket

  function Init<M>(n: nat): State<M> {
    State(seq(n, _ => Ready), Top, [], 0, false, false, [], [], 0)
  }

  /** The mutex is held at the top of the loop; everywhere else another thread may take it. Select returns when the
      pipe or the socket is readable, and prefers the pipe. */
  predicate Enabled<M(==)>(s: State<M>, step: Step<M>) {
    match step
    case Enqueue(i, _) => i < |s.senders| && s.senders[i].Ready? && s.thread != Top
    case Wake(i) => i < |s.senders| && s.senders[i].Enqueued?
    case EnterPin => s.thread != Top
    case RequestStop => s.thread != Top
    case Wait => s.thread == Top
    case Return => s.thread == Selecting
    case Handle => s.thread.Woken?
    case Exit => s.thread == Top || s.thread == Woken(false)
  }

  function Apply<M>(s: State<M>, step: Step<M>): State<M>
    requires Enabled(s, step)
  {
    match step
    case Enqueue(i, m) =>
      s.(senders := s.senders[i := Enqueued(m)], queue := s.queue + [m], enqueued := s.enqueued + [m])
    case Wake(i) => s.(senders := s.senders[i := Ready], pipe := s.pipe + 1)
    case EnterPin => s.(pinEntered := true, pipe := s.pipe + 1)
    case RequestStop => s.(shouldStop := true, pipe := s.pipe + 1)
    case Wait => s.(thread := Selecting)
    case Return => s.(thread := Woken(s.pipe > 0))
    case Handle => if s.thread.cancelled then Drain(s) else s.(thread := Top)
    case Exit => s.(thread := Stopped)
  }

  /** The cancelled branch: send and unlink every queued message; then send the PIN and reset the pipe, or stop, or
      reset the pipe if anything was sent. */
  function Drain<M>(s: State<M>): State<M> {
    var t := s.(sent := s.sent + s.queue, queue := [], thread := Top);
    if s.pinEntered then t.(pinEntered := false, pinsSent := s.pinsSent + 1, pipe := 0)
    else if s.shouldStop then t.(thread := Stopped)
    else if s.queue != [] then t.(pipe := 0)
    else t
  }

  /** Messages go out in the order they were enqueued, each once; and a queued message is never forgotten: there is
      a byte in the pipe, or a sender about to write one, or the ctrl thread has been woken and will drain. */
  ghost predicate Inv<M>(s: State<M>) {
    && s.enqueued == s.sent + s.queue
    && (s.queue != [] ==> s.pipe > 0 || PendingWake(s))
    && (s.pinEntered ==> s.pipe > 0)
    && (s.thread == Woken(true) ==> s.pipe > 0)
  }

  ghost predicate PendingWake<M>(s: State<M>) {
    exists i | 0 <= i < |s.senders| :: s.senders[i].Enqueued?
  }

  lemma StepInv<M>(s: State<M>, step: Step<M>)
    requires Inv(s) && Enabled(s, step)
    ensures Inv(Apply(s, step))
  {
    match step
    case Enqueue(i, m) =>
      assert Apply(s, step).senders[i].Enqueued?;
    case Handle =>
      assert s.sent + s.queue + [] == s.sent + s.queue;
    case _ =>
  }

  ghost predicate IsRun<M>(n: nat, run: seq<State<M>>, steps: seq<Step<M>>) {
    && |run| == |steps| + 1 && run[0] == Init(n)
    && forall k | 0 <= k < |steps| :: Enabled(run[k], steps[k]) && run[k + 1] == Apply(run[k], steps[k])
  }

  /** Main result, over every interleaving of any number of senders with the ctrl thread: what has been sent is a
      prefix of what was enqueued, in order and each once, the rest is queued; and while the ctrl thread waits in
      select with a nonempty queue, a byte is in the pipe or some sender is about to write one. */
  lemma {:induction false} NoMessageStranded<M>(n: nat, run: seq<State<M>>, steps: seq<Step<M>>, k: nat)
    requires IsRun(n, run, steps) && k < |run|
    ensures Inv(run[k])
    ensures run[k].enqueued == run[k].sent + run[k].queue
    ensures run[k].thread == Selecting && run[k].queue != [] ==> run[k].pipe > 0 || PendingWake(run[k])
  {
    if k > 0 {
      NoMessageStranded(n, run, steps, k - 1);
      StepInv(run[k - 1], steps[k - 1]);
    }
  }

  /** What a woken thread does, by what it finds: all queued messages have gone out afterwards, and a PIN; it stops
      exactly for a stop request without a PIN; and it empties the pipe exactly if it has sent something and goes on. */
  lemma WokenOutcome<M>(s: State<M>)
    requires Inv(s) && s.thread == Woken(true)
    ensures var t := Apply(s, Handle);
      && t.queue == [] && t.sent == s.enqueued
      && !t.pinEntered && t.pinsSent == s.pinsSent + (if s.pinEntered then 1 else 0)
      && (t.thread == Stopped <==> s.shouldStop && !s.pinEntered) && (t.thread != Stopped ==> t.thread == Top)
      && t.pipe == (if s.pinEntered || (!s.shouldStop && s.queue != []) then 0 else s.pipe)
      && t.senders == s.senders && t.shouldStop == s.shouldStop && t.enqueued == s.enqueued
  {
    assert s.sent + s.queue == s.enqueued;
  }

  // ---------------------------------------------------------------- wake-ups that find nothing to do

  predicate NothingToDo<M>(s: State<M>) {
    s.queue == [] && !s.pinEntered && !s.shouldStop
  }

  /** A thread that is woken and goes on is woken again at once, and in the very same state, if and only if it had
      nothing to do: it then leaves in the pipe what woke it. */
  lemma SpinsExactly<M>(s: State<M>)
    requires Inv(s) && s.thread == Woken(true)
    ensures var t := Apply(s, Handle);
      t.thread == Top ==>
        var again := Apply(Apply(t, Wait), Return);
        && (again == s <==> NothingToDo(s))
        && (again.thread == Woken(true) <==> NothingToDo(s))
  {
    WokenOutcome(s);
    if NothingToDo(s) { assert s.sent + [] == s.sent; }
  }

  /** A run that gets there: two messages go out together, and the second one's wake-up byte comes late. */
  lemma LateWake(a: int, b: int) returns (run: seq<State<int>>, steps: seq<Step<int>>)
    ensures IsRun(2, run, steps)
    ensures var last := run[|run| - 1];
      last.thread == Woken(true) && NothingToDo(last) && last.sent == [a, b] && last.senders == [Ready, Ready]
  {
    var s0 := Init<int>(2);
    steps := [Wait, Enqueue(0, a), Enqueue(1, b), Wake(0), Return, Handle, Wait, Wake(1), Return];
    var s1 := Apply(s0, Wait);
    assert s1 == State([Ready, Ready], Selecting, [], 0, false, false, [], [], 0);
    var s2 := Apply(s1, Enqueue(0, a));
    assert s2 == State([Enqueued(a), Ready], Selecting, [a], 0, false, false, [a], [], 0);
    var s3 := Apply(s2, Enqueue(1, b));
    assert s3 == State([Enqueued(a), Enqueued(b)], Selecting, [a, b], 0, false, false, [a, b], [], 0);
    var s4 := Apply(s3, Wake(0));
    assert s4 == State([Ready, Enqueued(b)], Selecting, [a, b], 1, false, false, [a, b], [], 0);
    var s5 := Apply(s4, Return);
    var s6 := Apply(s5, Handle);
    assert s6 == State([Ready, Enqueued(b)], Top, [], 0, false, false, [a, b], [a, b], 0);
    var s7 := Apply(s6, Wait);
    var s8 := Apply(s7, Wake(1));
    assert s8 == State([Ready, Ready], Selecting, [], 1, false, false, [a, b], [a, b], 0);
    run := [s0, s1, s2, s3, s4, s5, s6, s7, s8, Apply(s8, Return)];
  }

  // ---------------------------------------------------------------- stop requests

  /** A stop request that the ctrl thread has not followed yet has its byte in the pipe. */
  predicate StopWakes<M>(s: State<M>) {
    s.shouldStop && s.thread != Stopped ==> s.pipe > 0
  }

  /** The thread sends a login PIN while a stop request is pending: it resets the pipe before it looks at the
      request. */
  predicate SwallowsStop<M>(s: State<M>, step: Step<M>) {
    step.Handle? && s.thread == Woken(true) && s.pinEntered && s.shouldStop
  }

  /** The wake-up of a stop request survives a step if and only if the step does not do that. */
  lemma StopKept<M>(s: State<M>, step: Step<M>)
    requires Inv(s) && StopWakes(s) && Enabled(s, step)
    ensures StopWakes(Apply(s, step)) <==> !SwallowsStop(s, step)
  {
  }

  /** So the thread never waits in select with a stop request and an empty pipe, in any run without such a step. */
  lemma {:induction false} StopNotStranded<M>(n: nat, run: seq<State<M>>, steps: seq<Step<M>>, k: nat)
    requires IsRun(n, run, steps) && k < |run|
    requires forall j | 0 <= j < k :: !SwallowsStop(run[j], steps[j])
    ensures StopWakes(run[k])
  {
    if k > 0 {
      StopNotStranded(n, run, steps, k - 1);
      NoMessageStranded(n, run, steps, k - 1);
      StopKept(run[k - 1], steps[k - 1]);
    }
  }

  /** In any run without such a step a thread that waits with a stop request pending is woken when it next returns, and
      one that has been woken with it stops. */
  lemma StopObeyed<M>(n: nat, run: seq<State<M>>, steps: seq<Step<M>>, k: nat)
    requires IsRun(n, run, steps) && k < |steps| && run[k].shouldStop
    requires forall j | 0 <= j <= k :: !SwallowsStop(run[j], steps[j])
    ensures steps[k] == Return ==> run[k + 1].thread == Woken(true)
    ensures steps[k] == Handle && run[k].thread == Woken(true) ==>
      run[k + 1].thread == Stopped && run[k + 1].sent == run[k].enqueued
  {
    StopNotStranded(n, run, steps, k);
    NoMessageStranded(n, run, steps, k);
    if run[k].thread == Woken(true) { WokenOutcome(run[k]); }
  }

  /** A run with such a step: the thread waits for good, with the stop request set and nothing to wake it up. */
  lemma StopStranded() returns (run: seq<State<int>>, steps: seq<Step<int>>)
    ensures IsRun(0, run, steps)
    ensures var last := run[|run| - 1];
      last.thread == Selecting && last.shouldStop && last.pipe == 0 && last.senders == []
  {
    var s0 := Init<int>(0);
    steps := [Wait, EnterPin, RequestStop, Return, Handle, Wait];
    var s1 := Apply(s0, Wait);
    var s2 := Apply(s1, EnterPin);
    var s3 := Apply(s2, RequestStop);
    var s4 := Apply(s3, Return);
    var s5 := Apply(s4, Handle);
    run := [s0, s1, s2, s3, s4, s5, Apply(s5, Wait)];
  }

  // ---------------------------------------------------------------- the queue as a linked list

  /** struct chiaki_ctrl_message_queue_t */
  class QueueEntry<M> {
    const message: M
    var next: QueueEntry?<M>

    constructor (message: M)
      ensures this.message == message && next == null
    {
      this.message, next := message, null;
    }
  }

  /** What follows the i-th entry of a list */
  ghost function After<M>(entries: seq<QueueEntry<M>>, i: nat): QueueEntry?<M> {
    if i + 1 < |entries| then entries[i + 1] else null
  }

  /** The sending half of struct chiaki_ctrl_t: the queue is a list of entries; `sent` records the calls of
      ctrl_message_send, `pinsSent` those for a login PIN. */
  class Outgoing<M> {
    var msgQueue: QueueEntry?<M>
    var notifPipe: nat
    var loginPinEntered: bool
    var shouldStop: bool
    var sent: seq<M>
    var pinsSent: nat
    ghost var entries: seq<QueueEntry<M>>

    /** The list is exactly `entries`, linked in their order. */
    ghost predicate Valid()
      reads this, entries
    {
      && (msgQueue == if entries == [] then null else entries[0])
      && (forall i | 0 <= i < |entries| :: entries[i].next == After(entries, i))
      && (forall i, j | 0 <= i < j < |entries| :: entries[i] != entries[j])
    }

    ghost function Contents(): (messages: seq<M>)
      reads this
      ensures |messages| == |entries|
    {
      seq(|entries|, i requires 0 <= i < |entries| reads this => entries[i].message)
    }

    constructor ()
      ensures Valid() && Contents() == [] && notifPipe == 0 && !loginPinEntered && !shouldStop && sent == []
        && pinsSent == 0
    {
      msgQueue, notifPipe, loginPinEntered, shouldStop, sent, pinsSent := null, 0, false, false, [], 0;
      entries := [];
    }

    /** This object's part of a state of the protocol. */
    ghost predicate Shows(s: State<M>)
      reads this, entries
    {
      && Valid() && s.queue == Contents() && s.pipe == notifPipe
      && s.pinEntered == loginPinEntered && s.shouldStop == shouldStop && s.sent == sent
      && s.pinsSent == pinsSent
    }

    /** chiaki_ctrl_send_message under the mutex: the new entry goes behind the last one, found by walking the list. */
    method SendMessage(m: M, ghost s: State<M>, ghost i: nat)
      requires Shows(s) && Enabled(s, Enqueue(i, m))
      modifies this, entries
      ensures Shows(Apply(s, Enqueue(i, m)))
    {
      var queue := new QueueEntry<M>(m);
      if msgQueue == null {
        msgQueue := queue;
      } else {
        var c: QueueEntry<M> := msgQueue;
        ghost var k := 0;
        while c.next != null
          invariant 0 <= k < |entries| && c == entries[k] && Valid()
          decreases |entries| - k
        {
          assert entries[k].next == After(entries, k);
          c := c.next;
          k := k + 1;
        }
        assert entries[k].next == After(entries, k);
        c.next := queue;
      }
      ghost var was := entries;
      entries := entries + [queue];
      forall i | 0 <= i < |entries|
        ensures entries[i].next == After(entries, i)
      {
        if i < |was| - 1 { assert was[i].next == After(was, i); }
      }
      assert Contents() == old(Contents()) + [m];
    }

    /** One turn of its loop: the first entry is sent and unlinked. */
    method SendFirst()
      requires Valid() && msgQueue != null
      modifies this`msgQueue, this`entries, this`sent
      ensures Valid() && |entries| == |old(entries)| - 1
      ensures sent + Contents() == old(sent + Contents())
    {
      ghost var was, list := Contents(), entries;
      sent := sent + [msgQueue.message];
      assert list[0].next == After(list, 0);
      msgQueue := msgQueue.next;
      entries := entries[1..];
      forall i | 0 <= i < |entries| ensures entries[i].next == After(entries, i) {
        assert list[i + 1].next == After(list, i + 1);
      }
      assert was == [was[0]] + Contents();
    }

    /** The cancelled branch of ctrl_thread_func; the result says whether the thread stops. */
    method HandleCancelled(ghost s: State<M>) returns (stops: bool)
      requires Shows(s) && s.thread == Woken(true)
      modifies this
      ensures Shows(Apply(s, Handle)) && stops == (Apply(s, Handle).thread == Stopped)
    {
      var msgQueueUpdated := false;
      while msgQueue != null
        invariant Valid() && sent + Contents() == s.sent + s.queue
        invariant msgQueueUpdated == (s.queue != []) || (!msgQueueUpdated && Contents() == s.queue)
        invariant notifPipe == s.pipe && loginPinEntered == s.pinEntered && shouldStop == s.shouldStop
        invariant pinsSent == s.pinsSent
        decreases |entries|
      {
        SendFirst();
        msgQueueUpdated := true;
      }
      if loginPinEntered {
        pinsSent := pinsSent + 1;
        loginPinEntered := false;
        notifPipe := 0;
        return false;
      }
      if shouldStop {
        return true;
      }
      if msgQueueUpdated {
        notifPipe := 0;
      }
      return false;
    }
  }
}
