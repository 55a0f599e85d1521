/** The give-up of the resend thread, step by step: a whole pass of takion_send_buffer_resend that nothing
    interrupts is a sequence of protocol steps; and a run in which an ack interrupts the give-up, so that a packet
    goes that was neither pulled nor ever repeated. */
module TakionGiveUp {
  import opened SeqNum
  import opened ReorderQueue
  import opened ResendPass
  import opened SendBuffer
  import opened Takion
  import opened TakionProtocol

  // ---------------------------------------------------------------- sequences of steps

  predicate AllEnabled(s: State, steps: seq<Step>)
    decreases |steps|
  {
    steps != [] ==> Enabled(s, steps[0]) && AllEnabled(Apply(s, steps[0]), steps[1..])
  }

  function Exec(s: State, steps: seq<Step>): State
    requires AllEnabled(s, steps)
    decreases |steps|
  {
    if steps == [] then s else Exec(Apply(s, steps[0]), steps[1..])
  }

  lemma {:induction false} ExecAppend(s: State, a: seq<Step>, b: seq<Step>)
    requires AllEnabled(s, a) && AllEnabled(Exec(s, a), b)
    ensures AllEnabled(s, a + b) && Exec(s, a + b) == Exec(Exec(s, a), b)
    decreases |a|
  {
    hide Enabled, Apply;
    if a == [] {
      assert a + b == b;
    } else {
      assert (a + b)[1..] == a[1..] + b;
      ExecAppend(Apply(s, a[0]), a[1..], b);
    }
  }

  lemma ExecOne(s: State, step: Step)
    requires Enabled(s, step)
    ensures AllEnabled(s, [step]) && Exec(s, [step]) == Apply(s, step)
  {
    hide Enabled, Apply;
    assert [step][1..] == [];
  }

  lemma ThreeSteps(s: State, a: Step, b: Step, c: Step)
    requires Enabled(s, a) && Enabled(Apply(s, a), b) && Enabled(Apply(Apply(s, a), b), c)
    ensures AllEnabled(s, [a, b, c]) && Exec(s, [a, b, c]) == Apply(Apply(Apply(s, a), b), c)
  {
    hide Enabled, Apply;
    var s1 := Apply(s, a);
    var s2 := Apply(s1, b);
    ExecOne(s, a);
    ExecOne(s1, b);
    ExecOne(s2, c);
    ExecAppend(s, [a], [b]);
    assert [a] + [b] == [a, b];
    ExecAppend(s, [a, b], [c]);
    assert [a, b] + [c] == [a, b, c];
  }

  /** The states that the steps go through, the first and the last included */
  function Trace(s: State, steps: seq<Step>): (states: seq<State>)
    requires AllEnabled(s, steps)
    ensures |states| == |steps| + 1 && states[0] == s
    decreases |steps|
  {
    if steps == [] then [s] else [s] + Trace(Apply(s, steps[0]), steps[1..])
  }

  lemma {:induction false} TraceSteps(s: State, steps: seq<Step>, n: nat)
    requires AllEnabled(s, steps) && n < |steps|
    ensures var states := Trace(s, steps);
      Enabled(states[n], steps[n]) && states[n + 1] == Apply(states[n], steps[n])
    decreases n
  {
    hide Enabled, Apply;
    if n > 0 { TraceSteps(Apply(s, steps[0]), steps[1..], n - 1); }
  }

  lemma {:induction false} TraceEnds(s: State, steps: seq<Step>)
    requires AllEnabled(s, steps)
    ensures Trace(s, steps)[|steps|] == Exec(s, steps)
    decreases |steps|
  {
    hide Enabled, Apply;
    if steps != [] { TraceEnds(Apply(s, steps[0]), steps[1..]); }
  }

  lemma TraceIsRun(tag: SeqNum32, raw: seq<Packet>, steps: seq<Step>)
    requires |raw| == SEND_BUFFER_SIZE && AllEnabled(Init(tag, raw), steps)
    ensures IsRun(tag, Trace(Init(tag, raw), steps), steps)
  {
    hide Enabled, Apply, AllEnabled, Trace;
    var states := Trace(Init(tag, raw), steps);
    assert states[0] == Init(tag, raw) && states[0].slots.raw == raw;
    forall n | 0 <= n < |steps| ensures Enabled(states[n], steps[n]) && states[n + 1] == Apply(states[n], steps[n]) {
      TraceSteps(Init(tag, raw), steps, n);
    }
  }

  // ---------------------------------------------------------------- a pass that nothing interrupts

  /** The steps of takion_send_buffer_resend from index i on */
  function PassSteps(packets: seq<Packet>, i: nat, now: nat): seq<Step>
    decreases |packets| - i
  {
    if i >= |packets| then []
    else
      var p := packets[i];
      if !Expired(p, now) then
        PassSteps(packets, i + 1, now)
      else if p.tries >= TRIES_MAX then
        GiveUpShrinks(packets, i);
        [Decide(i, now), ReadNumber, AckGivenUp] + PassSteps(Unacked(packets, p.seqNum), if i > 0 then i else 1, now)
      else
        [Resend(i, now)] + PassSteps(packets[i := p.(lastSendMs := now, tries := p.tries + 1)], i + 1, now)
  }

  /** The packets that steps of the resend thread send, in order */
  function SentBy(s: State, steps: seq<Step>): seq<Packet>
    requires AllEnabled(s, steps)
    decreases |steps|
  {
    if steps == [] then []
    else
      var later := SentBy(Apply(s, steps[0]), steps[1..]);
      if steps[0].Resend? then [s.slots.raw[steps[0].k]] + later else later
  }

  lemma {:induction false} SentByAppend(s: State, a: seq<Step>, b: seq<Step>)
    requires AllEnabled(s, a) && AllEnabled(Exec(s, a), b)
    ensures AllEnabled(s, a + b) && SentBy(s, a + b) == SentBy(s, a) + SentBy(Exec(s, a), b)
    decreases |a|
  {
    hide Apply;
    ExecAppend(s, a, b);
    if a == [] {
      assert a + b == b;
    } else {
      assert (a + b)[1..] == a[1..] + b;
      SentByAppend(Apply(s, a[0]), a[1..], b);
    }
  }

  function DataOf(packets: seq<Packet>): set<Data> {
    set p | p in packets :: (p.seqNum, p.buf)
  }

  lemma GiveUpSteps(s: State, i: nat, now: nat)
    requires Enabled(s, Decide(i, now))
    ensures var steps := [Decide(i, now), ReadNumber, AckGivenUp];
      && AllEnabled(s, steps) && Exec(s, steps) == s.(slots := s.slots.AfterAck(s.slots.raw[i].seqNum))
      && SentBy(s, steps) == []
  {
    hide Expired;
    ThreeSteps(s, Decide(i, now), ReadNumber, AckGivenUp);
    assert [Decide(i, now), ReadNumber, AckGivenUp][1..] == [ReadNumber, AckGivenUp];
    assert [ReadNumber, AckGivenUp][1..] == [AckGivenUp] && [AckGivenUp][1..] == [];
  }

  lemma RepeatStep(s: State, i: nat, now: nat)
    requires Enabled(s, Resend(i, now))
    ensures AllEnabled(s, [Resend(i, now)]) && SentBy(s, [Resend(i, now)]) == [s.slots.raw[i]]
  {
    hide Expired;
    ExecOne(s, Resend(i, now));
    assert [Resend(i, now)][1..] == [];
  }

  /** These steps leave nothing but the given packets and send nothing but the given ones, all of which enters the
      channel. */
  ghost predicate RunsAs(s: State, steps: seq<Step>, r: Resent) {
    && AllEnabled(s, steps)
    && var t := Exec(s, steps);
       && t == s.(slots := t.slots, net := t.net) && t.slots.count <= |t.slots.raw|
       && r == Resent(Waiting(t), Bufs(SentBy(s, steps)))
       && t.net == s.net + DataOf(SentBy(s, steps))
  }

  lemma RunsAsPrepend(s: State, first: seq<Step>, later: seq<Step>, r: Resent)
    requires AllEnabled(s, first)
    requires var t := Exec(s, first);
      t == s.(slots := t.slots, net := t.net) && t.net == s.net + DataOf(SentBy(s, first)) && RunsAs(t, later, r)
    ensures RunsAs(s, first + later, Resent(r.packets, Bufs(SentBy(s, first)) + r.sent))
  {
    hide AllEnabled, Exec, SentBy;
    var t := Exec(s, first);
    ExecAppend(s, first, later);
    SentByAppend(s, first, later);
    var a, b := SentBy(s, first), SentBy(t, later);
    assert Bufs(a + b) == Bufs(a) + Bufs(b);
    assert DataOf(a + b) == DataOf(a) + DataOf(b);
  }

  /** A pass with no other thread in between is a sequence of steps: it leaves what Buffer.Resend leaves, and sends what
      that sends, which is all that enters the channel. */
  lemma {:induction false} PassIsSteps(s: State, i: nat, now: nat)
    requires s.resender.Idle? && s.slots.count <= |s.slots.raw|
    ensures RunsAs(s, PassSteps(Waiting(s), i, now), ResendFrom(Waiting(s), i, now))
    decreases |Waiting(s)| - i
  {
    hide Expired, Unacked, AllEnabled, Exec, SentBy, RunsAs;
    var live := s.slots.Live();
    if i >= |live| {
      NoSteps(s);
    } else if !Expired(live[i], now) {
      PassIsSteps(s, i + 1, now);
    } else if live[i].tries >= TRIES_MAX {
      GiveUpSteps(s, i, now);
      GiveUpShrinks(live, i);
      var t := s.(slots := s.slots.AfterAck(live[i].seqNum));
      var next := if i > 0 then i else 1;
      var r := ResendFrom(Waiting(t), next, now);
      PassIsSteps(t, next, now);
      assert Bufs([]) + r.sent == r.sent && DataOf([]) == {} && s.net + {} == s.net;
      RunsAsPrepend(s, [Decide(i, now), ReadNumber, AckGivenUp], PassSteps(Waiting(t), next, now), r);
    } else {
      var step := Resend(i, now);
      ExecOne(s, step);
      RepeatStep(s, i, now);
      var t := Apply(s, step);
      assert Waiting(t) == live[i := t.slots.raw[i]];
      PassIsSteps(t, i + 1, now);
      assert DataOf([live[i]]) == {(live[i].seqNum, live[i].buf)} && Bufs([live[i]]) == [live[i].buf];
      RunsAsPrepend(s, [step], PassSteps(Waiting(t), i + 1, now), ResendFrom(Waiting(t), i + 1, now));
    }
  }

  lemma NoSteps(s: State)
    ensures AllEnabled(s, []) && Exec(s, []) == s
    ensures s.slots.count <= |s.slots.raw| ==> RunsAs(s, [], Resent(Waiting(s), []))
  {}

  // ---------------------------------------------------------------- a give-up that an ack interrupts

  const FIRST: Body := [0]
  const SECOND: Body := [7]
  const PERIOD := RESEND_TIMEOUT_MS + 1

  /** The first message has been sent, and repeated m times. */
  function Repeated(raw: seq<Packet>, m: nat): State
    requires |raw| == SEND_BUFFER_SIZE
  {
    State(0, [FIRST], [Done], Slots(raw[0 := Packet(0, m, 0, PERIOD * m, FIRST)], 1), Idle, {(0, FIRST)}, {},
          Receiver(Window(0, 0, map[]), []))
  }

  function Repeats(m: nat): seq<Step> {
    if m == 0 then [] else Repeats(m - 1) + [Resend(0, PERIOD * m)]
  }

  lemma SendFirst(raw: seq<Packet>)
    requires |raw| == SEND_BUFFER_SIZE
    ensures var steps := [Number(FIRST), Transmit(0), Push(0, 0)];
      AllEnabled(Init(0, raw), steps) && Exec(Init(0, raw), steps) == Repeated(raw, 0)
  {
    var s := Init(0, raw);
    var s1 := Apply(s, Number(FIRST));
    var s2 := Apply(s1, Transmit(0));
    assert s1.phase[0 := OnTheWire] == [OnTheWire] && s2.phase[0 := Done] == [Done];
    ThreeSteps(s, Number(FIRST), Transmit(0), Push(0, 0));
  }

  lemma RepeatOnce(raw: seq<Packet>, m: nat)
    requires |raw| == SEND_BUFFER_SIZE && 0 < m <= TRIES_MAX
    ensures var s, step := Repeated(raw, m - 1), Resend(0, PERIOD * m);
      Enabled(s, step) && Apply(s, step) == Repeated(raw, m)
  {
    assert PERIOD * m - PERIOD * (m - 1) == PERIOD;
  }

  lemma {:induction false} RepeatFirst(raw: seq<Packet>, m: nat)
    requires |raw| == SEND_BUFFER_SIZE && m <= TRIES_MAX
    ensures AllEnabled(Repeated(raw, 0), Repeats(m)) && Exec(Repeated(raw, 0), Repeats(m)) == Repeated(raw, m)
  {
    hide Repeated, Apply, Enabled, AllEnabled, Exec;
    if m == 0 {
      NoSteps(Repeated(raw, 0));
    } else {
      RepeatFirst(raw, m - 1);
      var s, step := Repeated(raw, m - 1), Resend(0, PERIOD * m);
      RepeatOnce(raw, m);
      ExecOne(s, step);
      ExecAppend(Repeated(raw, 0), Repeats(m - 1), [step]);
    }
  }

  /** Both messages have been sent; the first has all its tries and has been pulled. */
  function BothSent(raw: seq<Packet>): State
    requires |raw| == SEND_BUFFER_SIZE
  {
    var now := PERIOD * TRIES_MAX;
    var slots := raw[0 := Packet(0, TRIES_MAX, 0, now, FIRST)][1 := Packet(1, 0, now, now, SECOND)];
    State(0, [FIRST, SECOND], [Done, Done], Slots(slots, 2), Idle, {(0, FIRST), (1, SECOND)}, {0},
          Receiver(Window(1, 1, map[]), [FIRST]))
  }

  lemma SendSecond(raw: seq<Packet>)
    requires |raw| == SEND_BUFFER_SIZE
    ensures var steps := [Number(SECOND), Transmit(1), Push(1, PERIOD * TRIES_MAX)];
      && AllEnabled(Repeated(raw, TRIES_MAX), steps)
      && var s := Exec(Repeated(raw, TRIES_MAX), steps);
         Enabled(s, Deliver((0, FIRST))) && Apply(s, Deliver((0, FIRST))) == BothSent(raw)
  {
    hide HandleData;
    var now := PERIOD * TRIES_MAX;
    var s := Repeated(raw, TRIES_MAX);
    var s1 := Apply(s, Number(SECOND));
    var s2 := Apply(s1, Transmit(1));
    var s3 := Apply(s2, Push(1, now));
    assert s2.phase == [Done, OnTheWire] && s3.phase == [Done, Done];
    assert s2.net == {(0, FIRST), (1, SECOND)};
    assert s.slots.Live() == [Packet(0, TRIES_MAX, 0, now, FIRST)];
    ThreeSteps(s, Number(SECOND), Transmit(1), Push(1, now));
    FirstPulled();
  }

  lemma FirstPulled()
    ensures HandleData(Receiver(Window(0, 0, map[]), []), 0, FIRST)
         == Handled(Receiver(Window(1, 1, map[]), [FIRST]), [0])
  {
    var w := Insert(Window(0, 0, map[]), REORDER_QUEUE_SIZE, DropEnd, 0, FIRST).window;
    assert w == Window(0, 1, map[0 := FIRST]);
    assert Take(w).window == Window(1, 1, map[]) && Take(w).entry == [(0, FIRST)];
    FlushUnfolds(w);
    FlushUnfolds(Take(w).window);
    assert Flush(w) == [(0, FIRST)] && Flushed(w) == Window(1, 1, map[]);
    assert [(0, FIRST)][1..] == [];
    assert Bodies(Flush(w)) == [FIRST];
  }

  /** Decided on the first packet, the thread releases the mutex; the ack of the first message comes in and moves
      the second packet into its slot; the thread reads the second packet's number, and acks it. */
  lemma InterruptedGiveUp(raw: seq<Packet>)
    requires |raw| == SEND_BUFFER_SIZE
    ensures var s := BothSent(raw);
      var steps := [Decide(0, PERIOD * (TRIES_MAX + 1)), DeliverAck(0), ReadNumber];
      && AllEnabled(s, steps)
      && var t := Exec(s, steps);
         && t.resender == Acking(1, s.slots.raw[0], true) && Waiting(t) == [s.slots.raw[1]]
         && t == s.(slots := t.slots, resender := t.resender)
         && Enabled(t, AckGivenUp) && Waiting(Apply(t, AckGivenUp)) == []
  {
    var s := BothSent(raw);
    var first, second := s.slots.raw[0], s.slots.raw[1];
    assert s.slots.Live() == [first, second];
    FirstCovered(first, second);
    var s1 := Apply(s, Decide(0, PERIOD * (TRIES_MAX + 1)));
    var s2 := Apply(s1, DeliverAck(0));
    assert s2.slots.Live() == [second];
    ThreeSteps(s, Decide(0, PERIOD * (TRIES_MAX + 1)), DeliverAck(0), ReadNumber);
  }

  lemma FirstCovered(first: Packet, second: Packet)
    requires first.seqNum == 0 && second.seqNum == 1
    ensures Unacked([first, second], 0) == [second] && Unacked([second], 1) == []
    ensures Covers(0, first)
  {
    assert [first, second][..1] == [first] && [first][..0] == [] && [second][..0] == [];
    assert Unacked([first], 0) == [];
  }

  /** An instance of the other half of RemovalIsJustified: in this run the second message leaves the send buffer
      although it was never pulled, and never repeated; it will not be either, since the buffer is empty. */
  lemma UntriedPacketRemoved(raw: seq<Packet>) returns (run: seq<State>, steps: seq<Step>)
    requires |raw| == SEND_BUFFER_SIZE
    ensures IsRun(0, run, steps)
    ensures var n := |steps| - 1;
      && n >= 0 && steps[n] == AckGivenUp && Removed(run[n], run[n + 1], 1)
      && run[n].resender.Acking? && run[n].resender.displaced
      && |run[n].rx.pulled| == 1 && |Waiting(run[n])| == 1 && Waiting(run[n])[0].tries == 0
      && Waiting(run[n + 1]) == []
  {
    hide Enabled, Apply, AllEnabled, Exec, Trace, Repeats, Repeated, BothSent, Removed;
    var s := Init(0, raw);
    var send, repeats, send2 := [Number(FIRST), Transmit(0), Push(0, 0)], Repeats(TRIES_MAX),
                                [Number(SECOND), Transmit(1), Push(1, PERIOD * TRIES_MAX)];
    var pull, giveUp := [Deliver((0, FIRST))], [Decide(0, PERIOD * (TRIES_MAX + 1)), DeliverAck(0), ReadNumber];
    SendFirst(raw);
    RepeatFirst(raw, TRIES_MAX);
    ExecAppend(s, send, repeats);
    SendSecond(raw);
    ExecAppend(s, send + repeats, send2);
    var s3 := Exec(s, send + repeats + send2);
    ExecOne(s3, Deliver((0, FIRST)));
    ExecAppend(s, send + repeats + send2, pull);
    InterruptedGiveUp(raw);
    ExecAppend(s, send + repeats + send2 + pull, giveUp);
    var before := send + repeats + send2 + pull + giveUp;
    var t := Exec(s, before);
    ExecOne(t, AckGivenUp);
    ExecAppend(s, before, [AckGivenUp]);
    steps := before + [AckGivenUp];
    run := Trace(s, steps);
    TraceIsRun(0, raw, steps);
    TraceAppend(s, before, AckGivenUp);
    SecondRemoved(raw, t);
  }

  /** The last step of a trace */
  lemma {:induction false} TraceAppend(s: State, steps: seq<Step>, last: Step)
    requires AllEnabled(s, steps) && Enabled(Exec(s, steps), last) && AllEnabled(s, steps + [last])
    ensures var states := Trace(s, steps + [last]);
      states[|steps|] == Exec(s, steps) && states[|steps| + 1] == Apply(Exec(s, steps), last)
    decreases |steps|
  {
    hide Enabled, Apply;
    if steps == [] {
      assert (steps + [last])[1..] == [];
    } else {
      assert (steps + [last])[1..] == steps[1..] + [last];
      TraceAppend(Apply(s, steps[0]), steps[1..], last);
    }
  }

  lemma SecondRemoved(raw: seq<Packet>, t: State)
    requires |raw| == SEND_BUFFER_SIZE && t == BothSent(raw).(slots := t.slots, resender := t.resender)
    requires Waiting(t) == [BothSent(raw).slots.raw[1]] && Enabled(t, AckGivenUp) && Waiting(Apply(t, AckGivenUp)) == []
    ensures Removed(t, Apply(t, AckGivenUp), 1) && |t.rx.pulled| == 1 && Waiting(t)[0].tries == 0
  {
    var p := BothSent(raw).slots.raw[1];
    assert p in Waiting(t) && IsMessage(t, 1, p.seqNum, p.buf);
  }
}
