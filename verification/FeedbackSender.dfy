/** lib/src/feedbacksender.c: controller states become input events, each event one packet that repeats the 16 latest;
    and what a receiver can make of the packets that reach it. */
module FeedbackSender {
  import opened Octets
  import opened Options
  import opened Sequences
  import opened Powers
  import opened SeqNum
  import opened Feedback

  const HISTORY_SIZE := 16
  const PACKET_SIZE_MAX := 0x300
  const BUTTONS_COUNT := 16
  const L2 := 0x1_0000
  const R2 := 0x2_0000

  /** A touch that is up has a negative id. */
  datatype TouchPoint = TouchPoint(x: nat, y: nat, id: int)

  /** The part of a controller state that the history covers */
  datatype ControllerState = ControllerState(buttons: nat, l2: Byte, r2: Byte, touch0: TouchPoint, touch1: TouchPoint)

  datatype Packet = Packet(seqNum: SeqNum16, payload: seq<Byte>)

  predicate TouchInRange(t: TouchPoint) {
    t.x < 0x1_0000 && t.y < 0x1_0000 && -0x80 <= t.id < 0x80
  }

  predicate InRange(s: ControllerState) {
    TouchInRange(s.touch0) && TouchInRange(s.touch1)
  }

  // ---------------------------------------------------------------- the events between two states

  predicate Pressed(buttons: nat, i: nat) {
    buttons / Pow2(i) % 2 == 1
  }

  function ButtonState(buttons: nat, i: nat): Byte {
    if Pressed(buttons, i) then 0xff else 0
  }

  function ButtonEvents(prev: nat, now: nat, i: nat): seq<Event>
    requires i <= BUTTONS_COUNT
    decreases BUTTONS_COUNT - i
  {
    if i == BUTTONS_COUNT then []
    else
      var rest := ButtonEvents(prev, now, i + 1);
      if Pressed(prev, i) != Pressed(now, i) then [Button(Pow2(i), ButtonState(now, i))] + rest else rest
  }

  function TriggerEvents(button: nat, prev: Byte, now: Byte): seq<Event> {
    if prev != now then [Button(button, now)] else []
  }

  function TouchEvents(prev: TouchPoint, now: TouchPoint): seq<Event>
    requires TouchInRange(prev) && TouchInRange(now)
  {
    if prev.id != now.id && prev.id >= 0 then [Touch(false, prev.id, prev.x, prev.y)]
    else if now.id >= 0 && (prev.id != now.id || prev.x != now.x || prev.y != now.y) then
      [Touch(true, now.id, now.x, now.y)]
    else []
  }

  function Changes(prev: ControllerState, now: ControllerState): seq<Event>
    requires InRange(prev) && InRange(now)
  {
    ButtonEvents(prev.buttons, now.buttons, 0) + TriggerEvents(L2, prev.l2, now.l2) + TriggerEvents(R2, prev.r2, now.r2)
    + TouchEvents(prev.touch0, now.touch0) + TouchEvents(prev.touch1, now.touch1)
  }

  lemma TriggersKnown(state: Byte)
    ensures Known(Button(L2, state)) && Known(Button(R2, state))
  {}

  lemma ButtonKnown(i: nat)
    requires i < BUTTONS_COUNT
    ensures forall state :: Known(Button(Pow2(i), state))
    ensures Pow2(i) < L2
  {
    assert Pow2(0) == 0x1 && Pow2(1) == 0x2 && Pow2(2) == 0x4 && Pow2(3) == 0x8;
    assert Pow2(4) == 0x10 && Pow2(5) == 0x20 && Pow2(6) == 0x40 && Pow2(7) == 0x80;
    assert Pow2(8) == 0x100 && Pow2(9) == 0x200 && Pow2(10) == 0x400 && Pow2(11) == 0x800;
    assert Pow2(12) == 0x1000 && Pow2(13) == 0x2000 && Pow2(14) == 0x4000 && Pow2(15) == 0x8000;
  }

  lemma {:induction false} ButtonEventsKnown(prev: nat, now: nat, i: nat)
    requires i <= BUTTONS_COUNT
    ensures AllKnown(ButtonEvents(prev, now, i)) && AllExact(ButtonEvents(prev, now, i))
    decreases BUTTONS_COUNT - i
  {
    hide Pressed, Known, Pow2;
    if i < BUTTONS_COUNT {
      ButtonKnown(i);
      ButtonEventsKnown(prev, now, i + 1);
    }
  }

  /** 12-bit touch coordinates, as both states need for their events to survive the encoding */
  predicate TwelveBits(s: ControllerState) {
    s.touch0.x < 0x1000 && s.touch0.y < 0x1000 && s.touch1.x < 0x1000 && s.touch1.y < 0x1000
  }

  lemma ChangesKnown(prev: ControllerState, now: ControllerState)
    requires InRange(prev) && InRange(now)
    ensures AllKnown(Changes(prev, now))
    ensures TwelveBits(prev) && TwelveBits(now) ==> AllExact(Changes(prev, now))
  {
    hide ButtonEvents;
    ButtonEventsKnown(prev.buttons, now.buttons, 0);
  }

  /** controller_state_equals_for_feedback_history */
  predicate EqualsForHistory(a: ControllerState, b: ControllerState) {
    && a.buttons == b.buttons && a.l2 == b.l2 && a.r2 == b.r2
    && a.touch0.id == b.touch0.id && (a.touch0.id >= 0 ==> a.touch0.x == b.touch0.x && a.touch0.y == b.touch0.y)
    && a.touch1.id == b.touch1.id && (a.touch1.id >= 0 ==> a.touch1.x == b.touch1.x && a.touch1.y == b.touch1.y)
  }

  lemma NoMoreButtons(prev: nat, now: nat)
    ensures ButtonEvents(prev, now, BUTTONS_COUNT) == []
  {}

  lemma NextButton(prev: nat, now: nat, i: nat, es: seq<Event>)
    requires i < BUTTONS_COUNT
    ensures var e := Button(Pow2(i), if Pressed(now, i) then 0xff else 0);
      es + ButtonEvents(prev, now, i)
      == (if Pressed(prev, i) != Pressed(now, i) then es + [e] else es) + ButtonEvents(prev, now, i + 1)
  {
    hide Pressed, Pow2;
    if Pressed(prev, i) != Pressed(now, i) {
      var e, rest := Button(Pow2(i), ButtonState(now, i)), ButtonEvents(prev, now, i + 1);
      assert es + ([e] + rest) == (es + [e]) + rest;
    }
  }

  lemma {:induction false} NoButtonEvents(buttons: nat, i: nat)
    requires i <= BUTTONS_COUNT
    ensures ButtonEvents(buttons, buttons, i) == []
    decreases BUTTONS_COUNT - i
  {
    hide Pressed;
    if i < BUTTONS_COUNT { NoButtonEvents(buttons, i + 1); }
  }

  /** What the event of every button would be */
  function AllButtons(now: nat): (es: seq<Event>)
    ensures |es| == BUTTONS_COUNT
    ensures forall i | 0 <= i < BUTTONS_COUNT :: es[i] == Button(Pow2(i), if now / Pow2(i) % 2 == 1 then 0xff else 0)
  {
    seq(BUTTONS_COUNT, i requires 0 <= i < BUTTONS_COUNT =>
      Button(Pow2(i), if now / Pow2(i) % 2 == 1 then 0xff else 0))
  }

  /** The buttons from the i-th on that changed are exactly those at these positions. */
  ghost predicate Changed(prev: nat, now: nat, i: nat, at: seq<nat>) {
    forall j: nat | j < BUTTONS_COUNT :: j in at <==> i <= j && Pressed(prev, j) != Pressed(now, j)
  }

  /** There is one event for each button that changed, with its new state, by ascending bits, and none for the
      others. */
  lemma {:induction false} OneEventPerButton(prev: nat, now: nat, i: nat) returns (at: seq<nat>)
    requires i <= BUTTONS_COUNT
    ensures PickedAt(AllButtons(now), at, ButtonEvents(prev, now, i)) && Changed(prev, now, i, at)
    decreases BUTTONS_COUNT - i
  {
    hide Pressed, Pow2, PickedAt, Changed, AllButtons;
    if i == BUTTONS_COUNT {
      at := [];
      NoButtonPicked(prev, now);
    } else {
      var rest := OneEventPerButton(prev, now, i + 1);
      ChangedStep(prev, now, i, rest);
      if Pressed(prev, i) != Pressed(now, i) {
        at := [i] + rest;
        NextPicked(AllButtons(now), i, rest, ButtonEvents(prev, now, i + 1));
        assert AllButtons(now)[i] == Button(Pow2(i), ButtonState(now, i)) by { ButtonIs(now, i); }
      } else {
        at := rest;
      }
    }
  }

  lemma NoButtonPicked(prev: nat, now: nat)
    ensures PickedAt(AllButtons(now), [], []) && Changed(prev, now, BUTTONS_COUNT, [])
  {}

  lemma ButtonIs(now: nat, i: nat)
    requires i < BUTTONS_COUNT
    ensures AllButtons(now)[i] == Button(Pow2(i), ButtonState(now, i))
  {
    hide Pow2;
  }

  lemma ChangedStep(prev: nat, now: nat, i: nat, rest: seq<nat>)
    requires i < BUTTONS_COUNT && Changed(prev, now, i + 1, rest)
    ensures Changed(prev, now, i, if Pressed(prev, i) != Pressed(now, i) then [i] + rest else rest)
    ensures forall j <- rest :: j < BUTTONS_COUNT ==> i < j
  {
    hide Pressed;
    forall j: nat ensures j in [i] + rest <==> j == i || j in rest {}
  }

  lemma NextPicked<T>(xs: seq<T>, i: nat, at: seq<nat>, ys: seq<T>)
    requires PickedAt(xs, at, ys) && i < |xs| && forall j <- at :: j < |xs| ==> i < j
    ensures PickedAt(xs, [i] + at, [xs[i]] + ys)
  {
    var all: seq<nat> := [i] + at;
    assert forall j | 0 <= j < |at| :: at[j] in at;
    assert forall j | 0 < j < |all| :: all[j] == at[j - 1] && i < all[j];
  }

  /** A trigger or a touch slot has one event if it changed in a way that is reported, and none otherwise. */
  lemma OneEventPerControl(button: nat, l: Byte, r: Byte, prev: TouchPoint, now: TouchPoint)
    requires TouchInRange(prev) && TouchInRange(now)
    ensures |TriggerEvents(button, l, r)| == if l == r then 0 else 1
    ensures |TouchEvents(prev, now)|
         == if prev.id == now.id && (now.id < 0 || (prev.x == now.x && prev.y == now.y)) then 0
            else if prev.id < 0 && now.id < 0 then 0 else 1
  {}

  /** The sender may skip states that compare equal: nothing would have been sent. */
  lemma EqualStatesHaveNoEvents(prev: ControllerState, now: ControllerState)
    requires InRange(prev) && InRange(now) && EqualsForHistory(now, prev)
    ensures Changes(prev, now) == []
  {
    NoButtonEvents(now.buttons, 0);
  }

  // ---------------------------------------------------------------- the packets

  /** The n latest events, newest first. */
  function Recent<T>(es: seq<T>, n: nat): (r: seq<T>)
    ensures |r| == if |es| <= n then |es| else n
    ensures forall i | 0 <= i < |r| :: r[i] == es[|es| - 1 - i]
  {
    seq(if |es| <= n then |es| else n, i requires 0 <= i < |es| => es[|es| - 1 - i])
  }

  /** The packet sent after the k-th event */
  function PacketOf(es: seq<Event>, k: nat): Packet
    requires 1 <= k <= |es| && AllKnown(es)
  {
    Packet(Wrap16(k - 1), Flat(Encodings(Recent(es[..k], HISTORY_SIZE))))
  }

  /** It decodes to the last 16 events, newest first. */
  lemma PacketDecodes(es: seq<Event>, k: nat)
    requires 1 <= k <= |es| && AllKnown(es) && AllExact(es)
    ensures DecodePacket(PacketOf(es, k).payload) == Some(Recent(es[..k], HISTORY_SIZE))
  {
    hide Known, Exact;
    DecodeFlat(Recent(es[..k], HISTORY_SIZE));
  }

  /** Formatting a full ring never runs out of space. */
  lemma PacketFits(es: seq<Event>)
    requires AllKnown(es)
    ensures |Flat(Encodings(Recent(es, HISTORY_SIZE)))| <= EVENT_SIZE_MAX * HISTORY_SIZE < PACKET_SIZE_MAX
  {
    FlatBound(Encodings(Recent(es, HISTORY_SIZE)), EVENT_SIZE_MAX);
  }

  lemma RecentPush(es: seq<Event>, e: Event)
    requires AllKnown(es) && Known(e)
    ensures PushFront(Encodings(Recent(es, HISTORY_SIZE)), EventBytes(e), HISTORY_SIZE)
         == Encodings(Recent(es + [e], HISTORY_SIZE))
  {
    hide EventBytes, Known;
    var before, after := Recent(es, HISTORY_SIZE), Recent(es + [e], HISTORY_SIZE);
    assert forall i | 0 < i < |after| :: after[i] == before[i - 1];
    assert after[0] == e;
  }

  /** The sending half of struct chiaki_feedback_sender_t that deals with the history. `sent` is what went to Takion,
      `history` all events so far. */
  class FeedbackSender {
    const historyBuf: HistoryBuffer
    var historySeqNum: nat
    var controllerStatePrev: ControllerState
    var controllerState: ControllerState
    var sent: seq<Packet>
    ghost var history: seq<Event>

    /** One packet per event, with consecutive numbers, and each as it should be. */
    ghost predicate Valid()
      reads this, historyBuf, historyBuf.events
    {
      && historyBuf.Valid() && historyBuf.size == HISTORY_SIZE
      && AllKnown(history)
      && historyBuf.Contents() == Encodings(Recent(history, HISTORY_SIZE))
      && historySeqNum == Wrap16(|history|)
      && PacketsOf(sent, history)
    }

    constructor (idle: ControllerState)
      ensures Valid() && fresh(historyBuf) && fresh(historyBuf.events)
      ensures history == [] && controllerStatePrev == controllerState == idle
    {
      historyBuf := new HistoryBuffer(HISTORY_SIZE);
      historySeqNum := 0;
      controllerStatePrev, controllerState := idle, idle;
      sent, history := [], [];
    }

    /** Pushes an event and runs feedback_sender_send_history_packet. */
    method PushAndSend(event: HistoryEvent, ghost e: Event)
      requires Valid() && event.Valid() && Known(e) && event.Content() == EventBytes(e)
      modifies this, historyBuf, historyBuf.events
      ensures Valid() && history == old(history) + [e]
      ensures controllerState == old(controllerState) && controllerStatePrev == old(controllerStatePrev)
    {
      hide SlotsFrom, PushFront, Flat, EventBytes, Known, PacketsOf;
      RecentPush(history, e);
      historyBuf.Push(event);
      ghost var es := history + [e];
      PacketFits(es);
      var buf := new Byte[PACKET_SIZE_MAX](_ => 0);
      var size := historyBuf.Format(buf);
      if size.None? {
        assert false;
      } else {
        assert buf[..size.value] == Flat(Encodings(Recent(es, HISTORY_SIZE)));
        var packet := Packet(historySeqNum, buf[..size.value]);
        assert es[..|es|] == es;
        PacketsAppend(sent, history, e, packet);
        sent := sent + [packet];
        historySeqNum := Wrap16(historySeqNum + 1);
        history := es;
      }
    }

    /** One turn of the touch loop of feedback_sender_send_history */
    method SendTouch(prev: TouchPoint, now: TouchPoint)
      requires Valid() && TouchInRange(prev) && TouchInRange(now)
      modifies this, historyBuf, historyBuf.events
      ensures Valid() && history == old(history) + TouchEvents(prev, now)
      ensures controllerState == old(controllerState) && controllerStatePrev == old(controllerStatePrev)
    {
      hide FeedbackSender.Valid, EventBytes;
      if prev.id != now.id && prev.id >= 0 {
        var event := new HistoryEvent();
        event.SetTouchpad(false, prev.id, prev.x, prev.y);
        PushAndSend(event, Touch(false, prev.id, prev.x, prev.y));
      } else if now.id >= 0 && (prev.id != now.id || prev.x != now.x || prev.y != now.y) {
        var event := new HistoryEvent();
        event.SetTouchpad(true, now.id, now.x, now.y);
        PushAndSend(event, Touch(true, now.id, now.x, now.y));
      }
    }

    /** A button or trigger of feedback_sender_send_history */
    method SendButton(button: nat, state: Byte)
      requires Valid() && Known(Button(button, state))
      modifies this, historyBuf, historyBuf.events
      ensures Valid() && history == old(history) + [Button(button, state)]
      ensures controllerState == old(controllerState) && controllerStatePrev == old(controllerStatePrev)
    {
      hide FeedbackSender.Valid, EventBytes, Known;
      var event := new HistoryEvent();
      var ok := event.SetButton(button, state);
      if ok {
        PushAndSend(event, Button(button, state));
      }
    }

    /** The button loop of feedback_sender_send_history */
    method SendButtons(prev: nat, now: nat)
      requires Valid()
      modifies this, historyBuf, historyBuf.events
      ensures Valid() && history == old(history) + ButtonEvents(prev, now, 0)
      ensures controllerState == old(controllerState) && controllerStatePrev == old(controllerStatePrev)
    {
      hide FeedbackSender.Valid, Known, Pressed, Pow2, ButtonEvents;
      NoMoreButtons(prev, now);
      ghost var all := history + ButtonEvents(prev, now, 0);
      var i := 0;
      while i < BUTTONS_COUNT
        invariant 0 <= i <= BUTTONS_COUNT && Valid()
        invariant all == history + ButtonEvents(prev, now, i)
        invariant controllerState == old(controllerState) && controllerStatePrev == old(controllerStatePrev)
      {
        NextButton(prev, now, i, history);
        if Pressed(prev, i) != Pressed(now, i) {
          ButtonKnown(i);
          SendButton(Pow2(i), if Pressed(now, i) then 0xff else 0);
        }
        i := i + 1;
      }
    }

    /** feedback_sender_send_history */
    method SendHistory()
      requires Valid() && InRange(controllerState) && InRange(controllerStatePrev)
      modifies this, historyBuf, historyBuf.events
      ensures Valid() && history == old(history) + Changes(old(controllerStatePrev), old(controllerState))
      ensures controllerState == old(controllerState) && controllerStatePrev == old(controllerStatePrev)
    {
      hide FeedbackSender.Valid, Known, TouchEvents, ButtonEvents;
      var prev, now := controllerStatePrev, controllerState;
      SendButtons(prev.buttons, now.buttons);
      TriggersKnown(now.l2);
      TriggersKnown(now.r2);
      if prev.l2 != now.l2 {
        SendButton(L2, now.l2);
      }
      if prev.r2 != now.r2 {
        SendButton(R2, now.r2);
      }
      SendTouch(prev.touch0, now.touch0);
      SendTouch(prev.touch1, now.touch1);
    }

    /** A turn of feedback_sender_thread_func after the state has changed */
    method HandleState(state: ControllerState)
      requires Valid() && InRange(state) && InRange(controllerStatePrev)
      modifies this, historyBuf, historyBuf.events
      ensures Valid() && history == old(history) + Changes(old(controllerStatePrev), state)
      ensures controllerStatePrev == controllerState == state
    {
      controllerState := state;
      if !EqualsForHistory(controllerState, controllerStatePrev) {
        SendHistory();
      } else {
        EqualStatesHaveNoEvents(controllerStatePrev, controllerState);
      }
      controllerStatePrev := controllerState;
    }
  }

  ghost predicate PacketsOf(sent: seq<Packet>, es: seq<Event>) {
    AllKnown(es) && |sent| == |es| && forall k | 0 <= k < |sent| :: sent[k] == PacketOf(es, k + 1)
  }

  lemma PacketsAppend(sent: seq<Packet>, es: seq<Event>, e: Event, packet: Packet)
    requires PacketsOf(sent, es) && Known(e) && packet == PacketOf(es + [e], |es| + 1)
    ensures PacketsOf(sent + [packet], es + [e])
  {
    forall k | 0 <= k < |es| ensures sent[k] == PacketOf(es + [e], k + 1) {
      assert (es + [e])[..k + 1] == es[..k + 1];
    }
  }
}
