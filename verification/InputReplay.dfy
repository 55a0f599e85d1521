/** What a receiver of history packets knows: the whole sequence of events whatever the losses, as long as no 16
    consecutive packets are missing, and from the events the controller state. */
module InputReplay {
  import opened Octets
  import opened Sequences
  import opened Powers
  import opened SeqNum
  import opened Feedback
  import opened FeedbackSender

  function Max(a: nat, b: nat): nat {
    if a >= b then a else b
  }

  // ---------------------------------------------------------------- rebuilding the event sequence

  /** A receiver that knows the first events of a history takes from a packet those that follow. The packet's 16-bit
      number says how many of its events are new; if it is not from the next 16, nothing is. */
  function Receive(known: seq<Event>, packet: Packet): seq<Event> {
    match DecodePacket(packet.payload)
    case None => known
    case Some(recent) =>
      var news := Wrap16(packet.seqNum + 1 - |known|);
      if news <= |recent| then known + Reversed(recent[..news]) else known
  }

  function ReceiveAll(known: seq<Event>, packets: seq<Packet>): seq<Event>
    decreases |packets|
  {
    if packets == [] then known else ReceiveAll(Receive(known, packets[0]), packets[1..])
  }

  /** Packet k, arriving when the latest so far was packet c, is not beyond the next 16, and not so old that its number
      is in use again. */
  predicate InTime(c: nat, k: nat) {
    c - TWO16 + HISTORY_SIZE < k <= c + HISTORY_SIZE
  }

  lemma FreshCount(c: nat, k: nat)
    requires 1 <= k && InTime(c, k)
    ensures var news := Wrap16(Wrap16(k - 1) + 1 - c);
      if k >= c then news == k - c else news > HISTORY_SIZE
  {
  }

  lemma ReceiveOne(es: seq<Event>, c: nat, k: nat)
    requires AllKnown(es) && AllExact(es) && c <= |es| && 1 <= k <= |es| && InTime(c, k)
    ensures Receive(es[..c], PacketOf(es, k)) == es[..Max(c, k)]
  {
    hide Known, Exact, DecodePacket, Flat, EventBytes, Wrap16, InTime, Recent, Reversed;
    PacketDecodes(es, k);
    FreshCount(c, k);
    if k >= c {
      InTimeBound(c, k);
      CatchUp(es, c, k);
    }
  }

  lemma CatchUp(es: seq<Event>, c: nat, k: nat)
    requires c <= k <= |es| && k <= c + HISTORY_SIZE
    ensures var recent := Recent(es[..k], HISTORY_SIZE);
      k - c <= |recent| <= HISTORY_SIZE && es[..c] + Reversed(recent[..k - c]) == es[..k]
  {
    hide Reversed;
    assert Reversed(Recent(es[..k], HISTORY_SIZE)[..k - c]) == es[c..k];
    assert es[..c] + es[c..k] == es[..k];
  }

  lemma InTimeBound(c: nat, k: nat)
    requires InTime(c, k)
    ensures k <= c + HISTORY_SIZE
  {}

  /** The packets that arrive, by their number k, in any order and any number of times */
  predicate AllInTime(c: nat, ks: seq<nat>)
    decreases |ks|
  {
    ks != [] ==> 1 <= ks[0] && InTime(c, ks[0]) && AllInTime(Max(c, ks[0]), ks[1..])
  }

  function Latest(c: nat, ks: seq<nat>): nat
    decreases |ks|
  {
    if ks == [] then c else Latest(Max(c, ks[0]), ks[1..])
  }

  function Packets(es: seq<Event>, ks: seq<nat>): (packets: seq<Packet>)
    requires AllKnown(es) && forall i | 0 <= i < |ks| :: 1 <= ks[i] <= |es|
    ensures |packets| == |ks| && forall i | 0 <= i < |ks| :: packets[i] == PacketOf(es, ks[i])
  {
    seq(|ks|, i requires 0 <= i < |ks| => PacketOf(es, ks[i]))
  }

  /** A receiver that never misses 16 consecutive packets rebuilds the entire event sequence, up to the latest packet it
      has got, through any loss, repetition and reordering. */
  lemma {:induction false} ReceiverRebuilds(es: seq<Event>, c: nat, ks: seq<nat>)
    requires AllKnown(es) && AllExact(es) && c <= |es|
    requires forall i | 0 <= i < |ks| :: 1 <= ks[i] <= |es|
    requires AllInTime(c, ks)
    ensures Latest(c, ks) <= |es|
    ensures ReceiveAll(es[..c], Packets(es, ks)) == es[..Latest(c, ks)]
    decreases |ks|
  {
    hide Known, Exact, Receive, PacketOf, InTime;
    if ks != [] {
      ReceiveOne(es, c, ks[0]);
      assert Packets(es, ks)[1..] == Packets(es, ks[1..]);
      ReceiverRebuilds(es, Max(c, ks[0]), ks[1..]);
    }
  }

  /** Without one of the 16 packets behind an event no receiver can know it: all others would be the same with any
      other event in its place. */
  lemma MissedEventInvisible(es: seq<Event>, i: nat, other: Event, k: nat)
    requires AllKnown(es) && Known(other) && i < |es| && 1 <= k <= |es|
    requires k <= i || k > i + HISTORY_SIZE
    ensures PacketOf(es, k) == PacketOf(es[i := other], k)
  {
    hide Known, EventBytes;
    assert Recent(es[..k], HISTORY_SIZE) == Recent(es[i := other][..k], HISTORY_SIZE);
  }

  // ---------------------------------------------------------------- from events to the controller state

  /** The state of every button and trigger by its bit, and where the touches are */
  datatype View = View(keys: seq<Byte>, touches: map<int, (nat, nat)>)

  const KEYS := 18

  function KeyOf(s: ControllerState, i: nat): Byte {
    if i < BUTTONS_COUNT then ButtonState(s.buttons, i) else if i == BUTTONS_COUNT then s.l2 else s.r2
  }

  function WithTouch(touches: map<int, (nat, nat)>, t: TouchPoint): map<int, (nat, nat)> {
    if t.id >= 0 then touches[t.id := (t.x, t.y)] else touches
  }

  function TouchMap(s: ControllerState): map<int, (nat, nat)> {
    WithTouch(WithTouch(map[], s.touch0), s.touch1)
  }

  function ViewOf(s: ControllerState): View {
    View(seq(KEYS, i requires 0 <= i < KEYS => KeyOf(s, i)), TouchMap(s))
  }

  function Apply(v: View, e: Event): View {
    match e
    case Button(button, state) =>
      v.(keys := seq(|v.keys|, i requires 0 <= i < |v.keys| => if Pow2(i) == button then state else v.keys[i]))
    case Touch(down, id, x, y) =>
      v.(touches := if down then v.touches[id as int := (x, y)] else v.touches - {id as int})
  }

  function Replay(v: View, es: seq<Event>): View
    decreases |es|
  {
    if es == [] then v else Replay(Apply(v, es[0]), es[1..])
  }

  lemma {:induction false} ReplayAppend(v: View, a: seq<Event>, b: seq<Event>)
    ensures Replay(v, a + b) == Replay(Replay(v, a), b)
    decreases |a|
  {
    hide Apply;
    if a == [] {
      assert a + b == b;
    } else {
      assert (a + b)[1..] == a[1..] + b;
      ReplayAppend(Apply(v, a[0]), a[1..], b);
    }
  }

  lemma {:induction false} Pow2Injective(i: nat, j: nat)
    requires Pow2(i) == Pow2(j)
    ensures i == j
  {
    if i > 0 && j > 0 { Pow2Injective(i - 1, j - 1); }
  }

  lemma ApplyButton(v: View, i: nat, state: Byte)
    requires i < |v.keys|
    ensures Apply(v, Button(Pow2(i), state)) == v.(keys := v.keys[i := state])
  {
    hide Pow2;
    forall j | 0 <= j < |v.keys| ensures Pow2(j) == Pow2(i) <==> j == i {
      if Pow2(j) == Pow2(i) { Pow2Injective(i, j); }
    }
  }

  /** The button events bring the buttons from i on to their new state, and leave everything else alone. */
  lemma {:induction false} ReplayButtons(v: View, prev: nat, now: nat, i: nat)
    requires |v.keys| == KEYS && i <= BUTTONS_COUNT
    requires forall j | i <= j < BUTTONS_COUNT :: v.keys[j] == ButtonState(prev, j)
    ensures var r := Replay(v, ButtonEvents(prev, now, i));
      && r.touches == v.touches && |r.keys| == KEYS
      && forall j | 0 <= j < KEYS :: r.keys[j] == if i <= j < BUTTONS_COUNT then ButtonState(now, j) else v.keys[j]
    decreases BUTTONS_COUNT - i
  {
    hide Pressed, Apply, Pow2;
    if i < BUTTONS_COUNT {
      var rest := ButtonEvents(prev, now, i + 1);
      if Pressed(prev, i) != Pressed(now, i) {
        var e := Button(Pow2(i), ButtonState(now, i));
        ApplyButton(v, i, ButtonState(now, i));
        assert ([e] + rest)[1..] == rest;
        ReplayButtons(Apply(v, e), prev, now, i + 1);
      } else {
        ReplayButtons(v, prev, now, i + 1);
      }
    }
  }

  lemma ReplayTrigger(v: View, i: nat, prev: Byte, now: Byte)
    requires i < |v.keys| && v.keys[i] == prev
    ensures Replay(v, TriggerEvents(Pow2(i), prev, now)) == v.(keys := v.keys[i := now])
  {
    hide Apply;
    ApplyButton(v, i, now);
    if prev != now {
      ReplayOne(v, Button(Pow2(i), now));
    } else {
      assert v.keys[i := now] == v.keys;
    }
  }

  lemma ReplayOne(v: View, e: Event)
    ensures Replay(v, [e]) == Apply(v, e)
  {
    assert [e][1..] == [];
  }

  function AfterTouch(touches: map<int, (nat, nat)>, prev: TouchPoint, now: TouchPoint): map<int, (nat, nat)> {
    if prev.id != now.id && prev.id >= 0 then touches - {prev.id}
    else if now.id >= 0 && (prev.id != now.id || prev.x != now.x || prev.y != now.y) then
      touches[now.id := (now.x, now.y)]
    else touches
  }

  lemma ReplayTouch(v: View, prev: TouchPoint, now: TouchPoint)
    requires TouchInRange(prev) && TouchInRange(now)
    ensures Replay(v, TouchEvents(prev, now)) == v.(touches := AfterTouch(v.touches, prev, now))
  {
    var es := TouchEvents(prev, now);
    if es != [] {
      ReplayOne(v, es[0]);
      assert es == [es[0]];
    }
  }

  // ---------------------------------------------------------------- which touches the receiver knows

  predicate SamePlace(t: TouchPoint, u: TouchPoint) {
    t.x == u.x && t.y == u.y
  }

  /** For each slot, whether its touch is down and the receiver has it where it is */
  datatype Shown = Shown(first: bool, second: bool)

  /** Of two slots with the same touch the receiver's map can only have one place; ViewOf takes the second slot's. */
  function AllShown(s: ControllerState): Shown {
    Shown(s.touch0.id >= 0 && (s.touch0.id == s.touch1.id ==> SamePlace(s.touch0, s.touch1)), s.touch1.id >= 0)
  }

  /** What the receiver must know to see the touches as they are: every touch that is down. */
  predicate Sees(s: ControllerState, w: Shown) {
    && (s.touch0.id >= 0 && s.touch0.id != s.touch1.id ==> w.first)
    && (s.touch1.id >= 0 ==> w.second)
  }

  /** A slot goes directly from one touch to another, or a touch ends: the sender reports the end of the old one. */
  predicate Ends(prev: TouchPoint, now: TouchPoint) {
    prev.id != now.id && prev.id >= 0
  }

  predicate Starts(prev: TouchPoint, now: TouchPoint) {
    !Ends(prev, now) && now.id >= 0 && (prev.id != now.id || !SamePlace(prev, now))
  }

  /** The touch that slot `now` carries, after the report of its own slot and then, or before that, the other one's:
      known if it was known and nothing was reported, or if its own slot reported it; lost if a slot reported its end;
      and where the other slot says if that carries the same touch. */
  function FirstShown(prev: ControllerState, now: ControllerState, w: Shown): bool {
    && now.touch0.id >= 0
    && if Ends(prev.touch1, now.touch1) && prev.touch1.id == now.touch0.id then false
       else if Starts(prev.touch1, now.touch1) && now.touch1.id == now.touch0.id then SamePlace(now.touch0, now.touch1)
       else if Starts(prev.touch0, now.touch0) then true
       else if Ends(prev.touch0, now.touch0) then
         prev.touch1.id == now.touch0.id && w.second && SamePlace(prev.touch1, now.touch0)
       else w.first
  }

  function SecondShown(prev: ControllerState, now: ControllerState, w: Shown): bool {
    && now.touch1.id >= 0
    && if Starts(prev.touch1, now.touch1) then true
       else if Starts(prev.touch0, now.touch0) && now.touch0.id == now.touch1.id then SamePlace(now.touch0, now.touch1)
       else if Ends(prev.touch0, now.touch0) && prev.touch0.id == now.touch1.id then false
       else if Ends(prev.touch1, now.touch1) then
         prev.touch0.id == now.touch1.id && w.first && SamePlace(prev.touch0, now.touch1)
       else w.second
  }

  function NextShown(prev: ControllerState, now: ControllerState, w: Shown): Shown {
    Shown(FirstShown(prev, now, w), SecondShown(prev, now, w))
  }

  /** The receiver's map, given what it knows */
  function ShownMap(s: ControllerState, w: Shown): map<int, (nat, nat)> {
    var touches := if w.first then WithTouch(map[], s.touch0) else map[];
    if w.second then WithTouch(touches, s.touch1) else touches
  }

  /** The flags say exactly what the map has: no touch that is up, and the same for slots with the same touch at the
      same place. */
  predicate Consistent(s: ControllerState, w: Shown) {
    && (w.first ==> s.touch0.id >= 0) && (w.second ==> s.touch1.id >= 0)
    && (s.touch0.id >= 0 && s.touch0.id == s.touch1.id ==>
          if SamePlace(s.touch0, s.touch1) then w.first == w.second else !(w.first && w.second))
  }

  lemma AllShownConsistent(s: ControllerState)
    ensures var w := AllShown(s); ShownMap(s, w) == TouchMap(s) && Consistent(s, w)
  {}

  lemma SeesExactly(s: ControllerState, w: Shown)
    requires Consistent(s, w)
    ensures ShownMap(s, w) == TouchMap(s) <==> Sees(s, w)
  {
    if s.touch0.id >= 0 && s.touch0.id != s.touch1.id && !w.first {
      assert s.touch0.id in TouchMap(s) && s.touch0.id !in ShownMap(s, w);
    } else if s.touch1.id >= 0 && !w.second {
      assert s.touch1.id in TouchMap(s);
      assert TouchMap(s)[s.touch1.id] == (s.touch1.x, s.touch1.y);
    }
  }

  /** One change of state, whatever the receiver knew before */
  lemma ShownStep(prev: ControllerState, now: ControllerState, w: Shown)
    requires Consistent(prev, w)
    ensures Consistent(now, NextShown(prev, now, w))
    ensures AfterTouch(AfterTouch(ShownMap(prev, w), prev.touch0, now.touch0), prev.touch1, now.touch1)
         == ShownMap(now, NextShown(prev, now, w))
  {
  }

  // ---------------------------------------------------------------- one change of state

  /** Both touch slots of a state never carry the same touch. */
  predicate TouchesDistinct(s: ControllerState) {
    s.touch0.id >= 0 ==> s.touch0.id != s.touch1.id
  }

  /** A slot goes directly from one touch to another: the sender then reports only the end of the old one. */
  predicate Replaced(prev: TouchPoint, now: TouchPoint) {
    prev.id >= 0 && now.id >= 0 && prev.id != now.id
  }

  /** A touch moves from the second slot to the first: the sender reports its start before its end. */
  predicate MovedForward(prev: ControllerState, now: ControllerState) {
    prev.touch0.id < 0 && now.touch0.id >= 0 && now.touch0.id == prev.touch1.id
  }

  predicate TouchesFollow(prev: ControllerState, now: ControllerState) {
    !Replaced(prev.touch0, now.touch0) && !Replaced(prev.touch1, now.touch1) && !MovedForward(prev, now)
  }

  /** From a receiver that sees all touches, of states whose slots carry different ones: it goes on to see all of them
      exactly if none was replaced within its slot or moved to the first slot from the second. */
  lemma TouchesReplay(prev: ControllerState, now: ControllerState)
    requires TouchesDistinct(prev) && TouchesDistinct(now)
    ensures Sees(now, NextShown(prev, now, AllShown(prev))) <==> TouchesFollow(prev, now)
  {
  }

  /** The events between two states always carry the buttons and triggers over, and change what the receiver knows of
      the touches as NextShown says. */
  lemma ReplayChanges(v: View, prev: ControllerState, now: ControllerState, w: Shown)
    requires InRange(prev) && InRange(now) && Consistent(prev, w)
    requires v == View(ViewOf(prev).keys, ShownMap(prev, w))
    ensures Replay(v, Changes(prev, now)) == View(ViewOf(now).keys, ShownMap(now, NextShown(prev, now, w)))
  {
    hide Pressed, ButtonEvents, TriggerEvents, TouchEvents, Replay, Apply, AfterTouch, Pow2, ShownMap, NextShown;
    hide Consistent;
    var a := ButtonEvents(prev.buttons, now.buttons, 0);
    var b, c := TriggerEvents(L2, prev.l2, now.l2), TriggerEvents(R2, prev.r2, now.r2);
    var d, e := TouchEvents(prev.touch0, now.touch0), TouchEvents(prev.touch1, now.touch1);
    ReplayAppend(v, a + b + c + d, e);
    ReplayAppend(v, a + b + c, d);
    ReplayAppend(v, a + b, c);
    ReplayAppend(v, a, b);
    ReplayButtons(v, prev.buttons, now.buttons, 0);
    var v1 := Replay(v, a);
    TriggerBits();
    ReplayTrigger(v1, 16, prev.l2, now.l2);
    var v2 := Replay(v1, b);
    ReplayTrigger(v2, 17, prev.r2, now.r2);
    var v3 := Replay(v2, c);
    ReplayTouch(v3, prev.touch0, now.touch0);
    ReplayTouch(Replay(v3, d), prev.touch1, now.touch1);
    ShownStep(prev, now, w);
    assert v3.keys == ViewOf(now).keys;
  }

  lemma TriggerBits()
    ensures Pow2(16) == L2 && Pow2(17) == R2
  {
    Pow2Values();
    assert Pow2(17) == 2 * Pow2(16);
  }

  /** A touch replaced within its slot never reaches the receiver. */
  lemma ReplacedTouchIsLost()
    ensures var prev := ControllerState(0, 0, 0, TouchPoint(10, 10, 0), TouchPoint(0, 0, -1));
      var now := prev.(touch0 := TouchPoint(20, 20, 1));
      && 1 in ViewOf(now).touches && 1 !in Replay(ViewOf(prev), Changes(prev, now)).touches
      && Changes(prev, now) == [Touch(false, 0, 10, 10)]
  {
    var prev := ControllerState(0, 0, 0, TouchPoint(10, 10, 0), TouchPoint(0, 0, -1));
    NoButtonEvents(0, 0);
    ReplayOne(ViewOf(prev), Touch(false, 0, 10, 10));
  }

  // ---------------------------------------------------------------- whole runs

  /** The history of a sender that goes through some states. */
  function HistoryOf(idle: ControllerState, states: seq<ControllerState>): (es: seq<Event>)
    requires InRange(idle) && forall i | 0 <= i < |states| :: InRange(states[i])
    ensures AllKnown(es)
    decreases |states|
  {
    if states == [] then []
    else
      ChangesKnown(idle, states[0]);
      Changes(idle, states[0]) + HistoryOf(states[0], states[1..])
  }

  function LastOf(idle: ControllerState, states: seq<ControllerState>): ControllerState {
    if states == [] then idle else states[|states| - 1]
  }

  /** What a receiver knows of the touches at the end of a run. */
  function ShownAfter(idle: ControllerState, states: seq<ControllerState>, w: Shown): Shown
    decreases |states|
  {
    if states == [] then w else ShownAfter(states[0], states[1..], NextShown(idle, states[0], w))
  }

  lemma {:induction false} RunReplaysFrom(v: View, idle: ControllerState, states: seq<ControllerState>, w: Shown)
    requires InRange(idle) && Consistent(idle, w) && forall i | 0 <= i < |states| :: InRange(states[i])
    requires v == View(ViewOf(idle).keys, ShownMap(idle, w))
    ensures var last, known := LastOf(idle, states), ShownAfter(idle, states, w);
      && Consistent(last, known)
      && Replay(v, HistoryOf(idle, states)) == View(ViewOf(last).keys, ShownMap(last, known))
    decreases |states|
  {
    hide Changes, ViewOf, InRange, Consistent, ShownMap, NextShown;
    if states != [] {
      var next := NextShown(idle, states[0], w);
      ReplayChanges(v, idle, states[0], w);
      ShownStep(idle, states[0], w);
      ReplayAppend(v, Changes(idle, states[0]), HistoryOf(states[0], states[1..]));
      RunReplaysFrom(Replay(v, Changes(idle, states[0])), states[0], states[1..], next);
    }
  }

  /** Over any run of states, replaying the whole history gives the buttons and triggers of the last state, and its
      touches if and only if the last report about each touch that is down was not its end. */
  lemma RunReplays(idle: ControllerState, states: seq<ControllerState>)
    requires InRange(idle) && forall i | 0 <= i < |states| :: InRange(states[i])
    ensures var last := LastOf(idle, states);
      var r := Replay(ViewOf(idle), HistoryOf(idle, states));
      && r.keys == ViewOf(last).keys
      && (r.touches == ViewOf(last).touches <==> Sees(last, ShownAfter(idle, states, AllShown(idle))))
  {
    hide InRange, Consistent, ShownMap, AllShown, Sees, TouchMap;
    AllShownConsistent(idle);
    RunReplaysFrom(ViewOf(idle), idle, states, AllShown(idle));
    SeesExactly(LastOf(idle, states), ShownAfter(idle, states, AllShown(idle)));
  }

  /** End to end: a receiver that has got the last packet, and never missed 16 in a row, sees the buttons and triggers
      as they are, and the touches under exactly that condition. */
  lemma ReceiverSeesController(idle: ControllerState, states: seq<ControllerState>, ks: seq<nat>)
    requires InRange(idle) && forall i | 0 <= i < |states| :: InRange(states[i])
    requires AllExact(HistoryOf(idle, states))
    requires forall i | 0 <= i < |ks| :: 1 <= ks[i] <= |HistoryOf(idle, states)|
    requires AllInTime(0, ks) && Latest(0, ks) == |HistoryOf(idle, states)|
    ensures var last := LastOf(idle, states);
      var r := Replay(ViewOf(idle), ReceiveAll([], Packets(HistoryOf(idle, states), ks)));
      && r.keys == ViewOf(last).keys
      && (r.touches == ViewOf(last).touches <==> Sees(last, ShownAfter(idle, states, AllShown(idle))))
  {
    hide Known, Exact, Replay, ViewOf, ReceiveAll, Sees;
    var es := HistoryOf(idle, states);
    ReceiverRebuilds(es, 0, ks);
    assert es[..0] == [] && es[..|es|] == es;
    RunReplays(idle, states);
  }

  /** A touch that was replaced, and so lost, is found again when it moves. */
  lemma MovedTouchIsFound(s: ControllerState, t: ControllerState, u: ControllerState)
    requires s.touch0.id >= 0 && t.touch0.id >= 0 && s.touch0.id != t.touch0.id && u.touch0.id == t.touch0.id
    requires !SamePlace(t.touch0, u.touch0) && s.touch1.id < 0 && t.touch1.id < 0 && u.touch1.id < 0
    ensures !Sees(t, ShownAfter(s, [t], AllShown(s))) && Sees(u, ShownAfter(s, [t, u], AllShown(s)))
  {
    var w := NextShown(s, t, AllShown(s));
    assert [t, u][1..] == [u] && [u][1..] == [] && [t][1..] == [];
    assert ShownAfter(s, [t, u], AllShown(s)) == ShownAfter(t, [u], w) == ShownAfter(u, [], NextShown(t, u, w));
  }

  /** Twelve-bit coordinates suffice for the exactness that the previous lemma asks for. */
  lemma {:induction false} HistoryExact(idle: ControllerState, states: seq<ControllerState>)
    requires InRange(idle) && forall i | 0 <= i < |states| :: InRange(states[i])
    requires TwelveBits(idle) && forall i | 0 <= i < |states| :: TwelveBits(states[i])
    ensures AllExact(HistoryOf(idle, states))
    decreases |states|
  {
    hide Known, Exact, InRange, TwelveBits, Changes;
    if states != [] {
      ChangesKnown(idle, states[0]);
      HistoryExact(states[0], states[1..]);
    }
  }
}
