/** lib/src/feedback.c: input events as bytes, and the ring of the most recent ones. */
module Feedback {
  import opened Octets
  import opened Options
  import opened Sequences
  import opened Memory
  import opened Powers
  import opened Bits

  const EVENT_SIZE_MAX := 5

  /** A button or trigger, named by its bit of ChiakiControllerButton or ChiakiControllerAnalogButton, or a touch */
  datatype Event = Button(button: nat, state: Byte) | Touch(down: bool, id: Byte, x: nat, y: nat)

  // ---------------------------------------------------------------- events as bytes

  /** The buttons whose state is a byte of its own: the bits 0 to 9, and the triggers at 16 and 17 */
  function AnalogCode(button: nat): Option<Byte> {
    match button
    case 0x1 => Some(0x88)
    case 0x2 => Some(0x89)
    case 0x4 => Some(0x8a)
    case 0x8 => Some(0x8b)
    case 0x10 => Some(0x82)
    case 0x20 => Some(0x83)
    case 0x40 => Some(0x80)
    case 0x80 => Some(0x81)
    case 0x100 => Some(0x84)
    case 0x200 => Some(0x85)
    case 0x1_0000 => Some(0x86)
    case 0x2_0000 => Some(0x87)
    case _ => None
  }

  /** The codes, when released, of the buttons that say with their code alone whether they are pressed */
  function DigitalCode(button: nat): Option<Byte> {
    match button
    case 0x400 => Some(0x8f)
    case 0x800 => Some(0x90)
    case 0x1000 => Some(0x8c)
    case 0x2000 => Some(0x8d)
    case 0x4000 => Some(0x91)
    case 0x8000 => Some(0x8e)
    case _ => None
  }

  const PRESSED := 0x20

  function ButtonBytes(button: nat, state: Byte): Option<seq<Byte>> {
    match AnalogCode(button)
    case Some(code) => Some([0x80, code, state])
    case None =>
      match DigitalCode(button)
      case Some(code) => Some([0x80, if state != 0 then code + PRESSED else code])
      case None => None
  }

  function TouchBytes(down: bool, id: Byte, x: nat, y: nat): (bytes: seq<Byte>)
    requires x < 0x1_0000 && y < 0x1_0000
    ensures |bytes| == 5
  {
    OrBound(x % 16 * 16, y / 0x100, 8);
    assert Pow2(8) == 0x100 by { Pow2Values(); }
    [if down then 0xd0 else 0xc0, id % 0x80, x / 16 % 0x100, Or(x % 16 * 16, y / 0x100, 8), y % 0x100]
  }

  lemma {:induction false} OrBound(a: nat, b: nat, n: nat)
    ensures Or(a, b, n) < Pow2(n)
  {
    if n > 0 { OrBound(a / 2, b / 2, n - 1); }
  }

  /** Events the two setters accept: all but unknown buttons, coordinates in 16 bits. */
  predicate Known(e: Event) {
    match e
    case Button(button, _) => AnalogCode(button).Some? || DigitalCode(button).Some?
    case Touch(_, _, x, y) => x < 0x1_0000 && y < 0x1_0000
  }

  function EventBytes(e: Event): (bytes: seq<Byte>)
    requires Known(e)
    ensures 2 <= |bytes| <= EVENT_SIZE_MAX
  {
    match e
    case Button(button, state) => ButtonBytes(button, state).value
    case Touch(down, id, x, y) => TouchBytes(down, id, x, y)
  }

  /** Events that survive the encoding: 12-bit coordinates, 7-bit touch ids, and no intermediate states of the buttons
      that have none. */
  predicate Exact(e: Event) {
    match e
    case Button(button, state) => AnalogCode(button).Some? || state == 0 || state == 0xff
    case Touch(_, id, x, y) => id < 0x80 && x < 0x1000 && y < 0x1000
  }

  function ButtonOfCode(code: Byte): Option<nat> {
    match code
    case 0x88 => Some(0x1)
    case 0x89 => Some(0x2)
    case 0x8a => Some(0x4)
    case 0x8b => Some(0x8)
    case 0x82 => Some(0x10)
    case 0x83 => Some(0x20)
    case 0x80 => Some(0x40)
    case 0x81 => Some(0x80)
    case 0x84 => Some(0x100)
    case 0x85 => Some(0x200)
    case 0x86 => Some(0x1_0000)
    case 0x87 => Some(0x2_0000)
    case 0x8f => Some(0x400)
    case 0x90 => Some(0x800)
    case 0x8c => Some(0x1000)
    case 0x8d => Some(0x2000)
    case 0x91 => Some(0x4000)
    case 0x8e => Some(0x8000)
    case _ => None
  }

  /** A receiver's reading of the first event of a packet, and its length. */
  function DecodeEvent(bytes: seq<Byte>): (r: Option<(Event, nat)>)
    ensures r.Some? ==> 2 <= r.value.1 <= |bytes|
  {
    if |bytes| < 2 then None
    else if bytes[0] == 0x80 then
      if bytes[1] < 0x8c then
        match ButtonOfCode(bytes[1])
        case Some(button) => if |bytes| < 3 then None else Some((Button(button, bytes[2]), 3))
        case None => None
      else
        var pressed := bytes[1] >= 0x8c + PRESSED;
        match ButtonOfCode(if pressed then bytes[1] - PRESSED else bytes[1])
        case Some(button) => Some((Button(button, if pressed then 0xff else 0), 2))
        case None => None
    else if (bytes[0] == 0xc0 || bytes[0] == 0xd0) && |bytes| >= 5 then
      var high, middle, low: int := bytes[2], bytes[3], bytes[4];
      Some((Touch(bytes[0] == 0xd0, bytes[1], high * 16 + middle / 16, middle % 16 * 0x100 + low), 5))
    else None
  }

  lemma DecodeButton(button: nat, state: Byte, rest: seq<Byte>)
    requires Known(Button(button, state))
    ensures DecodeEvent(EventBytes(Button(button, state)) + rest)
         == Some((Button(button, if AnalogCode(button).Some? || state == 0 then state else 0xff),
                  |EventBytes(Button(button, state))|))
  {
  }

  lemma TouchMiddle(x: nat, y: nat)
    requires y < 0x1000
    ensures Or(x % 16 * 16, y / 0x100, 8) == x % 16 * 16 + y / 0x100
  {
    Pow2Values();
    OrDisjoint(x % 16 * 16, y / 0x100, 4, 8);
  }

  lemma DecodeTouch(down: bool, id: Byte, x: nat, y: nat, rest: seq<Byte>)
    requires x < 0x1_0000 && y < 0x1_0000
    ensures var r := DecodeEvent(TouchBytes(down, id, x, y) + rest);
      && r.Some? && r.value.1 == 5 && r.value.0.Touch? && r.value.0.down == down && r.value.0.id == id % 0x80
      && r.value.0.x < 0x1000 && r.value.0.y < 0x1000
      && (x < 0x1000 && y < 0x1000 ==> r.value.0.x == x && r.value.0.y == y)
  {
    hide Or, DecodeEvent;
    var bytes := TouchBytes(down, id, x, y);
    var high, middle, low: int := bytes[2], bytes[3], bytes[4];
    assert DecodeEvent(bytes + rest)
        == Some((Touch(down, bytes[1], high * 16 + middle / 16, middle % 16 * 0x100 + low), 5))
    by {
      ReadTouch(bytes, rest);
    }
    if x < 0x1000 && y < 0x1000 {
      TouchMiddle(x, y);
      assert middle / 16 == x % 16 && middle % 16 == y / 0x100;
    }
  }

  lemma ReadTouch(bytes: seq<Byte>, rest: seq<Byte>)
    requires |bytes| == 5 && (bytes[0] == 0xc0 || bytes[0] == 0xd0)
    ensures var high, middle, low := bytes[2] as int, bytes[3] as int, bytes[4] as int;
      DecodeEvent(bytes + rest)
      == Some((Touch(bytes[0] == 0xd0, bytes[1], high * 16 + middle / 16, middle % 16 * 0x100 + low), 5))
  {}

  /** An event in front of anything decodes to itself exactly if it is an exact one, and always to an event of the same
      length. */
  lemma DecodeEncoded(e: Event, rest: seq<Byte>)
    requires Known(e)
    ensures var r := DecodeEvent(EventBytes(e) + rest);
      r.Some? && r.value.1 == |EventBytes(e)| && (r.value.0 == e <==> Exact(e))
  {
    hide DecodeEvent, ButtonBytes, TouchBytes;
    match e
    case Button(button, state) => DecodeButton(button, state, rest);
    case Touch(down, id, x, y) => DecodeTouch(down, id, x, y, rest);
  }

  // ---------------------------------------------------------------- packets of events

  predicate AllKnown(es: seq<Event>) {
    forall i | 0 <= i < |es| :: Known(es[i])
  }

  predicate AllExact(es: seq<Event>) {
    forall i | 0 <= i < |es| :: Exact(es[i])
  }

  function Encodings(es: seq<Event>): (parts: seq<seq<Byte>>)
    requires AllKnown(es)
    ensures |parts| == |es| && forall i | 0 <= i < |es| :: parts[i] == EventBytes(es[i])
  {
    seq(|es|, i requires 0 <= i < |es| => EventBytes(es[i]))
  }

  /** A receiver's reading of a packet. */
  function DecodePacket(bytes: seq<Byte>): Option<seq<Event>>
    decreases |bytes|
  {
    if bytes == [] then Some([])
    else
      match DecodeEvent(bytes)
      case None => None
      case Some(e) =>
        match DecodePacket(bytes[e.1..])
        case None => None
        case Some(es) => Some([e.0] + es)
  }

  /** A packet decodes to the events it was made of. */
  lemma {:induction false} DecodeFlat(es: seq<Event>)
    requires AllKnown(es) && AllExact(es)
    ensures DecodePacket(Flat(Encodings(es))) == Some(es)
  {
    hide DecodeEvent, EventBytes, Known, Exact;
    if es != [] {
      var first, rest := EventBytes(es[0]), Flat(Encodings(es[1..]));
      assert Encodings(es)[1..] == Encodings(es[1..]);
      assert Flat(Encodings(es)) == first + rest;
      DecodeEncoded(es[0], rest);
      assert (first + rest)[|first|..] == rest;
      DecodeFlat(es[1..]);
      assert es == [es[0]] + es[1..];
    }
  }

  lemma {:induction false} FlatBound(parts: seq<seq<Byte>>, max: nat)
    requires forall i | 0 <= i < |parts| :: |parts[i]| <= max
    ensures |Flat(parts)| <= max * |parts|
  {
    if parts != [] {
      FlatBound(parts[1..], max);
      assert max * |parts| == max + max * (|parts| - 1);
    }
  }

  // ---------------------------------------------------------------- the event struct and the ring

  /** struct chiaki_feedback_history_event_t */
  class HistoryEvent {
    const buf: array<Byte>
    var len: nat

    ghost predicate Valid() reads this { buf.Length == EVENT_SIZE_MAX && len <= EVENT_SIZE_MAX }

    ghost function Content(): seq<Byte>
      requires Valid()
      reads this, buf
    {
      buf[..len]
    }

    constructor ()
      ensures Valid() && fresh(this) && fresh(buf)
    {
      buf := new Byte[EVENT_SIZE_MAX](_ => 0);
      len := 0;
    }

    /** chiaki_feedback_history_event_set_button: false stands for CHIAKI_ERR_INVALID_DATA */
    method SetButton(button: nat, state: Byte) returns (ok: bool)
      requires Valid()
      modifies this, buf
      ensures Valid() && ok == Known(Button(button, state))
      ensures ok ==> Content() == EventBytes(Button(button, state))
    {
      buf[0] := 0x80;
      len := 2;
      var analog, digital := AnalogCode(button), DigitalCode(button);
      if analog.Some? {
        buf[1] := analog.value;
      } else if digital.Some? {
        buf[1] := if state != 0 then digital.value + PRESSED else digital.value;
        return true;
      } else {
        return false;
      }
      buf[2] := state;
      len := 3;
      return true;
    }

    /** chiaki_feedback_history_event_set_touchpad */
    method SetTouchpad(down: bool, pointerId: Byte, x: nat, y: nat)
      requires Valid() && x < 0x1_0000 && y < 0x1_0000
      modifies this, buf
      ensures Valid() && Content() == EventBytes(Touch(down, pointerId, x, y))
    {
      hide Or;
      len := 5;
      buf[0] := if down then 0xd0 else 0xc0;
      buf[1] := pointerId % 0x80;
      buf[2] := x / 16 % 0x100;
      OrBound(x % 16 * 16, y / 0x100, 8);
      Pow2Values();
      buf[3] := Or(x % 16 * 16, y / 0x100, 8);
      buf[4] := y % 0x100;
    }
  }

  /** What the ring holds after one more event. */
  function PushFront<T>(recent: seq<T>, e: T, size: nat): (r: seq<T>)
    requires |recent| <= size
  {
    if |recent| == size then ([e] + recent)[..size] else [e] + recent
  }

  /** The entries of a ring, from the newest on. */
  ghost function SlotsFrom<T>(slots: seq<T>, begin: nat, len: nat): (r: seq<T>)
    requires len <= |slots|
    ensures |r| == len
  {
    seq(len, i requires 0 <= i < len => slots[(begin + i) % |slots|])
  }

  lemma PushSlot<T>(slots: seq<T>, begin: nat, len: nat, e: T)
    requires begin < |slots| && len <= |slots|
    ensures var b := (begin + |slots| - 1) % |slots|;
      SlotsFrom(slots[b := e], b, if len == |slots| then len else len + 1)
      == PushFront(SlotsFrom(slots, begin, len), e, |slots|)
  {
    var n, b := |slots|, (begin + |slots| - 1) % |slots|;
    var after := SlotsFrom(slots[b := e], b, if len == n then len else len + 1);
    SmallMod(b, n);
    forall i | 0 < i < |after| ensures after[i] == SlotsFrom(slots, begin, len)[i - 1] {
      NextSlot(begin, n, i);
      OtherSlot(b, n, i);
    }
  }

  lemma OtherSlot(b: nat, n: nat, i: nat)
    requires b < n && 0 < i < n
    ensures (b + i) % n != b
  {
    if b + i < n {
      SmallMod(b + i, n);
    } else {
      SmallMod(b + i - n, n);
      ModAddMultiple(b + i - n, n, 1);
    }
  }

  /** struct chiaki_feedback_history_buffer_t; an entry holds the used bytes of an event struct. */
  class HistoryBuffer {
    const events: array<seq<Byte>>
    const size: nat
    var begin: nat
    var len: nat

    ghost predicate Valid()
      reads this
    {
      size > 0 && events.Length == size && begin < size && len <= size
    }

    /** The entries, newest first. */
    ghost function Contents(): (parts: seq<seq<Byte>>)
      requires Valid()
      reads this, events
      ensures |parts| == len
    {
      SlotsFrom(events[..], begin, len)
    }

    constructor (size: nat)
      requires size > 0
      ensures Valid() && Contents() == [] && this.size == size && fresh(events)
    {
      events := new seq<Byte>[size](_ => []);
      this.size := size;
      begin, len := 0, 0;
    }

    /** chiaki_feedback_history_buffer_push */
    method Push(event: HistoryEvent)
      requires Valid() && event.Valid()
      modifies this, events
      ensures Valid() && Contents() == PushFront(old(Contents()), event.Content(), size)
    {
      hide SlotsFrom, PushFront;
      ghost var slots, first, count := events[..], begin, len;
      begin := (begin + size - 1) % size;
      len := len + 1;
      if len >= size {
        len := size;
      }
      events[begin] := event.buf[..event.len];
      assert events[..] == slots[begin := event.Content()];
      PushSlot(slots, first, count, event.Content());
    }

    /** The i-th entry, counted from the newest */
    function EntryAt(i: nat): (event: seq<Byte>)
      requires Valid() && i < len
      reads this, events
      ensures event == Contents()[i]
    {
      events[(begin + i) % size]
    }

    /** chiaki_feedback_history_buffer_format, into `buf`: None stands for CHIAKI_ERR_BUF_TOO_SMALL */
    method Format(buf: array<Byte>) returns (written: Option<nat>)
      requires Valid() && buf as object != events
      modifies buf
      ensures Valid() && Contents() == old(Contents())
      ensures written == if |Flat(Contents())| <= buf.Length then Some(|Flat(Contents())|) else None
      ensures written.Some? ==> buf[..] == Flat(Contents()) + old(buf[..])[|Flat(Contents())|..]
    {
      ghost var parts, was := Contents(), buf[..];
      assert parts[..0] == [] && Flat<Byte>([]) == [];
      var sizeMax := buf.Length;
      var n := 0;
      var i := 0;
      hide SlotsFrom, Flat;
      while i < len
        invariant 0 <= i <= len && Valid() && Contents() == parts
        invariant n == |Flat(parts[..i])| <= sizeMax
        invariant buf[..] == Flat(parts[..i]) + was[n..]
      {
        var event := EntryAt(i);
        NextPart(parts, i);
        if n + |event| > sizeMax {
          return None;
        }
        WritePart(buf, n, event, Flat(parts[..i]), was);
        n := n + |event|;
        i := i + 1;
      }
      assert parts[..i] == parts;
      return Some(n);
    }
  }

  lemma NextPart(parts: seq<seq<Byte>>, i: nat)
    requires i < |parts|
    ensures Flat(parts[..i + 1]) == Flat(parts[..i]) + parts[i] && |Flat(parts[..i + 1])| <= |Flat(parts)|
  {
    hide Flat;
    assert parts[..i + 1] == parts[..i] + [parts[i]];
    FlatAppend(parts[..i], parts[i]);
    FlatPrefix(parts, i + 1);
  }

  /** Adds a part to what has been written. */
  method WritePart(buf: array<Byte>, n: nat, part: seq<Byte>, ghost flat: seq<Byte>, ghost was: seq<Byte>)
    requires n == |flat| && n + |part| <= |was| == buf.Length && buf[..] == flat + was[|flat|..]
    modifies buf
    ensures buf[..] == (flat + part) + was[|flat| + |part|..]
  {
    ghost var before := buf[..];
    Memcpy(buf, n, part);
    PartWritten(was, before, buf[..], flat, part);
  }

  lemma PartWritten(was: seq<Byte>, before: seq<Byte>, after: seq<Byte>, flat: seq<Byte>, part: seq<Byte>)
    requires |flat| + |part| <= |was| && before == flat + was[|flat|..]
    requires after == before[..|flat|] + part + before[|flat| + |part|..]
    ensures after == (flat + part) + was[|flat| + |part|..]
  {}

  /** Where a step backwards of the ring's start puts the entries. */
  lemma NextSlot(begin: nat, size: nat, i: nat)
    requires begin < size && 0 < i < size
    ensures ((begin + size - 1) % size + i) % size == (begin + i - 1) % size
  {
    if begin > 0 {
      SmallMod(begin - 1, size);
      assert begin + size - 1 == begin - 1 + size * 1;
      ModAddMultiple(begin - 1, size, 1);
    } else {
      assert (size - 1) % size == size - 1;
      assert size - 1 + i == i - 1 + size * 1;
      ModAddMultiple(i - 1, size, 1);
    }
  }
}
