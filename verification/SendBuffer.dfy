/** lib/src/takionsendbuffer.c: the bounded retransmit buffer. A cumulative ack compacts the packet array in
    place with lazy memmoves; the specification is a stable filter. */
module SendBuffer {
  import opened Memory
  import opened Powers
  import opened SeqNum
  import opened Sequences

  const RESEND_TIMEOUT_MS := 200
  const TRIES_MAX := 25

  datatype Packet = Packet(seqNum: SeqNum32, tries: nat, firstSendMs: nat, lastSendMs: nat, buf: seq<int>)

  datatype Error = Success | Overflow | InvalidData

  /** A cumulative ack of `seqNum` covers the number itself and everything serially before it. */
  predicate Covers(seqNum: SeqNum32, p: Packet) {
    p.seqNum == seqNum || Lt32(p.seqNum, seqNum)
  }

  /** The packets an ack leaves in the buffer, in their order. */
  function Unacked(packets: seq<Packet>, seqNum: SeqNum32): (r: seq<Packet>)
    ensures |r| <= |packets|
  {
    if packets == [] then []
    else
      Unacked(packets[..|packets| - 1], seqNum)
      + if Covers(seqNum, packets[|packets| - 1]) then [] else [packets[|packets| - 1]]
  }

  /** The packets an ack removes, in their order. */
  function Acked(packets: seq<Packet>, seqNum: SeqNum32): (r: seq<Packet>)
    ensures |r| <= |packets|
  {
    if packets == [] then []
    else
      Acked(packets[..|packets| - 1], seqNum)
      + if Covers(seqNum, packets[|packets| - 1]) then [packets[|packets| - 1]] else []
  }

  function Numbers(packets: seq<Packet>): (r: seq<SeqNum32>)
    ensures |r| == |packets|
    ensures forall i | 0 <= i < |packets| :: r[i] == packets[i].seqNum
  {
    if packets == [] then [] else Numbers(packets[..|packets| - 1]) + [packets[|packets| - 1].seqNum]
  }

  function RoundTrips(packets: seq<Packet>, now: nat): (r: seq<nat>)
    ensures |r| == |packets|
    ensures forall i | 0 <= i < |packets| ::
              r[i] == if now > packets[i].firstSendMs then now - packets[i].firstSendMs else 0
  {
    if packets == [] then []
    else
      var p := packets[|packets| - 1];
      RoundTrips(packets[..|packets| - 1], now) + [if now > p.firstSendMs then now - p.firstSendMs else 0]
  }

  function Pushed(packets: seq<Packet>, size: nat, seqNum: SeqNum32, buf: seq<int>, now: nat): (seq<Packet>, Error) {
    if |packets| >= size then (packets, Overflow)
    else if exists i | 0 <= i < |packets| :: packets[i].seqNum == seqNum then (packets, InvalidData)
    else (packets + [Packet(seqNum, 0, now, now, buf)], Success)
  }

  /** The packet array with its count. An ack or a push never clears a slot: what is behind the count is what it was. */
  datatype Slots = Slots(raw: seq<Packet>, count: nat) {
    ghost predicate Valid() {
      count <= |raw|
    }

    function Live(): seq<Packet>
      requires count <= |raw|
    {
      raw[..count]
    }

    function AfterAck(seqNum: SeqNum32): (r: Slots)
      requires count <= |raw|
      ensures r.count <= count && |r.raw| == |raw| && r.Live() == Unacked(Live(), seqNum)
    {
      var live := Unacked(Live(), seqNum);
      Slots(live + raw[|live|..], |live|)
    }

    function AfterPush(seqNum: SeqNum32, buf: seq<int>, now: nat): (r: Slots)
      requires count <= |raw|
      ensures r.count <= |raw| == |r.raw| && r.Live() == Pushed(Live(), |raw|, seqNum, buf, now).0
    {
      if Pushed(Live(), |raw|, seqNum, buf, now).1 == Success then
        var r := raw[count := Packet(seqNum, 0, now, now, buf)];
        assert r[..count + 1] == r[..count] + [r[count]];
        Slots(r, count + 1)
      else this
    }
  }

  /** An ack moves another packet into slot k: it leaves more than k packets, and covers one that is no further back. */
  predicate Moves(b: Slots, seqNum: SeqNum32, k: nat)
    requires b.count <= |b.raw|
  {
    k < |Unacked(b.Live(), seqNum)| && exists j | 0 <= j <= k && j < b.count :: Covers(seqNum, b.raw[j])
  }

  lemma {:induction false} AllUnacked(packets: seq<Packet>, seqNum: SeqNum32)
    ensures |Unacked(packets, seqNum)| == |packets| <==> forall j | 0 <= j < |packets| :: !Covers(seqNum, packets[j])
  {
    hide Covers;
    if packets != [] {
      var n := |packets| - 1;
      AllUnacked(packets[..n], seqNum);
      assert forall j | 0 <= j < n :: packets[..n][j] == packets[j];
    }
  }

  lemma {:induction false} UnackedPrefix(packets: seq<Packet>, seqNum: SeqNum32, k: nat)
    requires k < |packets| && forall j | 0 <= j <= k :: !Covers(seqNum, packets[j])
    ensures |Unacked(packets, seqNum)| > k
  {
    hide Covers;
    var n := |packets| - 1;
    if k < n {
      assert forall j | 0 <= j <= k :: !Covers(seqNum, packets[..n][j]);
      UnackedPrefix(packets[..n], seqNum, k);
    } else {
      assert forall j | 0 <= j < n :: !Covers(seqNum, packets[..n][j]);
      AllUnacked(packets[..n], seqNum);
    }
  }

  /** Where the k-th packet that an ack leaves was before: no further ahead, and at k only if nothing up to there was
      covered. */
  lemma {:induction false} UnackedAt(packets: seq<Packet>, seqNum: SeqNum32, k: nat) returns (m: nat)
    requires k < |Unacked(packets, seqNum)|
    ensures k <= m < |packets| && Unacked(packets, seqNum)[k] == packets[m]
    ensures m == k <==> forall j | 0 <= j <= k :: !Covers(seqNum, packets[j])
  {
    hide Covers;
    var n := |packets| - 1;
    var front := packets[..n];
    AllUnacked(front, seqNum);
    assert forall j | 0 <= j < n :: front[j] == packets[j];
    if k < |Unacked(front, seqNum)| {
      m := UnackedAt(front, seqNum, k);
      assert forall j | 0 <= j <= k :: Covers(seqNum, front[j]) == Covers(seqNum, packets[j]);
    } else {
      m := n;
      if forall j | 0 <= j <= k :: !Covers(seqNum, packets[j]) {
        if k < n { assert forall j | 0 <= j <= k :: !Covers(seqNum, front[j]); UnackedPrefix(front, seqNum, k); }
      }
    }
  }

  /** An ack changes the number in slot k if and only if it moves another packet there. */
  lemma AckChangesSlot(b: Slots, seqNum: SeqNum32, k: nat)
    requires b.Valid() && k < |b.raw| && Distinct(b.Live())
    ensures b.AfterAck(seqNum).raw[k].seqNum != b.raw[k].seqNum <==> Moves(b, seqNum, k)
  {
    hide Covers, Unacked;
    if k < |Unacked(b.Live(), seqNum)| {
      var m := UnackedAt(b.Live(), seqNum, k);
      assert Unacked(b.Live(), seqNum)[k] == b.raw[m];
      assert b.Live()[k] == b.raw[k];
      assert forall j | 0 <= j <= k :: b.Live()[j] == b.raw[j];
    }
  }

  /** While an ack is under way there is at most one gap, `shift` slots wide from `shiftStart`; the packets
      before it and those between it and `i` are the survivors so far. */
  ghost predicate Gap(shiftStart: nat, shift: nat, i: nat) {
    if shiftStart == SIZE_MAX then shift == 0 else 0 < shift && shiftStart + shift <= i
  }

  ghost function Survivors(packets: seq<Packet>, shiftStart: nat, shift: nat, i: nat): seq<Packet>
    requires Gap(shiftStart, shift, i) && i <= |packets| < SIZE_MAX
  {
    if shiftStart == SIZE_MAX then packets[..i] else packets[..shiftStart] + packets[shiftStart + shift..i]
  }

  /** Moving the survivors between the gap and the next acked packet to the front of the gap */
  lemma GapMoved(was: seq<Packet>, now: seq<Packet>, shiftStart: nat, shift: nat, i: nat, count: nat)
    requires 0 < shift && shiftStart + shift < i < count <= |was| == |now| < SIZE_MAX
    requires var n := i - (shiftStart + shift);
      && now[shiftStart..shiftStart + n] == was[shiftStart + shift..i]
      && now[..shiftStart] == was[..shiftStart] && now[shiftStart + n..] == was[shiftStart + n..]
    ensures Survivors(now, i - shift, shift + 1, i + 1) == Survivors(was, shiftStart, shift, i)
    ensures now[i + 1..count] == was[i + 1..count]
  {
    var n := i - (shiftStart + shift);
    assert now[i + 1..count] == now[shiftStart + n..][shift + 1..][..count - (i + 1)];
    assert was[i + 1..count] == was[shiftStart + n..][shift + 1..][..count - (i + 1)];
    assert now[..i - shift] == now[..shiftStart] + now[shiftStart..shiftStart + n];
    assert now[i - shift + shift + 1..i + 1] == [];
  }

  lemma GapClosed(was: seq<Packet>, now: seq<Packet>, shiftStart: nat, shift: nat, count: nat)
    requires 0 < shift && shiftStart + shift < count <= |was| == |now| < SIZE_MAX
    requires var n := count - (shiftStart + shift);
      && now[shiftStart..shiftStart + n] == was[shiftStart + shift..count]
      && now[..shiftStart] == was[..shiftStart] && now[shiftStart + n..] == was[shiftStart + n..]
    ensures now[..count - shift] == Survivors(was, shiftStart, shift, count)
    ensures now[count - shift..] == was[count - shift..]
  {
    var n := count - (shiftStart + shift);
    assert now[..count - shift] == now[..shiftStart] + now[shiftStart..shiftStart + n];
  }

  lemma NothingAcked(packets: seq<Packet>, was: seq<Packet>, seqNum: SeqNum32, now: nat)
    requires |packets| < SIZE_MAX
    ensures Gap(SIZE_MAX, 0, 0) && Survivors(packets, SIZE_MAX, 0, 0) == Unacked(was[..0], seqNum)
    ensures Numbers(Acked(was[..0], seqNum)) == [] && RoundTrips(Acked(was[..0], seqNum), now) == []
  {}

  lemma SurvivorsStep(packets: seq<Packet>, shiftStart: nat, shift: nat, i: nat)
    requires Gap(shiftStart, shift, i) && i < |packets| < SIZE_MAX
    ensures Gap(shiftStart, shift, i + 1)
    ensures Survivors(packets, shiftStart, shift, i + 1) == Survivors(packets, shiftStart, shift, i) + [packets[i]]
  {}

  lemma FilterStep(was: seq<Packet>, i: nat, seqNum: SeqNum32, now: nat)
    requires i < |was|
    ensures Unacked(was[..i + 1], seqNum) == Unacked(was[..i], seqNum) + if Covers(seqNum, was[i]) then [] else [was[i]]
    ensures var before, after := Acked(was[..i], seqNum), Acked(was[..i + 1], seqNum);
      if Covers(seqNum, was[i]) then
        && Numbers(after) == Numbers(before) + [was[i].seqNum]
        && RoundTrips(after, now)
           == RoundTrips(before, now) + [if now > was[i].firstSendMs then now - was[i].firstSendMs else 0]
      else after == before
  {
    assert was[..i + 1][..i] == was[..i];
    if Covers(seqNum, was[i]) {
      var before, after := Acked(was[..i], seqNum), Acked(was[..i + 1], seqNum);
      assert after == before + [was[i]];
      assert after[..|after| - 1] == before;
    }
  }

  /** struct chiaki_takion_send_buffer_t */
  class Buffer {
    const packets: array<Packet>
    var count: nat

    ghost predicate Valid()
      reads this
    {
      count <= packets.Length < SIZE_MAX
    }

    ghost function Contents(): seq<Packet>
      reads this, packets
      requires Valid()
    {
      packets[..count]
    }

    ghost function View(): Slots
      reads this, packets
    {
      Slots(packets[..], count)
    }

    constructor (size: nat)
      requires size < SIZE_MAX
      ensures Valid() && fresh(packets) && packets.Length == size && Contents() == []
    {
      packets := new Packet[size](_ => Packet(0, 0, 0, 0, []));
      count := 0;
    }

    /** chiaki_takion_send_buffer_push */
    method Push(seqNum: SeqNum32, buf: seq<int>, now: nat) returns (err: Error)
      requires Valid()
      modifies this, packets
      ensures Valid()
      ensures (Contents(), err) == Pushed(old(Contents()), packets.Length, seqNum, buf, now)
      ensures View() == old(View()).AfterPush(seqNum, buf, now)
      ensures err == if old(count) >= packets.Length then Overflow
                     else if seqNum in Numbers(old(Contents())) then InvalidData else Success
      ensures Contents() == old(Contents()) + if err == Success then [Packet(seqNum, 0, now, now, buf)] else []
    {
      ghost var numbers := Numbers(Contents());
      if count >= packets.Length {
        return Overflow;
      }
      var i := 0;
      while i < count
        invariant 0 <= i <= count
        invariant forall k | 0 <= k < i :: packets[k].seqNum != seqNum
      {
        if packets[i].seqNum == seqNum {
          assert Contents()[i].seqNum == seqNum && numbers[i] in numbers;
          return InvalidData;
        }
        i := i + 1;
      }
      assert forall k | 0 <= k < |Contents()| :: Contents()[k].seqNum != seqNum;
      packets[count] := Packet(seqNum, 0, now, now, buf);
      count := count + 1;
      assert Contents() == old(Contents()) + [Packet(seqNum, 0, now, now, buf)];
      return Success;
    }

    /** chiaki_takion_send_buffer_ack */
    method Ack(seqNum: SeqNum32, now: nat) returns (ackedSeqNums: seq<SeqNum32>, ackedRttMs: seq<nat>)
      requires Valid()
      modifies this, packets
      ensures Valid()
      ensures Contents() == Unacked(old(Contents()), seqNum)
      ensures View() == old(View()).AfterAck(seqNum)
      ensures ackedSeqNums == Numbers(Acked(old(Contents()), seqNum))
      ensures ackedRttMs == RoundTrips(Acked(old(Contents()), seqNum), now)
    {
      hide Covers, Unacked, Acked, Numbers, RoundTrips, Survivors, Gap;
      ghost var was, raw := Contents(), packets[..];
      NothingAcked(packets[..], was, seqNum, now);
      ackedSeqNums, ackedRttMs := [], [];
      var shift: nat, shiftStart: nat, i: nat := 0, SIZE_MAX, 0;
      while i < count
        invariant i <= count == |was| <= packets.Length && Gap(shiftStart, shift, i)
        invariant packets[i..count] == was[i..]
        invariant shift <= i && packets[i - shift..] == raw[i - shift..]
        invariant ackedSeqNums == Numbers(Acked(was[..i], seqNum))
        invariant ackedRttMs == RoundTrips(Acked(was[..i], seqNum), now)
        invariant Survivors(packets[..], shiftStart, shift, i) == Unacked(was[..i], seqNum)
      {
        assert packets[i - shift + 1..] == packets[i - shift..][1..] == raw[i - shift..][1..] == raw[i - shift + 1..];
        assert packets[i] == was[i] by { assert packets[i..count][0] == was[i..][0]; }
        assert packets[i + 1..count] == was[i + 1..] by { assert packets[i..count][1..] == was[i..][1..]; }
        FilterStep(was, i, seqNum, now);
        SurvivorsStep(packets[..], shiftStart, shift, i);
        if Covers(seqNum, packets[i]) {
          ackedRttMs := ackedRttMs + [if now > packets[i].firstSendMs then now - packets[i].firstSendMs else 0];
          ackedSeqNums := ackedSeqNums + [packets[i].seqNum];
          shiftStart, shift := WidenGap(shiftStart, shift, i);
        }
        i := i + 1;
      }
      assert was[..count] == was;
      CloseGap(shiftStart, shift);
      assert packets[..] == packets[..count] + packets[count..];
    }

    /** The final shift. */
    method CloseGap(shiftStart: nat, shift: nat)
      requires Valid() && Gap(shiftStart, shift, count)
      modifies this`count, packets
      ensures Valid() && Contents() == old(Survivors(packets[..], shiftStart, shift, count))
      ensures count == old(count) - shift && packets[count..] == old(packets[..])[count..]
    {
      if shiftStart != SIZE_MAX {
        if shiftStart + shift < count {
          Memmove(packets, shiftStart, shiftStart + shift, count - (shiftStart + shift));
          GapClosed(old(packets[..]), packets[..], shiftStart, shift, count);
        }
        count := count - shift;
      }
    }

    /** The part of ack that puts slot `i` into the gap, closing the previous gap first when `i` does not touch it. */
    method WidenGap(shiftStart: nat, shift: nat, i: nat) returns (shiftStart': nat, shift': nat)
      requires Valid() && i < count && Gap(shiftStart, shift, i)
      modifies packets
      ensures Gap(shiftStart', shift', i + 1)
      ensures packets[i + 1..count] == old(packets[i + 1..count])
      ensures shift' == shift + 1 && packets[i - shift..] == old(packets[..])[i - shift..]
      ensures Survivors(packets[..], shiftStart', shift', i + 1) == old(Survivors(packets[..], shiftStart, shift, i))
    {
      if shiftStart == SIZE_MAX {
        return i, 1;
      } else if shiftStart + shift == i {
        return shiftStart, shift + 1;
      } else {
        var n := i - (shiftStart + shift);
        Memmove(packets, shiftStart, shiftStart + shift, n);
        GapMoved(old(packets[..]), packets[..], shiftStart, shift, i, count);
        return i - shift, shift + 1;
      }
    }

    /** takion_send_buffer_resend, whose give-up acks the packet's own number and so everything serially
        before it; after a give-up the loop looks at the same index again, or at index 1 after index 0. */
    method Resend(now: nat) returns (sent: seq<seq<int>>)
      requires Valid()
      modifies this, packets
      ensures Valid()
      ensures Resent(Contents(), sent) == ResendFrom(old(Contents()), 0, now)
    {
      hide Unacked, Acked, Covers, Expired, Numbers, RoundTrips, Slots.AfterAck;
      sent := [];
      var i := 0;
      while i < count
        invariant 0 <= i && Valid()
        invariant var r := ResendFrom(Contents(), i, now);
          ResendFrom(old(Contents()), 0, now) == Resent(r.packets, sent + r.sent)
        decreases count - i
      {
        var packet := packets[i];
        assert packet == Contents()[i];
        if Expired(packet, now) {
          if packet.tries >= TRIES_MAX {
            GiveUpShrinks(Contents(), i);
            var _, _ := Ack(packet.seqNum, now);
            if i > 0 { i := i - 1; }
            i := i + 1;
            continue;
          }
          ghost var was, r := Contents(), ResendFrom(Contents(), i, now);
          packets[i] := packet.(lastSendMs := now, tries := packet.tries + 1);
          assert Contents() == was[i := packets[i]];
          ghost var q := ResendFrom(Contents(), i + 1, now);
          assert sent + ([packet.buf] + q.sent) == (sent + [packet.buf]) + q.sent;
          sent := sent + [packet.buf];
        }
        i := i + 1;
      }
      assert sent + [] == sent;
    }
  }

  datatype Resent = Resent(packets: seq<Packet>, sent: seq<seq<int>>)

  /** The resend test, in 64-bit arithmetic. */
  predicate Expired(p: Packet, now: nat) {
    (now - p.lastSendMs) % (SIZE_MAX + 1) > RESEND_TIMEOUT_MS
  }

  lemma {:induction false} GiveUpShrinks(packets: seq<Packet>, i: nat)
    requires i < |packets|
    ensures |Unacked(packets, packets[i].seqNum)| < |packets|
  {
    if i < |packets| - 1 {
      GiveUpShrinks(packets[..|packets| - 1], i);
    }
  }

  function ResendFrom(packets: seq<Packet>, i: nat, now: nat): Resent
    decreases |packets| - i
  {
    if i >= |packets| then
      Resent(packets, [])
    else
      var p := packets[i];
      if !Expired(p, now) then
        ResendFrom(packets, i + 1, now)
      else if p.tries >= TRIES_MAX then
        GiveUpShrinks(packets, i);
        ResendFrom(Unacked(packets, p.seqNum), if i > 0 then i else 1, now)
      else
        var r := ResendFrom(packets[i := p.(lastSendMs := now, tries := p.tries + 1)], i + 1, now);
        Resent(r.packets, [p.buf] + r.sent)
  }

  /** What is left in the buffer was there before, unchanged but for its retry counters. */
  ghost predicate SameMessage(p: Packet, q: Packet) {
    p.seqNum == q.seqNum && p.buf == q.buf && p.firstSendMs == q.firstSendMs
  }

  /** Filtering is stable: the survivors and the acked packets are the two order-preserving halves of the
      buffer, told apart by the ack alone. */
  lemma {:induction false} AckPartitions(packets: seq<Packet>, seqNum: SeqNum32)
    ensures forall p :: p in Unacked(packets, seqNum) <==> p in packets && !Covers(seqNum, p)
    ensures forall p :: p in Acked(packets, seqNum) <==> p in packets && Covers(seqNum, p)
    ensures multiset(Unacked(packets, seqNum)) + multiset(Acked(packets, seqNum)) == multiset(packets)
  {
    hide Covers;
    if packets != [] {
      var n := |packets| - 1;
      AckPartitions(packets[..n], seqNum);
      assert packets == packets[..n] + [packets[n]];
      var kept, acked := Unacked(packets[..n], seqNum), Acked(packets[..n], seqNum);
      if Covers(seqNum, packets[n]) {
        assert Unacked(packets, seqNum) == kept && Acked(packets, seqNum) == acked + [packets[n]];
      } else {
        assert Unacked(packets, seqNum) == kept + [packets[n]] && Acked(packets, seqNum) == acked;
      }
      hide Unacked, Acked;
    }
  }

  function CoveredBy(seqNum: SeqNum32): Packet -> bool {
    p => Covers(seqNum, p)
  }

  function NotCoveredBy(seqNum: SeqNum32): Packet -> bool {
    p => !Covers(seqNum, p)
  }

  /** And each half keeps the order of the buffer. */
  lemma {:induction false} AckFilters(packets: seq<Packet>, seqNum: SeqNum32)
    ensures Filtered(packets, NotCoveredBy(seqNum), Unacked(packets, seqNum))
    ensures Filtered(packets, CoveredBy(seqNum), Acked(packets, seqNum))
  {
    hide Filtered, Covers;
    if packets == [] {
      FilteredNothing(NotCoveredBy(seqNum));
      FilteredNothing(CoveredBy(seqNum));
    } else {
      var n := |packets| - 1;
      AckFilters(packets[..n], seqNum);
      assert packets == packets[..n] + [packets[n]];
      assert Unacked(packets[..n], seqNum) + [] == Unacked(packets[..n], seqNum);
      assert Acked(packets[..n], seqNum) + [] == Acked(packets[..n], seqNum);
      FilteredAppend(packets[..n], NotCoveredBy(seqNum), Unacked(packets[..n], seqNum), packets[n]);
      FilteredAppend(packets[..n], CoveredBy(seqNum), Acked(packets[..n], seqNum), packets[n]);
    }
  }

  ghost predicate Distinct(packets: seq<Packet>) {
    forall i, j | 0 <= i < j < |packets| :: packets[i].seqNum != packets[j].seqNum
  }

  /** Sequence numbers in the buffer stay pairwise distinct, whatever is pushed, acked or given up. */
  lemma {:induction false} AckKeepsDistinct(packets: seq<Packet>, seqNum: SeqNum32)
    requires Distinct(packets)
    ensures Distinct(Unacked(packets, seqNum))
  {
    if packets != [] {
      var n := |packets| - 1;
      AckKeepsDistinct(packets[..n], seqNum);
      AckPartitions(packets[..n], seqNum);
      var kept := Unacked(packets[..n], seqNum);
      forall i | 0 <= i < |kept| ensures kept[i].seqNum != packets[n].seqNum {
        assert kept[i] in packets[..n];
      }
    }
  }

  lemma PushKeepsDistinct(packets: seq<Packet>, size: nat, seqNum: SeqNum32, buf: seq<int>, now: nat)
    requires Distinct(packets) && |packets| <= size
    ensures var r := Pushed(packets, size, seqNum, buf, now);
      Distinct(r.0) && |r.0| <= size && (r.1 != Success ==> r.0 == packets)
  {}

  ghost predicate Present(p: Packet, packets: seq<Packet>) {
    exists q | q in packets :: SameMessage(p, q)
  }

  ghost predicate Exhausted(g: Packet, now: nat) {
    g.tries >= TRIES_MAX && Expired(g, now)
  }

  ghost predicate GivenUp(p: Packet, packets: seq<Packet>, now: nat) {
    exists g | g in packets :: Exhausted(g, now) && Covers(g.seqNum, p)
  }

  /** `after` holds only messages of `before`, and misses only those covered by a packet given up at `now`. */
  ghost predicate OnlyExhaustedRemoved(before: seq<Packet>, after: seq<Packet>, now: nat) {
    && (forall q | q in after :: Present(q, before))
    && (forall p | p in before :: Present(p, after) || GivenUp(p, before, now))
  }

  lemma RemovedTrans(a: seq<Packet>, b: seq<Packet>, c: seq<Packet>, now: nat)
    requires OnlyExhaustedRemoved(a, b, now) && OnlyExhaustedRemoved(b, c, now)
    requires forall g | g in b && Exhausted(g, now) :: g in a
    ensures OnlyExhaustedRemoved(a, c, now)
  {
    hide Exhausted, Lt32;
    forall q | q in c ensures Present(q, a) {
      var r :| r in b && SameMessage(q, r);
      var p :| p in a && SameMessage(r, p);
      assert SameMessage(q, p);
    }
    forall p | p in a ensures Present(p, c) || GivenUp(p, a, now) {
      if !GivenUp(p, a, now) {
        var q :| q in b && SameMessage(p, q);
        assert !GivenUp(q, b, now) by {
          assert forall g | g in b && Exhausted(g, now) :: Covers(g.seqNum, q) == Covers(g.seqNum, p);
        }
        var r :| r in c && SameMessage(q, r);
        assert SameMessage(p, r);
      }
    }
  }

  lemma UpdateRemovesNothing(packets: seq<Packet>, i: nat, q: Packet, now: nat)
    requires i < |packets| && SameMessage(packets[i], q)
    ensures OnlyExhaustedRemoved(packets, packets[i := q], now)
  {
    hide Covers, Exhausted;
    var after := packets[i := q];
    forall p | p in after ensures Present(p, packets) {
      var k :| 0 <= k < |after| && after[k] == p;
      assert SameMessage(p, packets[k]);
    }
    forall p | p in packets ensures Present(p, after) {
      var k :| 0 <= k < |packets| && packets[k] == p;
      assert SameMessage(p, after[k]);
    }
  }

  lemma GiveUpRemovesCovered(packets: seq<Packet>, i: nat, now: nat)
    requires i < |packets| && Exhausted(packets[i], now)
    ensures OnlyExhaustedRemoved(packets, Unacked(packets, packets[i].seqNum), now)
  {
    hide Covers, Exhausted;
    AckPartitions(packets, packets[i].seqNum);
    assert forall p | p in packets :: SameMessage(p, p);
  }

  /** No packet is retransmitted more than TRIES_MAX times; the resend loop only removes packets covered by one
      that used up its tries; and what it keeps is unchanged but for the retry counters. */
  lemma {:induction false} ResendRemovesOnlyExhausted(packets: seq<Packet>, i: nat, now: nat)
    requires Distinct(packets) && forall p | p in packets :: p.tries <= TRIES_MAX
    ensures var r := ResendFrom(packets, i, now).packets;
      Distinct(r) && (forall q | q in r :: q.tries <= TRIES_MAX) && OnlyExhaustedRemoved(packets, r, now)
    decreases |packets| - i
  {
    hide Covers, OnlyExhaustedRemoved;
    if i < |packets| && !Expired(packets[i], now) {
      ResendRemovesOnlyExhausted(packets, i + 1, now);
    } else if i < |packets| && packets[i].tries >= TRIES_MAX {
      var rest := Unacked(packets, packets[i].seqNum);
      GiveUpShrinks(packets, i);
      AckPartitions(packets, packets[i].seqNum);
      AckKeepsDistinct(packets, packets[i].seqNum);
      GiveUpRemovesCovered(packets, i, now);
      ResendRemovesOnlyExhausted(rest, if i > 0 then i else 1, now);
      RemovedTrans(packets, rest, ResendFrom(packets, i, now).packets, now);
    } else if i < |packets| {
      var rest := packets[i := packets[i].(lastSendMs := now, tries := packets[i].tries + 1)];
      UpdateRemovesNothing(packets, i, rest[i], now);
      ResendRemovesOnlyExhausted(rest, i + 1, now);
      RemovedTrans(packets, rest, ResendFrom(packets, i, now).packets, now);
    } else {
      NothingRemoved(packets, now);
    }
  }

  lemma NothingRemoved(packets: seq<Packet>, now: nat)
    ensures OnlyExhaustedRemoved(packets, packets, now)
  {
    assert forall p | p in packets :: SameMessage(p, p);
  }
}
