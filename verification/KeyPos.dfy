/** Key positions of lib/src/takion.c and lib/src/gkcrypt.c: reserving ranges of the local key stream, and
    recovering 64-bit positions from their low 32 bits. */
module KeyPos {
  import opened Options
  import opened Powers
  import opened SeqNum
  import opened KeyStream

  /** How much advance_key_pos reserves for a size: the size plus its remainder modulo the block size, in 64 bits. */
  function Reserve(dataSize: nat): nat {
    (dataSize + dataSize % BLOCK_SIZE) % TWO64
  }

  /** The reservation covers the data exactly if that sum does not wrap. */
  lemma ReserveCovers(dataSize: nat)
    requires dataSize < TWO64
    ensures Reserve(dataSize) >= dataSize <==> dataSize + dataSize % BLOCK_SIZE < TWO64
  {}

  /** A range of the key stream */
  datatype Range = Range(start: nat, end: nat)

  /** chiaki_takion_crypt_advance_key_pos: None is an overflow, otherwise the position handed out. Without a local
      key there is nothing to reserve. */
  function Advance(hasKey: bool, keyPosLocal: nat, dataSize: nat): Option<nat> {
    if !hasKey then Some(0)
    else if TWO64 - 1 - keyPosLocal < Reserve(dataSize) then None
    else Some(keyPosLocal)
  }

  function AdvanceTo(hasKey: bool, keyPosLocal: nat, dataSize: nat): nat {
    if hasKey && Advance(hasKey, keyPosLocal, dataSize).Some? then keyPosLocal + Reserve(dataSize) else keyPosLocal
  }

  /** With a local key a call hands out the position and moves it on by the size and the size's remainder modulo 16,
      unless that is 2^64 or more, which changes nothing. */
  lemma AdvanceIs(keyPosLocal: nat, dataSize: nat)
    requires keyPosLocal < TWO64 && dataSize + dataSize % 16 < TWO64
    ensures var next := keyPosLocal + dataSize + dataSize % 16;
      && Advance(true, keyPosLocal, dataSize) == (if next < TWO64 then Some(keyPosLocal) else None)
      && AdvanceTo(true, keyPosLocal, dataSize) == (if next < TWO64 then next else keyPosLocal)
      && Advance(false, keyPosLocal, dataSize) == Some(0) && AdvanceTo(false, keyPosLocal, dataSize) == keyPosLocal
  {}

  /** What feedback packets use: the block at their key position for the GMAC, and the bytes behind it for the
      payload. */
  function Encrypted(keyPos: nat, payloadSize: nat): Range {
    Range(keyPos + BLOCK_SIZE, keyPos + BLOCK_SIZE + payloadSize)
  }

  /** The ranges that a run of calls, by any threads, reserves with a local key; calls that overflow reserve nothing. */
  function Reservations(keyPosLocal: nat, sizes: seq<nat>): seq<Range>
    decreases |sizes|
  {
    if sizes == [] then []
    else
      var next := AdvanceTo(true, keyPosLocal, sizes[0]);
      var rest := Reservations(next, sizes[1..]);
      if Advance(true, keyPosLocal, sizes[0]).Some? then [Range(keyPosLocal, next)] + rest else rest
  }

  /** Ranges from `low` on, each at least `gap` behind the end of every earlier one */
  predicate Ascending(ranges: seq<Range>, low: nat, gap: nat) {
    && (forall i | 0 <= i < |ranges| :: low <= ranges[i].start <= ranges[i].end)
    && (forall i, j | 0 <= i < j < |ranges| :: ranges[i].end + gap <= ranges[j].start)
  }

  lemma AscendingPrepend(first: Range, rest: seq<Range>, next: nat, gap: nat)
    requires first.start <= first.end && first.end + gap <= next && Ascending(rest, next, gap)
    ensures Ascending([first] + rest, first.start, gap)
  {
    var r := [first] + rest;
    assert forall i | 0 < i < |r| :: r[i] == rest[i - 1];
  }

  /** Ranges reserved in any run are pairwise disjoint, ascending and within 64 bits. */
  lemma {:induction false} ReservationsDisjoint(keyPosLocal: nat, sizes: seq<nat>)
    requires keyPosLocal < TWO64
    ensures Ascending(Reservations(keyPosLocal, sizes), keyPosLocal, 0)
    ensures forall i | 0 <= i < |Reservations(keyPosLocal, sizes)| :: Reservations(keyPosLocal, sizes)[i].end < TWO64
    decreases |sizes|
  {
    if sizes != [] {
      var next := AdvanceTo(true, keyPosLocal, sizes[0]);
      var rest := Reservations(next, sizes[1..]);
      ReservationsDisjoint(next, sizes[1..]);
      if Advance(true, keyPosLocal, sizes[0]).Some? { AscendingPrepend(Range(keyPosLocal, next), rest, next, 0); }
    }
  }

  /** A feedback packet's encrypted bytes lie inside the range reserved for it, behind its GMAC block. */
  lemma PacketInsideReservation(keyPosLocal: nat, payloadSize: nat)
    requires keyPosLocal < TWO64 && payloadSize + 2 * BLOCK_SIZE <= TWO64
    requires Advance(true, keyPosLocal, payloadSize + BLOCK_SIZE).Some?
    ensures var e := Encrypted(keyPosLocal, payloadSize);
      keyPosLocal + BLOCK_SIZE <= e.start <= e.end <= AdvanceTo(true, keyPosLocal, payloadSize + BLOCK_SIZE)
  {
    ReserveCovers(payloadSize + BLOCK_SIZE);
  }

  /** A reservation for a feedback packet, or for anything else that the connection sends */
  datatype Use = Feedback(payloadSize: nat) | Other(size: nat)

  function SizeOf(use: Use): nat {
    match use
    case Feedback(payloadSize) => payloadSize + BLOCK_SIZE
    case Other(size) => size
  }

  predicate Fits(use: Use) {
    use.Feedback? ==> use.payloadSize + 2 * BLOCK_SIZE <= TWO64
  }

  /** What the packets of a run encrypt, the oldest first: feedback packets their payload, and of all other packets,
      if `others` is set, everything they reserve. */
  function UsedRanges(keyPosLocal: nat, uses: seq<Use>, others: bool): seq<Range>
    decreases |uses|
  {
    if uses == [] then []
    else
      var next := AdvanceTo(true, keyPosLocal, SizeOf(uses[0]));
      var rest := UsedRanges(next, uses[1..], others);
      if Advance(true, keyPosLocal, SizeOf(uses[0])).None? then rest
      else
        match uses[0]
        case Feedback(payloadSize) => [Encrypted(keyPosLocal, payloadSize)] + rest
        case Other(_) => if others then [Range(keyPosLocal, next)] + rest else rest
  }

  lemma AscendingFrom(ranges: seq<Range>, low: nat, lower: nat, gap: nat)
    requires Ascending(ranges, low, gap) && lower <= low
    ensures Ascending(ranges, lower, gap)
  {}

  /** Over any run that mixes feedback packets with other reservations, no byte of the key stream encrypts twice, none
      that encrypts a feedback packet is reserved for anything else, and between feedback packets there is always room
      for the GMAC block. */
  lemma {:induction false} NoKeyStreamReuse(keyPosLocal: nat, uses: seq<Use>)
    requires keyPosLocal < TWO64 && forall i | 0 <= i < |uses| :: Fits(uses[i])
    ensures Ascending(UsedRanges(keyPosLocal, uses, true), keyPosLocal, 0)
    ensures Ascending(UsedRanges(keyPosLocal, uses, false), keyPosLocal + BLOCK_SIZE, BLOCK_SIZE)
    decreases |uses|
  {
    hide Ascending, Reserve;
    if uses == [] {
      NothingAscending(keyPosLocal, 0);
      NothingAscending(keyPosLocal + BLOCK_SIZE, BLOCK_SIZE);
    } else {
      var size := SizeOf(uses[0]);
      var next := AdvanceTo(true, keyPosLocal, size);
      NoKeyStreamReuse(next, uses[1..]);
      var all, feedback := UsedRanges(next, uses[1..], true), UsedRanges(next, uses[1..], false);
      AscendingFrom(all, next, keyPosLocal, 0);
      AscendingFrom(feedback, next + BLOCK_SIZE, keyPosLocal + BLOCK_SIZE, BLOCK_SIZE);
      if Advance(true, keyPosLocal, size).Some? {
        match uses[0]
        case Feedback(payloadSize) =>
          PacketInsideReservation(keyPosLocal, payloadSize);
          var e := Encrypted(keyPosLocal, payloadSize);
          AscendingPrepend(e, all, next, 0);
          AscendingFrom([e] + all, e.start, keyPosLocal, 0);
          AscendingPrepend(e, feedback, next + BLOCK_SIZE, BLOCK_SIZE);
        case Other(_) =>
          AscendingPrepend(Range(keyPosLocal, next), all, next, 0);
      }
    }
  }

  lemma NothingAscending(low: nat, gap: nat)
    ensures Ascending([], low, gap)
  {}

  // ---------------------------------------------------------------- the counters of the GMACs

  /** The counter of the GMAC at a key position */
  function GmacCounter(keyPos: nat): nat {
    keyPos / BLOCK_SIZE
  }

  /** A reservation that starts here reaches into a later block. */
  predicate LeavesBlock(keyPos: nat, dataSize: nat) {
    keyPos % BLOCK_SIZE + Reserve(dataSize) >= BLOCK_SIZE
  }

  /** It always does for eight bytes and more, as long as the size's own sum does not wrap. */
  lemma EightBytesLeaveBlock(keyPos: nat, dataSize: nat)
    requires 8 <= dataSize && dataSize + BLOCK_SIZE <= TWO64
    ensures LeavesBlock(keyPos, dataSize)
  {
    ReserveCovers(dataSize);
  }

  /** The positions that a run of reservations hands out */
  function Positions(keyPosLocal: nat, sizes: seq<nat>): (r: seq<nat>)
    decreases |sizes|
  {
    if sizes == [] then []
    else
      var rest := Positions(AdvanceTo(true, keyPosLocal, sizes[0]), sizes[1..]);
      if Advance(true, keyPosLocal, sizes[0]).Some? then [keyPosLocal] + rest else rest
  }

  predicate Increasing(ns: seq<nat>) {
    forall i, j | 0 <= i < j < |ns| :: GmacCounter(ns[i]) < GmacCounter(ns[j])
  }

  /** The next reservation has another counter if and only if this one leaves its block. */
  lemma NextCounter(keyPosLocal: nat, dataSize: nat)
    requires Advance(true, keyPosLocal, dataSize).Some?
    ensures GmacCounter(AdvanceTo(true, keyPosLocal, dataSize)) != GmacCounter(keyPosLocal)
            <==> LeavesBlock(keyPosLocal, dataSize)
    ensures GmacCounter(AdvanceTo(true, keyPosLocal, dataSize)) >= GmacCounter(keyPosLocal)
  {
    hide Reserve;
    var n := Reserve(dataSize);
    BlockOf(keyPosLocal, n);
  }

  lemma BlockOf(keyPos: nat, n: nat)
    ensures (keyPos + n) / BLOCK_SIZE >= keyPos / BLOCK_SIZE
    ensures (keyPos + n) / BLOCK_SIZE != keyPos / BLOCK_SIZE <==> keyPos % BLOCK_SIZE + n >= BLOCK_SIZE
  {}

  /** Every reservation of a run but the last successful one leaves its block. */
  predicate AllLeaveBlock(keyPosLocal: nat, sizes: seq<nat>)
    decreases |sizes|
  {
    sizes != [] ==>
      && AllLeaveBlock(AdvanceTo(true, keyPosLocal, sizes[0]), sizes[1..])
      && (Advance(true, keyPosLocal, sizes[0]).Some? ==>
            Positions(AdvanceTo(true, keyPosLocal, sizes[0]), sizes[1..]) == [] || LeavesBlock(keyPosLocal, sizes[0]))
  }

  lemma {:induction false} PositionsFrom(keyPosLocal: nat, sizes: seq<nat>)
    requires keyPosLocal < TWO64
    ensures forall i | 0 <= i < |Positions(keyPosLocal, sizes)| ::
              GmacCounter(Positions(keyPosLocal, sizes)[i]) >= GmacCounter(keyPosLocal)
    ensures Positions(keyPosLocal, sizes) != [] ==> Positions(keyPosLocal, sizes)[0] == keyPosLocal
    decreases |sizes|
  {
    hide Reserve, GmacCounter;
    if sizes != [] {
      var next := AdvanceTo(true, keyPosLocal, sizes[0]);
      PositionsFrom(next, sizes[1..]);
      if Advance(true, keyPosLocal, sizes[0]).Some? { NextCounter(keyPosLocal, sizes[0]); }
    }
  }

  /** Over any run no two reservations share a GMAC counter, if and only if all but the last one leave their blocks. */
  lemma {:induction false} GmacCountersDiffer(keyPosLocal: nat, sizes: seq<nat>)
    requires keyPosLocal < TWO64
    ensures Increasing(Positions(keyPosLocal, sizes)) <==> AllLeaveBlock(keyPosLocal, sizes)
    decreases |sizes|
  {
    hide Reserve, GmacCounter, LeavesBlock;
    if sizes != [] {
      var next := AdvanceTo(true, keyPosLocal, sizes[0]);
      var all, rest := Positions(keyPosLocal, sizes), Positions(next, sizes[1..]);
      GmacCountersDiffer(next, sizes[1..]);
      if Advance(true, keyPosLocal, sizes[0]).Some? {
        NextCounter(keyPosLocal, sizes[0]);
        PositionsFrom(next, sizes[1..]);
        assert all == [keyPosLocal] + rest;
        assert forall i | 0 < i < |all| :: all[i] == rest[i - 1];
        if Increasing(all) {
          forall i, j | 0 <= i < j < |rest| ensures GmacCounter(rest[i]) < GmacCounter(rest[j]) {
            assert all[i + 1] == rest[i] && all[j + 1] == rest[j];
          }
          if rest != [] { assert all[1] == rest[0] == next && GmacCounter(all[0]) < GmacCounter(all[1]); }
        }
      }
    }
  }

  /** An instance: two messages of one byte share a counter. */
  lemma SharedCounter()
    ensures Positions(0, [1, 1]) == [0, 2] && GmacCounter(0) == GmacCounter(2)
  {
    assert [1, 1][1..] == [1] && [1][1..] == [];
    assert Reserve(1) == 2;
  }

  /** The sending half of struct chiaki_takion_t, as far as key positions are concerned. */
  class Local {
    var hasKey: bool
    var keyPosLocal: nat

    constructor ()
      ensures !hasKey && keyPosLocal == 0
    {
      hasKey, keyPosLocal := false, 0;
    }

    /** chiaki_takion_crypt_advance_key_pos */
    method CryptAdvanceKeyPos(dataSize: nat) returns (keyPos: Option<nat>)
      requires keyPosLocal < TWO64
      modifies this`keyPosLocal
      ensures keyPosLocal < TWO64
      ensures keyPos == Advance(hasKey, old(keyPosLocal), dataSize)
      ensures keyPosLocal == AdvanceTo(hasKey, old(keyPosLocal), dataSize)
    {
      var size := (dataSize + dataSize % BLOCK_SIZE) % TWO64;
      if hasKey {
        var cur := keyPosLocal;
        if TWO64 - 1 - cur < size {
          return None;
        }
        keyPos := Some(cur);
        keyPosLocal := cur + size;
      } else {
        keyPos := Some(0);
      }
    }

    /** takion_send_feedback_packet: the range it encrypts, with a local key. */
    method SendFeedbackPacket(payloadSize: nat) returns (encrypted: Option<Range>)
      requires hasKey && keyPosLocal < TWO64 && payloadSize + 2 * BLOCK_SIZE <= TWO64
      modifies this`keyPosLocal
      ensures keyPosLocal < TWO64
      ensures encrypted.Some? ==> encrypted.value.start == old(keyPosLocal) + 16
      ensures encrypted.Some? ==> encrypted.value.end == encrypted.value.start + payloadSize <= keyPosLocal
      ensures var next := old(keyPosLocal) + payloadSize + 16 + payloadSize % 16;
        && (encrypted.Some? <==> next < TWO64)
        && keyPosLocal == if encrypted.Some? then next else old(keyPosLocal)
    {
      hide Reserve, Advance, AdvanceTo;
      AdvanceIs(keyPosLocal, payloadSize + BLOCK_SIZE);
      assert (payloadSize + BLOCK_SIZE) % 16 == payloadSize % 16;
      var keyPos := CryptAdvanceKeyPos(payloadSize + BLOCK_SIZE);
      if keyPos.None? {
        return None;
      }
      PacketInsideReservation(keyPos.value, payloadSize);
      encrypted := Some(Range(keyPos.value + BLOCK_SIZE, keyPos.value + BLOCK_SIZE + payloadSize));
    }
  }

  /** chiaki_key_state_request_pos, on the high and low halves of a 64-bit position. */
  function RequestPos(prev: nat, low: SeqNum32): nat
    requires prev < TWO64
  {
    var prevLow, high := Wrap32(prev), prev / TWO32;
    var h := if Gt32(low, prevLow) && low < prevLow then (high + 1) % TWO32
             else if Lt32(low, prevLow) && low > prevLow && high != 0 then high - 1
             else high;
    h * TWO32 + low
  }

  /** Any position less than 2^31 away from the committed one is recovered exactly from its low 32 bits. */
  lemma RequestPosRecovers(prev: nat, pos: nat)
    requires prev < TWO64 && pos < TWO64 && -TWO31 < pos - prev < TWO31
    ensures RequestPos(prev, Wrap32(pos)) == pos
  {
  }

  /** Whatever the low bits, the position given is the one with these bits nearest to the committed one, taken into
      64 bits; except that at exactly half distance it has the committed one's high bits, and that below zero it is
      2^32 more. */
  lemma RequestPosIs(prev: nat, low: SeqNum32)
    requires prev < TWO64
    ensures var near := Unwrap(TWO32, prev, low);
      RequestPos(prev, low) ==
        if near - prev == TWO31 then prev / TWO32 * TWO32 + low
        else if near < 0 then near + TWO32
        else if near >= TWO64 then near - TWO64
        else near
  {
    ForwardDistance(TWO32, prev, low);
  }

  /** struct chiaki_key_state_t */
  class KeyState {
    var prev: nat

    constructor ()
      ensures prev == 0
    {
      prev := 0;
    }

    /** chiaki_key_state_request_pos */
    method RequestKeyPos(low: SeqNum32, commit: bool) returns (res: nat)
      requires prev < TWO64
      modifies this
      ensures res == RequestPos(old(prev), low) < TWO64
      ensures prev == if commit then res else old(prev)
    {
      var prevLow, high := Wrap32(prev), prev / TWO32;
      if Gt32(low, prevLow) && low < prevLow {
        high := (high + 1) % TWO32;
      } else if Lt32(low, prevLow) && low > prevLow && high != 0 {
        high := high - 1;
      }
      res := high * TWO32 + low;
      if commit {
        prev := res;
      }
    }
  }

  /** The positions a receiver recovers from the low halves alone, committing each. */
  function Recovered(prev: nat, lows: seq<SeqNum32>): (r: seq<nat>)
    requires prev < TWO64
    ensures |r| == |lows|
    decreases |lows|
  {
    if lows == [] then []
    else
      var pos := RequestPos(prev, lows[0]);
      assert pos < TWO64 by { RequestPosRange(prev, lows[0]); }
      [pos] + Recovered(pos, lows[1..])
  }

  lemma RequestPosRange(prev: nat, low: SeqNum32)
    requires prev < TWO64
    ensures RequestPos(prev, low) < TWO64
  {}

  function Lows(positions: seq<nat>): (r: seq<SeqNum32>)
    ensures |r| == |positions|
  {
    if positions == [] then [] else [Wrap32(positions[0])] + Lows(positions[1..])
  }

  lemma RecoveredStep(prev: nat, positions: seq<nat>)
    requires prev < TWO64
    ensures positions == [] ==> Recovered(prev, Lows(positions)) == []
    ensures positions != [] ==>
      var pos := RequestPos(prev, Wrap32(positions[0]));
      pos < TWO64 && Recovered(prev, Lows(positions)) == [pos] + Recovered(pos, Lows(positions[1..]))
  {
    hide RequestPos, Wrap32;
    if positions != [] {
      RequestPosRange(prev, Wrap32(positions[0]));
      assert Lows(positions)[1..] == Lows(positions[1..]);
    }
  }

  /** Along any run whose consecutive positions differ by less than 2^31, in either direction, the receiver recovers
      every position exactly. */
  lemma {:induction false} RunRecovers(prev: nat, positions: seq<nat>)
    requires prev < TWO64 && forall i | 0 <= i < |positions| :: positions[i] < TWO64
    requires |positions| > 0 ==> -TWO31 < positions[0] - prev < TWO31
    requires forall i | 0 < i < |positions| :: -TWO31 < positions[i] - positions[i - 1] < TWO31
    ensures Recovered(prev, Lows(positions)) == positions
    decreases |positions|
  {
    hide RequestPos, Wrap32, Recovered, Lows;
    RecoveredStep(prev, positions);
    if positions != [] {
      RequestPosRecovers(prev, positions[0]);
      RunRecovers(positions[0], positions[1..]);
      assert positions == [positions[0]] + positions[1..];
    }
  }
}
