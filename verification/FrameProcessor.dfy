/** lib/src/frameprocessor.c: a frame is assembled in place from the units of its packets. Every unit has a slot of
    one stride; FEC decoding is opaque and may leave anything in the buffer. */
module FrameProcessor {
  import opened Octets
  import opened Memory
  import opened Powers

  const UNIT_SLOTS_MAX := 256
  const PADDING_SIZE := 64

  datatype Error = Success | InvalidData | BufTooSmall | Overflow

  datatype FlushResult = FlushSuccess | FecSuccess | FecFailed | FlushFailed

  datatype Packet = Packet(isVideo: bool, unitIndex: nat, unitsInFrameTotal: nat, unitsInFrameFec: nat, data: seq<Byte>)

  /** The 16-bit number in network order at the start of a unit. */
  function Extension(data: seq<Byte>): nat
    requires |data| >= 2
  {
    (data[0] as int) * 0x100 + data[1]
  }

  /** How many of the slots from..until are filled. */
  function Filled(sizes: seq<nat>, from: nat, until: nat): (n: nat)
    requires until <= |sizes|
    ensures from <= until ==> n <= until - from
    decreases until - from
  {
    if from >= until then 0
    else Filled(sizes, from, until - 1) + if sizes[until - 1] > 0 then 1 else 0
  }

  /** The empty slots below n, in ascending order. */
  function Empty(sizes: seq<nat>, n: nat): (e: seq<nat>)
    requires n <= |sizes|
  {
    if n == 0 then [] else Empty(sizes, n - 1) + if sizes[n - 1] == 0 then [n - 1] else []
  }

  lemma {:induction false} EmptyIsExact(sizes: seq<nat>, n: nat)
    requires n <= |sizes|
    ensures forall i :: i in Empty(sizes, n) <==> 0 <= i < n && sizes[i] == 0
    ensures forall i, j | 0 <= i < j < |Empty(sizes, n)| :: Empty(sizes, n)[i] < Empty(sizes, n)[j]
    ensures |Empty(sizes, n)| + Filled(sizes, 0, n) == n
  {
    if n > 0 {
      EmptyIsExact(sizes, n - 1);
      var e := Empty(sizes, n - 1);
      assert forall i | 0 <= i < |e| :: e[i] in e;
    }
  }

  lemma EmptyStep(sizes: seq<nat>, i: nat)
    requires i < |sizes|
    ensures Empty(sizes, 0) == []
    ensures Empty(sizes, i + 1) == Empty(sizes, i) + if sizes[i] == 0 then [i] else []
    ensures |Empty(sizes, i + 1)| <= |Empty(sizes, |sizes|)|
  {
    EmptyGrows(sizes, i + 1, |sizes|);
  }

  lemma {:induction false} FilledSplit(sizes: seq<nat>, from: nat, mid: nat, until: nat)
    requires from <= mid <= until <= |sizes|
    ensures Filled(sizes, from, until) == Filled(sizes, from, mid) + Filled(sizes, mid, until)
    decreases until
  {
    if mid < until { FilledSplit(sizes, from, mid, until - 1); }
  }

  lemma {:induction false} FilledUpdate(sizes: seq<nat>, k: nat, size: nat, from: nat, until: nat)
    requires until <= |sizes| && k < |sizes| && sizes[k] == 0 && size > 0
    ensures Filled(sizes[k := size], from, until) == Filled(sizes, from, until) + if from <= k < until then 1 else 0
    decreases until - from
  {
    if from < until { FilledUpdate(sizes, k, size, from, until - 1); }
  }

  /** Where slot i begins: i * stride. */
  function Offset(i: nat, stride: nat): (at: nat) {
    if i == 0 then 0 else Offset(i - 1, stride) + stride
  }

  lemma {:induction false} OffsetIs(i: nat, stride: nat)
    ensures Offset(i, stride) == i * stride
  {
    if i > 0 { OffsetIs(i - 1, stride); }
  }

  lemma {:induction false} OffsetMonotone(i: nat, j: nat, stride: nat)
    requires i < j
    ensures Offset(i, stride) + stride <= Offset(j, stride)
  {
    if i < j - 1 { OffsetMonotone(i, j - 1, stride); }
  }

  lemma ProductPositive(i: nat, stride: nat)
    requires i > 0 && stride > 0
    ensures i * stride > 0
  {}

  /** What the units of the first n slots contribute to the frame: everything behind their two extension bytes. */
  function Output(buf: seq<Byte>, sizes: seq<nat>, stride: nat, n: nat): seq<Byte>
    requires n <= |sizes| && Fits(buf, sizes, stride)
  {
    if n == 0 then []
    else
      FitsAt(buf, sizes, stride, n - 1);
      Output(buf, sizes, stride, n - 1) + Part(buf, sizes[n - 1], Offset(n - 1, stride))
  }

  function Part(buf: seq<Byte>, size: nat, at: nat): seq<Byte>
    requires at + size <= |buf|
  {
    if size < 2 then [] else buf[at + 2..at + size]
  }

  /** Every unit fits its stride, and the strides fit the buffer. */
  predicate Fits(buf: seq<Byte>, sizes: seq<nat>, stride: nat) {
    && (forall i | 0 <= i < |sizes| :: sizes[i] <= stride)
    && Offset(|sizes|, stride) <= |buf|
  }

  lemma FitsAt(buf: seq<Byte>, sizes: seq<nat>, stride: nat, i: nat)
    requires Fits(buf, sizes, stride) && i < |sizes|
    ensures Offset(i, stride) + sizes[i] <= Offset(i, stride) + stride <= Offset(|sizes|, stride) <= |buf|
  {
    OffsetMonotone(i, |sizes|, stride);
  }

  /** The payloads of units, one after the other. */
  function Payloads(units: seq<seq<Byte>>): seq<Byte> {
    if units == [] then []
    else
      var u := units[|units| - 1];
      Payloads(units[..|units| - 1]) + if |u| < 2 then [] else u[2..]
  }

  /** Slot i holds the unit received for it, or nothing. */
  ghost predicate HoldsAt(buf: seq<Byte>, size: nat, at: nat, u: seq<Byte>) {
    size == |u| && at + size <= |buf| && buf[at..at + size] == u
  }

  /** A unit behind the write cursor has moved there, and the units behind it are untouched. */
  lemma Compacted(was: seq<Byte>, now: seq<Byte>, buf: seq<Byte>, cur: nat, at: nat, next: nat, size: nat)
    requires 2 <= size && cur <= at && at + size <= next <= |was| == |now| == |buf| && was[at..] == buf[at..]
    requires now[cur..cur + (size - 2)] == was[at + 2..at + size]
    requires now[..cur] == was[..cur] && now[cur + (size - 2)..] == was[cur + (size - 2)..]
    ensures now[..cur + (size - 2)] == was[..cur] + buf[at + 2..at + size] && now[next..] == buf[next..]
  {
    assert was[at + 2..at + size] == was[at..][2..size] == buf[at..][2..size] == buf[at + 2..at + size];
    var n := next - cur - (size - 2);
    assert now[next..] == now[cur + (size - 2)..][n..] && was[next..] == was[cur + (size - 2)..][n..];
    assert now[..cur + (size - 2)] == now[..cur] + now[cur..cur + (size - 2)];
    assert was[next..] == was[at..][next - at..] == buf[at..][next - at..] == buf[next..];
  }

  ghost predicate Holds(buf: seq<Byte>, sizes: seq<nat>, stride: nat, units: seq<seq<Byte>>) {
    && |units| == |sizes|
    && Fits(buf, sizes, stride)
    && forall i | 0 <= i < |units| :: HoldsAt(buf, sizes[i], Offset(i, stride), units[i])
  }

  /** struct chiaki_frame_processor_t after a successful alloc_frame. `units` is what the slots stand for. */
  class FrameProcessor {
    var frameBuf: array<Byte>
    var frameBufSize: nat
    var bufSizePerUnit: nat
    var bufStridePerUnit: nat
    var unitsSourceExpected: nat
    var unitsFecExpected: nat
    var unitsSourceReceived: nat
    var unitsFecReceived: nat
    var unitSlots: array<nat>
    var flushed: bool
    ghost var units: seq<seq<Byte>>

    /** The counters agree with the slots, and the buffer holds every unit received. */
    ghost predicate Valid()
      reads this, frameBuf, unitSlots
    {
      && !flushed
      && 0 < bufSizePerUnit <= bufStridePerUnit && 2 <= bufStridePerUnit
      && unitSlots.Length == unitsSourceExpected + unitsFecExpected
      && 0 < unitsFecExpected
      && unitsSourceReceived == Filled(unitSlots[..], 0, unitsSourceExpected)
      && unitsFecReceived == Filled(unitSlots[..], unitsSourceExpected, unitSlots.Length)
      && (forall i | 0 <= i < unitSlots.Length :: unitSlots[i] <= bufSizePerUnit)
      && Holds(frameBuf[..], unitSlots[..], bufStridePerUnit, units)
    }

    constructor ()
      ensures fresh(frameBuf) && fresh(unitSlots) && flushed
    {
      frameBuf, unitSlots := new Byte[0](_ => 0), new nat[0](_ => 0);
      frameBufSize, bufSizePerUnit, bufStridePerUnit := 0, 0, 0;
      unitsSourceExpected, unitsFecExpected, unitsSourceReceived, unitsFecReceived := 0, 0, 0, 0;
      flushed := true;
      units := [];
    }

    /** chiaki_frame_processor_alloc_frame */
    method AllocFrame(p: Packet) returns (err: Error)
      requires frameBufSize == 0 || frameBufSize + PADDING_SIZE <= frameBuf.Length
      modifies this, frameBuf, unitSlots
      ensures err == AllocError(p)
      ensures frameBuf == old(frameBuf) || fresh(frameBuf)
      ensures unitSlots == old(unitSlots) || fresh(unitSlots)
      ensures err == Success ==>
        && Valid() && units == seq(SlotsRequired(p), _ => [])
        && unitsSourceExpected == p.unitsInFrameTotal - p.unitsInFrameFec
        && bufSizePerUnit == UnitSize(p) && frameBufSize + PADDING_SIZE <= frameBuf.Length
        && bufStridePerUnit == Stride(UnitSize(p))
        && Zeroed(frameBuf[..], SlotsRequired(p) * bufStridePerUnit + PADDING_SIZE)
      // what an error leaves behind
      ensures p.unitsInFrameTotal < p.unitsInFrameFec ==> unchanged(this)
      ensures p.unitsInFrameTotal >= p.unitsInFrameFec ==>
        && !flushed && unitsSourceExpected == p.unitsInFrameTotal - p.unitsInFrameFec
        && unitsFecExpected == SlotsRequired(p) - unitsSourceExpected
        && bufSizePerUnit == (if SizeKnown(p) then UnitSize(p) else |p.data|)
        && bufStridePerUnit == (if SizeKnown(p) then Stride(UnitSize(p)) else old(bufStridePerUnit))
        && (if SizeKnown(p) && UnitSize(p) > 0 then unitsSourceReceived == unitsFecReceived == 0
            else unitsSourceReceived == old(unitsSourceReceived) && unitsFecReceived == old(unitsFecReceived))
      ensures err != Success ==>
        && frameBufSize == old(frameBufSize) && frameBuf == old(frameBuf) && frameBuf[..] == old(frameBuf[..])
        && units == old(units)
      ensures err == Overflow ==>
        unitSlots.Length == SlotsRequired(p) && forall i | 0 <= i < unitSlots.Length :: unitSlots[i] == 0
      ensures err == InvalidData || err == BufTooSmall ==>
        unitSlots == old(unitSlots) && unitSlots[..] == old(unitSlots[..])
    {
      hide FrameProcessor.Valid, Stride, Extension, Filled, Holds, Overflows, SizeKnown, UnitSize, Zeroed;
      if p.unitsInFrameTotal < p.unitsInFrameFec {
        return InvalidData;
      }
      flushed := false;
      unitsSourceExpected := p.unitsInFrameTotal - p.unitsInFrameFec;
      unitsFecExpected := p.unitsInFrameFec;
      if unitsFecExpected < 1 {
        unitsFecExpected := 1;
      }
      var known := MeasureUnit(p);
      if !known {
        return BufTooSmall;
      }
      bufStridePerUnit := Stride(bufSizePerUnit);
      if bufSizePerUnit == 0 {
        return BufTooSmall;
      }
      unitsSourceReceived := 0;
      unitsFecReceived := 0;
      if unitsSourceExpected + unitsFecExpected > UNIT_SLOTS_MAX {
        return InvalidData;
      }
      err := ResetBuffers();
    }

    /** The unit size, which for a source unit of a video frame includes the extension it announces */
    method MeasureUnit(p: Packet) returns (known: bool)
      requires p.unitsInFrameTotal >= p.unitsInFrameFec
      requires unitsSourceExpected == p.unitsInFrameTotal - p.unitsInFrameFec
      modifies this`bufSizePerUnit
      ensures known == SizeKnown(p) && bufSizePerUnit == if known then UnitSize(p) else |p.data|
    {
      bufSizePerUnit := |p.data|;
      if p.isVideo && p.unitIndex < unitsSourceExpected {
        if |p.data| < 2 {
          return false;
        }
        bufSizePerUnit := bufSizePerUnit + Extension(p.data);
      }
      return true;
    }

    /** The second half of alloc_frame: empty slots, and a zeroed buffer that is large enough for them. */
    method ResetBuffers() returns (err: Error)
      requires frameBufSize == 0 || frameBufSize + PADDING_SIZE <= frameBuf.Length
      requires 0 < bufSizePerUnit && bufStridePerUnit == Stride(bufSizePerUnit)
      requires unitsSourceReceived == unitsFecReceived == 0 && 0 < unitsFecExpected && !flushed
      modifies this, frameBuf, unitSlots
      ensures unitsSourceExpected == old(unitsSourceExpected) && unitsFecExpected == old(unitsFecExpected)
      ensures bufSizePerUnit == old(bufSizePerUnit) && bufStridePerUnit == old(bufStridePerUnit) && !flushed
      ensures unitsSourceReceived == unitsFecReceived == 0
      ensures err != Success ==>
        && frameBufSize == old(frameBufSize) && frameBuf == old(frameBuf) && frameBuf[..] == old(frameBuf[..])
        && units == old(units) && unitSlots.Length == unitsSourceExpected + unitsFecExpected
        && forall i | 0 <= i < unitSlots.Length :: unitSlots[i] == 0
      ensures frameBuf == old(frameBuf) || fresh(frameBuf)
      ensures unitSlots == old(unitSlots) || fresh(unitSlots)
      ensures err == if Overflows(unitsSourceExpected + unitsFecExpected, Stride(bufSizePerUnit)) then Overflow
                     else Success
      ensures err == Success ==>
        && Valid() && units == seq(unitsSourceExpected + old(unitsFecExpected), _ => [])
        && frameBufSize + PADDING_SIZE <= frameBuf.Length && bufStridePerUnit == old(bufStridePerUnit)
        && Zeroed(frameBuf[..], |units| * bufStridePerUnit + PADDING_SIZE)
    {
      hide Offset, Filled, Stride, Holds, Overflows, Zeroed;
      assert bufSizePerUnit <= bufStridePerUnit && bufStridePerUnit >= 16;
      var unitSlotsSizeRequired := unitsSourceExpected + unitsFecExpected;
      if unitSlotsSizeRequired != unitSlots.Length {
        unitSlots := new nat[unitSlotsSizeRequired](_ => 0);
      }
      forall i | 0 <= i < unitSlots.Length {
        unitSlots[i] := 0;
      }
      if Overflows(unitSlots.Length, bufStridePerUnit) {
        return Overflow;
      }
      var frameBufSizeRequired := unitSlots.Length * bufStridePerUnit;
      OffsetIs(unitSlots.Length, bufStridePerUnit);
      ProductPositive(unitSlots.Length, bufStridePerUnit);
      ZeroBuffer(frameBufSizeRequired);
      units := seq(unitSlots.Length, _ => []);
      Blank(frameBuf[..], unitSlots[..], bufStridePerUnit, unitsSourceExpected);
      return Success;
    }

    /** A zeroed buffer of at least this size, and its padding */
    method ZeroBuffer(required: nat)
      requires required > 0
      requires frameBufSize == 0 || frameBufSize + PADDING_SIZE <= frameBuf.Length
      modifies this`frameBuf, this`frameBufSize, frameBuf
      ensures frameBuf == old(frameBuf) || fresh(frameBuf)
      ensures required <= frameBufSize && frameBufSize + PADDING_SIZE <= frameBuf.Length
      ensures Zeroed(frameBuf[..], required + PADDING_SIZE)
    {
      if frameBufSize < required {
        frameBuf := new Byte[required + PADDING_SIZE](_ => 0);
        frameBufSize := required;
      }
      forall i | 0 <= i < required + PADDING_SIZE {
        frameBuf[i] := 0;
      }
    }

    /** chiaki_frame_processor_put_unit. An index equal to the number of slots passes the source's own test;
        callers must not use it. */
    method PutUnit(p: Packet) returns (err: Error)
      requires Valid() && p.unitIndex != unitSlots.Length
      modifies this`unitsSourceReceived, this`unitsFecReceived, this`units, frameBuf, unitSlots
      ensures Valid()
      ensures err == if p.unitIndex < |old(units)| && 0 < |p.data| <= bufSizePerUnit && old(units)[p.unitIndex] == []
                     then Success else InvalidData
      ensures units == if err == Success then old(units)[p.unitIndex := p.data] else old(units)
    {
      hide Filled, Offset;
      if p.unitIndex > unitSlots.Length {
        return InvalidData;
      }
      if |p.data| == 0 {
        return InvalidData;
      }
      if |p.data| > bufSizePerUnit {
        return InvalidData;
      }
      assert HoldsAt(frameBuf[..], unitSlots[p.unitIndex], Offset(p.unitIndex, bufStridePerUnit), units[p.unitIndex]);
      if unitSlots[p.unitIndex] > 0 {
        return InvalidData;
      }
      ghost var sizes: seq<nat>, buf: seq<Byte> := unitSlots[..], frameBuf[..];
      FilledUpdate(sizes, p.unitIndex, |p.data|, 0, unitsSourceExpected);
      FilledUpdate(sizes, p.unitIndex, |p.data|, unitsSourceExpected, |sizes|);
      unitSlots[p.unitIndex] := |p.data|;
      assert unitSlots[..] == sizes[p.unitIndex := |p.data|];
      if !flushed {
        OffsetIs(p.unitIndex, bufStridePerUnit);
        FitsAt(buf, sizes, bufStridePerUnit, p.unitIndex);
        Memcpy(frameBuf, p.unitIndex * bufStridePerUnit, p.data);
      }
      PutHolds(buf, frameBuf[..], sizes, bufStridePerUnit, units, p.unitIndex, p.data);
      units := units[p.unitIndex := p.data];
      if p.unitIndex < unitsSourceExpected {
        unitsSourceReceived := unitsSourceReceived + 1;
      } else {
        unitsFecReceived := unitsFecReceived + 1;
      }
      return Success;
    }

    /** chiaki_frame_processor_report_packet_stats: what is pushed as received and lost. */
    method ReportPacketStats() returns (received: nat, lost: nat)
      requires Valid()
      ensures received == Filled(unitSlots[..], 0, unitSlots.Length)
      ensures lost == |Empty(unitSlots[..], unitSlots.Length)|
      ensures received + lost == unitsSourceExpected + unitsFecExpected
    {
      hide Filled, Holds, Empty;
      EmptyIsExact(unitSlots[..], unitSlots.Length);
      FilledSplit(unitSlots[..], 0, unitsSourceExpected, unitSlots.Length);
      received := unitsSourceReceived + unitsFecReceived;
      var expected := unitsSourceExpected + unitsFecExpected;
      lost := expected - received;
    }

    /** The erasure list of chiaki_frame_processor_fec: exactly the empty slots, in ascending order. */
    method Erasures() returns (erasures: array<nat>)
      requires Valid()
      ensures fresh(erasures) && erasures[..] == Empty(unitSlots[..], unitSlots.Length)
    {
      hide Filled, Holds, Empty;
      ghost var sizes := unitSlots[..];
      FilledSplit(sizes, 0, unitsSourceExpected, |sizes|);
      EmptyIsExact(sizes, |sizes|);
      EmptyStep(sizes, 0);
      var erasuresCount := (unitsSourceExpected + unitsFecExpected) - (unitsSourceReceived + unitsFecReceived);
      erasures := new nat[erasuresCount](_ => 0);
      var erasureIndex, i := 0, 0;
      while i < unitsSourceExpected + unitsFecExpected
        invariant 0 <= i <= unitSlots.Length && 0 <= erasureIndex <= erasures.Length
        invariant erasures[..erasureIndex] == Empty(sizes, i)
      {
        EmptyStep(sizes, i);
        if unitSlots[i] == 0 {
          assert erasureIndex < erasuresCount;
          erasures[erasureIndex] := i;
          erasureIndex := erasureIndex + 1;
        }
        i := i + 1;
      }
      assert erasureIndex == erasuresCount;
    }

    /** The loop of chiaki_frame_processor_fec that restores the unit sizes from the decoded units. */
    method RestoreSizes()
      requires unitsSourceExpected <= unitSlots.Length && 2 <= bufStridePerUnit && bufSizePerUnit <= bufStridePerUnit
      requires Fits(frameBuf[..], unitSlots[..], bufStridePerUnit)
      modifies unitSlots
      ensures unitSlots[..]
           == Restored(frameBuf[..], old(unitSlots[..]), bufStridePerUnit, bufSizePerUnit, unitsSourceExpected)
      ensures Fits(frameBuf[..], unitSlots[..], bufStridePerUnit)
    {
      hide Offset, Restored, Fits;
      ghost var buf, sizes := frameBuf[..], unitSlots[..];
      var i := 0;
      NothingRestored(buf, sizes, bufStridePerUnit, bufSizePerUnit);
      while i < unitsSourceExpected
        invariant 0 <= i <= unitsSourceExpected
        invariant unitSlots[..] == Restored(buf, sizes, bufStridePerUnit, bufSizePerUnit, i)
        invariant Fits(buf, unitSlots[..], bufStridePerUnit)
      {
        OffsetIs(i, bufStridePerUnit);
        FitsAt(buf, sizes, bufStridePerUnit, i);
        RestoredNext(buf, sizes, bufStridePerUnit, bufSizePerUnit, i);
        var at := bufStridePerUnit * i;
        var padding := (frameBuf[at] as int) * 0x100 + frameBuf[at + 1];
        if padding < bufSizePerUnit {
          ghost var slots: seq<nat> := unitSlots[..];
          FitsUpdate(buf, slots, bufStridePerUnit, i, bufSizePerUnit - padding);
          unitSlots[i] := bufSizePerUnit - padding;
          assert unitSlots[..] == slots[i := bufSizePerUnit - padding];
        }
        i := i + 1;
      }
    }

    /** The copy loop of flush: the payloads move to the front of the buffer they are in. The write cursor never
        passes the start of a unit that is still to be copied. */
    method Compact() returns (cur: nat)
      requires unitsSourceExpected <= unitSlots.Length && Fits(frameBuf[..], unitSlots[..], bufStridePerUnit)
      modifies frameBuf
      ensures cur <= frameBuf.Length
      ensures frameBuf[..cur] == Output(old(frameBuf[..]), unitSlots[..], bufStridePerUnit, unitsSourceExpected)
    {
      hide Offset, Output, Fits;
      ghost var buf, sizes := frameBuf[..], unitSlots[..];
      cur := 0;
      var i := 0;
      NoOutput(buf, sizes, bufStridePerUnit);
      while i < unitsSourceExpected
        invariant 0 <= i <= unitsSourceExpected
        invariant cur <= Offset(i, bufStridePerUnit) <= frameBuf.Length
        invariant frameBuf[..cur] == Output(buf, sizes, bufStridePerUnit, i)
        invariant frameBuf[Offset(i, bufStridePerUnit)..] == buf[Offset(i, bufStridePerUnit)..]
      {
        OffsetIs(i, bufStridePerUnit);
        FitsAt(buf, sizes, bufStridePerUnit, i);
        OutputStep(buf, sizes, bufStridePerUnit, i);
        ghost var at, next := Offset(i, bufStridePerUnit), Offset(i + 1, bufStridePerUnit);
        if unitSlots[i] >= 2 {
          var partSize := unitSlots[i] - 2;
          MovePart(cur, i * bufStridePerUnit, unitSlots[i], next, buf);
          cur := cur + partSize;
        } else {
          assert frameBuf[next..] == frameBuf[at..][next - at..] == buf[at..][next - at..] == buf[next..];
        }
        i := i + 1;
      }
    }

    /** Moves the payload of the unit at `at` to the write cursor, and leaves everything behind the unit alone. */
    method MovePart(cur: nat, at: nat, size: nat, ghost next: nat, ghost buf: seq<Byte>)
      requires 2 <= size && cur <= at && at + size <= next <= frameBuf.Length == |buf| && frameBuf[at..] == buf[at..]
      modifies frameBuf
      ensures frameBuf[..cur + (size - 2)] == old(frameBuf[..cur]) + buf[at + 2..at + size]
      ensures frameBuf[next..] == buf[next..]
    {
      ghost var before := frameBuf[..];
      Memmove(frameBuf, cur, at + 2, size - 2);
      Compacted(before, frameBuf[..], buf, cur, at, next, size);
    }

    /** chiaki_frame_processor_flush, for the first time on this frame. If source units are missing, FEC decoding gets
        the erasure list, and leaves `decoded` in the buffer. The frame is frameBuf[..frameSize]. */
    method Flush(fecOk: bool, decoded: seq<Byte>) returns (result: FlushResult, frameSize: nat, erasures: seq<nat>)
      requires flushed || Valid()
      requires |decoded| == frameBuf.Length
      modifies this`units, frameBuf, unitSlots
      ensures result == if flushed || unitsSourceExpected == 0 then FlushFailed
                        else if [] !in old(units)[..unitsSourceExpected] then FlushSuccess
                        else if fecOk then FecSuccess else FecFailed
      ensures frameSize <= frameBuf.Length
      ensures result == FlushSuccess ==>
        frameBuf[..frameSize] == Payloads(old(units)[..unitsSourceExpected])
      ensures result in {FecSuccess, FecFailed} ==>
        var slots := old(unitSlots[..]);
        var sizes := if fecOk then Restored(decoded, slots, bufStridePerUnit, bufSizePerUnit, unitsSourceExpected)
                     else slots;
        && erasures == Empty(old(unitSlots[..]), unitSlots.Length)
        && Fits(decoded, sizes, bufStridePerUnit)
        && frameBuf[..frameSize] == Output(decoded, sizes, bufStridePerUnit, unitsSourceExpected)
    {
      hide Offset, Filled, Holds, Output, Restored, Payloads, Empty;
      frameSize, erasures := 0, [];
      if unitsSourceExpected == 0 || flushed {
        return FlushFailed, frameSize, erasures;
      }
      HoldsFits(frameBuf[..], unitSlots[..], bufStridePerUnit, units);
      result := FlushSuccess;
      AllFilled(unitSlots[..], unitsSourceExpected);
      assert [] in units[..unitsSourceExpected] <==> unitsSourceReceived < unitsSourceExpected by {
        MissingUnits(frameBuf[..], unitSlots[..], bufStridePerUnit, units, unitsSourceExpected);
      }
      OutputIsPayloads(frameBuf[..], unitSlots[..], bufStridePerUnit, units, unitsSourceExpected);
      if unitsSourceReceived < unitsSourceExpected {
        var list := Erasures();
        erasures := list[..];
        assert Fits(decoded, unitSlots[..], bufStridePerUnit);
        forall k | 0 <= k < frameBuf.Length {
          frameBuf[k] := decoded[k];
        }
        assert frameBuf[..] == decoded;
        assert unitSlots[..] == old(unitSlots[..]);
        if fecOk {
          RestoreSizes();
          assert unitSlots[..]
              == Restored(decoded, old(unitSlots[..]), bufStridePerUnit, bufSizePerUnit, unitsSourceExpected);
          result := FecSuccess;
        } else {
          result := FecFailed;
          assert Fits(frameBuf[..], unitSlots[..], bufStridePerUnit);
        }
        assert Fits(decoded, unitSlots[..], bufStridePerUnit);
      }
      frameSize := Compact();
    }
  }

  /** The buffer has n bytes at least, and the first n are zero. */
  ghost predicate Zeroed(buf: seq<Byte>, n: nat) {
    n <= |buf| && forall i | 0 <= i < n :: buf[i] == 0
  }

  /** Empty slots hold nothing. */
  lemma Blank(buf: seq<Byte>, sizes: seq<nat>, stride: nat, source: nat)
    requires source <= |sizes| && (forall i | 0 <= i < |sizes| :: sizes[i] == 0) && Offset(|sizes|, stride) <= |buf|
    ensures Filled(sizes, 0, source) == 0 && Filled(sizes, source, |sizes|) == 0
    ensures Holds(buf, sizes, stride, seq(|sizes|, _ => []))
  {
    NothingFilled(sizes, 0, source);
    NothingFilled(sizes, source, |sizes|);
    forall i | 0 <= i < |sizes| ensures HoldsAt(buf, sizes[i], Offset(i, stride), []) {
      FitsAt(buf, sizes, stride, i);
    }
  }

  /** Unit sizes rounded up to 16 */
  function Stride(size: nat): (stride: nat)
    ensures size <= stride && (size > 0 ==> stride >= 16)
  {
    ((size + 0xf) / 0x10) * 0x10
  }

  function AllocError(p: Packet): Error {
    if p.unitsInFrameTotal < p.unitsInFrameFec then InvalidData
    else if !SizeKnown(p) || UnitSize(p) == 0 then BufTooSmall
    else if SlotsRequired(p) > UNIT_SLOTS_MAX then InvalidData
    else if Overflows(SlotsRequired(p), Stride(UnitSize(p))) then Overflow
    else Success
  }

  /** The frame buffer's size does not fit size_t. */
  predicate Overflows(slots: nat, stride: nat)
    requires stride > 0
  {
    slots > SIZE_MAX / stride
  }

  /** Whether the unit size can be told: a source unit of a video frame must hold its size extension. */
  predicate SizeKnown(p: Packet) {
    p.unitsInFrameTotal >= p.unitsInFrameFec
    && (p.isVideo && p.unitIndex < p.unitsInFrameTotal - p.unitsInFrameFec ==> |p.data| >= 2)
  }

  function UnitSize(p: Packet): nat
    requires p.unitsInFrameTotal >= p.unitsInFrameFec
  {
    |p.data| + if p.isVideo && p.unitIndex < p.unitsInFrameTotal - p.unitsInFrameFec && |p.data| >= 2
               then Extension(p.data) else 0
  }

  function SlotsRequired(p: Packet): nat
    requires p.unitsInFrameTotal >= p.unitsInFrameFec
  {
    p.unitsInFrameTotal - p.unitsInFrameFec + if p.unitsInFrameFec < 1 then 1 else p.unitsInFrameFec
  }

  lemma {:induction false} NothingFilled(sizes: seq<nat>, from: nat, until: nat)
    requires until <= |sizes| && forall i | 0 <= i < |sizes| :: sizes[i] == 0
    ensures Filled(sizes, from, until) == 0
    decreases until
  {
    if from < until { NothingFilled(sizes, from, until - 1); }
  }

  lemma NoOutput(buf: seq<Byte>, sizes: seq<nat>, stride: nat)
    requires Fits(buf, sizes, stride)
    ensures Offset(0, stride) == 0 && Output(buf, sizes, stride, 0) == []
  {}

  lemma OutputStep(buf: seq<Byte>, sizes: seq<nat>, stride: nat, i: nat)
    requires Fits(buf, sizes, stride) && i < |sizes|
    ensures Offset(i + 1, stride) == Offset(i, stride) + stride
    ensures Offset(i, stride) + sizes[i] <= |buf| && sizes[i] <= stride
    ensures Output(buf, sizes, stride, i + 1) == Output(buf, sizes, stride, i) + Part(buf, sizes[i], Offset(i, stride))
  {
    FitsAt(buf, sizes, stride, i);
  }

  /** The sizes of the first n slots as the decoded units give them: the unit size less the padding in front. */
  function Restored(buf: seq<Byte>, sizes: seq<nat>, stride: nat, unitSize: nat, n: nat): (r: seq<nat>)
    requires n <= |sizes| && 2 <= stride && Fits(buf, sizes, stride)
    ensures |r| == |sizes|
  {
    if n == 0 then sizes
    else
      FitsAt(buf, sizes, stride, n - 1);
      var at := Offset(n - 1, stride);
      var padding := Extension(buf[at..at + 2]);
      var r := Restored(buf, sizes, stride, unitSize, n - 1);
      if padding >= unitSize then r else r[n - 1 := unitSize - padding]
  }

  lemma NothingRestored(buf: seq<Byte>, sizes: seq<nat>, stride: nat, unitSize: nat)
    requires 2 <= stride && Fits(buf, sizes, stride)
    ensures Restored(buf, sizes, stride, unitSize, 0) == sizes
  {}

  lemma RestoredNext(buf: seq<Byte>, sizes: seq<nat>, stride: nat, unitSize: nat, i: nat)
    requires i < |sizes| && 2 <= stride && Fits(buf, sizes, stride)
    ensures i * stride + 2 <= |buf|
    ensures var r := Restored(buf, sizes, stride, unitSize, i);
      var padding := buf[i * stride] as int * 0x100 + buf[i * stride + 1];
      Restored(buf, sizes, stride, unitSize, i + 1) == if padding >= unitSize then r else r[i := unitSize - padding]
  {
    hide Offset, Fits;
    OffsetIs(i, stride);
    FitsAt(buf, sizes, stride, i);
  }

  lemma FitsUpdate(buf: seq<Byte>, sizes: seq<nat>, stride: nat, i: nat, size: nat)
    requires Fits(buf, sizes, stride) && i < |sizes| && size <= stride
    ensures Fits(buf, sizes[i := size], stride)
  {}

  lemma {:induction false} EmptyGrows(sizes: seq<nat>, i: nat, n: nat)
    requires i <= n <= |sizes|
    ensures |Empty(sizes, i)| <= |Empty(sizes, n)|
    decreases n
  {
    if i < n { EmptyGrows(sizes, i, n - 1); }
  }

  lemma SlotUntouched(was: seq<Byte>, now: seq<Byte>, at: nat, data: seq<Byte>, other: nat, size: nat)
    requires at + |data| <= |was| && now == was[..at] + data + was[at + |data|..]
    requires other + size <= |was| && (other + size <= at || at + |data| <= other)
    ensures now[other..other + size] == was[other..other + size]
  {}

  /** Filling one slot leaves the others alone, since each unit fits its stride. */
  lemma PutHolds(was: seq<Byte>, now: seq<Byte>, sizes: seq<nat>, stride: nat, units: seq<seq<Byte>>, k: nat,
                 data: seq<Byte>)
    requires Holds(was, sizes, stride, units) && k < |units| && |data| <= stride
    requires Offset(k, stride) + |data| <= |was|
    requires now == was[..Offset(k, stride)] + data + was[Offset(k, stride) + |data|..]
    ensures Holds(now, sizes[k := |data|], stride, units[k := data])
  {
    hide Offset;
    var s, u := sizes[k := |data|], units[k := data];
    forall i | 0 <= i < |u| ensures HoldsAt(now, s[i], Offset(i, stride), u[i]) {
      if i != k {
        assert HoldsAt(was, sizes[i], Offset(i, stride), units[i]);
        if i < k { OffsetMonotone(i, k, stride); } else { OffsetMonotone(k, i, stride); }
        FitsAt(was, sizes, stride, i);
        SlotUntouched(was, now, Offset(k, stride), data, Offset(i, stride), sizes[i]);
      }
    }
  }

  lemma HoldsFits(buf: seq<Byte>, sizes: seq<nat>, stride: nat, units: seq<seq<Byte>>)
    requires Holds(buf, sizes, stride, units)
    ensures Fits(buf, sizes, stride) && |units| == |sizes|
  {}

  lemma {:induction false} AllFilled(sizes: seq<nat>, n: nat)
    requires n <= |sizes|
    ensures Filled(sizes, 0, n) == n <==> forall i | 0 <= i < n :: sizes[i] > 0
  {
    if n > 0 { AllFilled(sizes, n - 1); }
  }

  lemma MissingUnits(buf: seq<Byte>, sizes: seq<nat>, stride: nat, units: seq<seq<Byte>>, n: nat)
    requires Holds(buf, sizes, stride, units) && n <= |units|
    ensures [] in units[..n] <==> exists i | 0 <= i < n :: sizes[i] == 0
  {
    assert forall i | 0 <= i < n :: HoldsAt(buf, sizes[i], Offset(i, stride), units[i]) && units[..n][i] == units[i];
  }

  /** Without loss the frame is the payloads of the received units. */
  lemma {:induction false} OutputIsPayloads(buf: seq<Byte>, sizes: seq<nat>, stride: nat, units: seq<seq<Byte>>, n: nat)
    requires Holds(buf, sizes, stride, units) && n <= |units|
    ensures Output(buf, sizes, stride, n) == Payloads(units[..n])
  {
    hide Offset;
    if n > 0 {
      OutputIsPayloads(buf, sizes, stride, units, n - 1);
      FitsAt(buf, sizes, stride, n - 1);
      assert HoldsAt(buf, sizes[n - 1], Offset(n - 1, stride), units[n - 1]);
      assert units[..n][..n - 1] == units[..n - 1];
    }
  }
}
