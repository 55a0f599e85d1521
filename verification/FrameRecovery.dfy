/** What the frame processor of lib/src/frameprocessor.c makes of the units of a frame: every source unit announces its
    padding in its first two bytes, so that any of them tells the unit size, and that error correction that gives back
    the padded units gives back the frame. */
module FrameRecovery {
  import opened Octets
  import opened Sequences
  import opened Powers
  import opened FrameProcessor

  /** A source unit of a video frame whose units are padded to `unitSize` bytes: the padding, and the payload */
  function UnitOf(unitSize: nat, payload: seq<Byte>): (unit: seq<Byte>)
    requires |payload| + 2 <= unitSize <= 0xffff
    ensures |unit| == |payload| + 2
  {
    var padding := unitSize - |payload| - 2;
    [padding / 0x100, padding % 0x100] + payload
  }

  predicate AllFit(unitSize: nat, payloads: seq<seq<Byte>>) {
    unitSize <= 0xffff && forall i | 0 <= i < |payloads| :: |payloads[i]| + 2 <= unitSize
  }

  function UnitsOf(unitSize: nat, payloads: seq<seq<Byte>>): (units: seq<seq<Byte>>)
    requires AllFit(unitSize, payloads)
    ensures |units| == |payloads|
    ensures forall i | 0 <= i < |units| :: units[i] == UnitOf(unitSize, payloads[i])
  {
    seq(|payloads|, i requires 0 <= i < |payloads| => UnitOf(unitSize, payloads[i]))
  }

  /** Whichever source unit of a frame comes first, the unit size is that of the frame; a packet of any other kind
      has its own size for it. */
  lemma UnitSizeIsFrames(p: Packet, unitSize: nat, payload: seq<Byte>)
    requires p.unitsInFrameTotal >= p.unitsInFrameFec
    ensures p.isVideo && p.unitIndex < p.unitsInFrameTotal - p.unitsInFrameFec
            && |payload| + 2 <= unitSize <= 0xffff && p.data == UnitOf(unitSize, payload) ==>
      SizeKnown(p) && UnitSize(p) == unitSize
    ensures !(p.isVideo && p.unitIndex < p.unitsInFrameTotal - p.unitsInFrameFec) ==>
      SizeKnown(p) && UnitSize(p) == |p.data|
  {
    if |payload| + 2 <= unitSize <= 0xffff && p.data == UnitOf(unitSize, payload) {
      assert p.data[0] == (unitSize - |payload| - 2) / 0x100 && p.data[1] == (unitSize - |payload| - 2) % 0x100;
    }
  }

  /** When allocation fails, and how. */
  lemma AllocErrorIs(p: Packet)
    ensures var source := p.unitsInFrameTotal - p.unitsInFrameFec;
      var slots := source + if p.unitsInFrameFec == 0 then 1 else p.unitsInFrameFec;
      var isSource := p.isVideo && p.unitIndex < source;
      var size := if isSource && |p.data| >= 2 then |p.data| + 0x100 * (p.data[0] as int) + p.data[1] else |p.data|;
      AllocError(p) ==
        if source < 0 then InvalidData
        else if |p.data| == 0 || (isSource && |p.data| == 1) then BufTooSmall
        else if slots > 256 then InvalidData
        else if slots * Stride(size) >= TWO64 then Overflow
        else Success
  {
    if p.unitsInFrameTotal >= p.unitsInFrameFec && SizeKnown(p) && UnitSize(p) > 0 {
      OverflowIs(SlotsRequired(p), Stride(UnitSize(p)));
    }
  }

  lemma OverflowIs(slots: nat, stride: nat)
    requires stride > 0
    ensures Overflows(slots, stride) <==> slots * stride >= TWO64
  {
    var q, r := SIZE_MAX / stride, SIZE_MAX % stride;
    assert SIZE_MAX == stride * q + r;
    MulMinus(stride, slots, q);
    MulBounds(stride, slots - q);
  }

  /** The stride is the least multiple of 16 with room for a unit. */
  lemma StrideIs(size: nat)
    ensures Stride(size) % 16 == 0 && size <= Stride(size) < size + 16
  {}

  lemma {:induction false} PayloadsAre(unitSize: nat, payloads: seq<seq<Byte>>)
    requires AllFit(unitSize, payloads)
    ensures Payloads(UnitsOf(unitSize, payloads)) == Flat(payloads)
  {
    var units := UnitsOf(unitSize, payloads);
    if payloads != [] {
      var n := |payloads| - 1;
      PayloadsAre(unitSize, payloads[..n]);
      assert units[..n] == UnitsOf(unitSize, payloads[..n]);
      assert units[n][2..] == payloads[n];
      FlatAppend(payloads[..n], payloads[n]);
      assert payloads[..n] + [payloads[n]] == payloads;
    }
  }

  /** The slots' areas begin with these units. */
  ghost predicate Decoded(buf: seq<Byte>, stride: nat, units: seq<seq<Byte>>) {
    forall i | 0 <= i < |units| ::
      i * stride + |units[i]| <= |buf| && buf[i * stride..i * stride + |units[i]|] == units[i]
  }

  /** Restoring sets the size of each of the first n slots whose padding is less than the unit size, and no other. */
  lemma {:induction false} RestoredAt(buf: seq<Byte>, sizes: seq<nat>, stride: nat, unitSize: nat, n: nat, i: nat)
    requires i < |sizes| && n <= |sizes| && 2 <= stride && Fits(buf, sizes, stride)
    ensures i * stride + 2 <= |buf|
    ensures var padding := 0x100 * (buf[i * stride] as int) + buf[i * stride + 1];
      Restored(buf, sizes, stride, unitSize, n)[i]
      == if i < n && padding < unitSize then unitSize - padding else sizes[i]
    decreases n
  {
    hide Fits, Offset;
    OffsetIs(i, stride);
    FitsAt(buf, sizes, stride, i);
    if n > 0 {
      RestoredAt(buf, sizes, stride, unitSize, n - 1, i);
      RestoredNext(buf, sizes, stride, unitSize, n - 1);
    } else {
      NothingRestored(buf, sizes, stride, unitSize);
    }
  }

  /** Main result: if error correction leaves the padded units that were sent at their places, the frame is exactly
      their payloads one after the other, whatever was received of them. */
  lemma RecoveredFrame(buf: seq<Byte>, slots: seq<nat>, stride: nat, unitSize: nat, payloads: seq<seq<Byte>>)
    requires AllFit(unitSize, payloads) && Decoded(buf, stride, UnitsOf(unitSize, payloads))
    requires |payloads| <= |slots| && 2 <= stride && unitSize <= stride && Fits(buf, slots, stride)
    ensures var sizes := Restored(buf, slots, stride, unitSize, |payloads|);
      Fits(buf, sizes, stride) && Output(buf, sizes, stride, |payloads|) == Flat(payloads)
  {
    hide Output, Payloads, Restored;
    var n, units := |payloads|, UnitsOf(unitSize, payloads);
    var sizes := Restored(buf, slots, stride, unitSize, n);
    forall i | 0 <= i < |slots| ensures sizes[i] == if i < n then |units[i]| else slots[i] {
      RestoredAt(buf, slots, stride, unitSize, n, i);
      if i < n { PaddingOf(buf, stride, unitSize, payloads, i); }
    }
    assert Fits(buf, sizes, stride);
    hide Fits;
    OutputOf(buf, sizes, stride, units, n);
    assert units[..n] == units;
    PayloadsAre(unitSize, payloads);
  }

  lemma PaddingOf(buf: seq<Byte>, stride: nat, unitSize: nat, payloads: seq<seq<Byte>>, i: nat)
    requires AllFit(unitSize, payloads) && Decoded(buf, stride, UnitsOf(unitSize, payloads)) && i < |payloads|
    ensures i * stride + 2 <= |buf|
    ensures 0x100 * (buf[i * stride] as int) + buf[i * stride + 1] == unitSize - |payloads[i]| - 2
  {
    var unit := UnitsOf(unitSize, payloads)[i];
    assert buf[i * stride..i * stride + |unit|] == unit;
    assert buf[i * stride] == unit[0] && buf[i * stride + 1] == unit[1];
  }

  /** What the slots contribute, unit by unit */
  lemma {:induction false} OutputOf(buf: seq<Byte>, sizes: seq<nat>, stride: nat, units: seq<seq<Byte>>, n: nat)
    requires Fits(buf, sizes, stride) && n <= |units| && n <= |sizes| && Decoded(buf, stride, units)
    requires forall i | 0 <= i < n :: sizes[i] == |units[i]|
    ensures Output(buf, sizes, stride, n) == Payloads(units[..n])
  {
    hide Offset, Fits, Output, Payloads, Part, Decoded;
    if n > 0 {
      OutputOf(buf, sizes, stride, units, n - 1);
      FitsAt(buf, sizes, stride, n - 1);
      OutputStep(buf, sizes, stride, n - 1);
      PartOf(buf, stride, units, n - 1);
      PayloadsStep(units, n - 1);
    } else {
      NoOutput(buf, sizes, stride);
      NoPayloads(units);
    }
  }

  lemma PartOf(buf: seq<Byte>, stride: nat, units: seq<seq<Byte>>, i: nat)
    requires i < |units| && Decoded(buf, stride, units)
    ensures Offset(i, stride) + |units[i]| <= |buf|
    ensures Part(buf, |units[i]|, Offset(i, stride)) == if |units[i]| < 2 then [] else units[i][2..]
  {
    hide Offset;
    OffsetIs(i, stride);
    var at, unit := i * stride, units[i];
    assert buf[at..at + |unit|] == unit;
    assert |unit| >= 2 ==> buf[at + 2..at + |unit|] == buf[at..at + |unit|][2..];
  }

  lemma PayloadsStep(units: seq<seq<Byte>>, n: nat)
    requires n < |units|
    ensures Payloads(units[..n + 1]) == Payloads(units[..n]) + if |units[n]| < 2 then [] else units[n][2..]
  {
    assert units[..n + 1][..n] == units[..n];
  }

  lemma NoPayloads(units: seq<seq<Byte>>)
    ensures Payloads(units[..0]) == []
  {}
}
