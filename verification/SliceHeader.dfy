/** lib/src/bitstream.c for H.265: parsing a slice segment header (section 7.3.6.1 and 7.3.7 of ITU-T H.265)
    and rewriting its reference frame. The specification works on positions in the plain bit list. */
module SliceHeader {
  import opened Octets
  import opened Powers
  import opened Bits
  import opened BitReader
  import opened BitPatch
  import opened NalReader

  const NO_REFERENCE := 0xff
  const NEGATIVE_PICS_MAX := 16

  datatype SliceType = Unknown | I | P

  datatype Slice = Slice(sliceType: SliceType, referenceFrame: nat)

  datatype Parsed = Rejected | Accepted(slice: Slice)

  predicate StartCodeAt(bits: seq<bool>, pos: nat) {
    pos + 32 <= |bits| && Val(bits[pos..pos + 32]) == 1
  }

  datatype Found = Found(next: nat) | NotFound

  /** The position behind the first start code among the byte positions j..64. */
  function FindStart(bits: seq<bool>, j: nat): Found
    decreases 64 - j
  {
    if StartCodeAt(bits, 8 * j) then Found(8 * j + 32)
    else if j < 64 then FindStart(bits, j + 1)
    else NotFound
  }

  /** The NAL unit header behind a start code, 16 bits. */
  function NalUnitType(bits: seq<bool>, pos: nat): (r: Read<nat>)
    ensures r.Read? ==> pos < r.next <= |bits|
  {
    if pos + 16 <= |bits| then Read(Val(bits[pos + 1..pos + 7]), pos + 16) else NoValue
  }

  /** From the NAL payload up to slice_type. */
  function SliceTypeCode(bits: seq<bool>, pos: nat, nalUnitType: nat): (r: Read<nat>)
    ensures r.Read? ==> pos < r.next <= |bits|
  {
    var (first, p) :- ReadU(bits, pos, 1);
    var (_, p) :- ReadU(bits, p, if nalUnitType == 20 then 1 else 0);
    var (_, p) :- ReadUE(bits, p);
    var (_, p) :- if first == 0 then ReadUE(bits, p) else Read(0, p);
    ReadUE(bits, p)
  }

  /** slice_pic_order_cnt_lsb and short_term_ref_pic_set_sps_flag, and if the reference picture set is spelled
      out, num_negative_pics and num_positive_pics. The value is the number of negative pictures that follow;
      a set taken from the SPS has none to look at. */
  function NegativePics(bits: seq<bool>, pos: nat, pocBits: nat): (r: Read<nat>)
    ensures r.Read? ==> pos < r.next <= |bits|
  {
    var (_, p) :- ReadU(bits, pos, pocBits);
    var (fromSps, p) :- ReadU(bits, p, 1);
    if fromSps != 0 then Read(0, p)
    else
      var (n, p) :- ReadUE(bits, p);
      if n > NEGATIVE_PICS_MAX then Read(n, p)
      else
        var (_, p) :- ReadUE(bits, p);
        Read(n, p)
  }

  /** The index of the first used_by_curr_pic_s0_flag set among those of the pictures i..n. */
  function FirstUsed(bits: seq<bool>, pos: nat, i: nat, n: nat): (r: Read<nat>)
    ensures r.Read? ==> pos <= r.next
    decreases n - i
  {
    if i >= n then Read(NO_REFERENCE, pos)
    else
      var (_, p) :- ReadUE(bits, pos);
      var (used, p) :- ReadU(bits, p, 1);
      if used != 0 then Read(i, p) else FirstUsed(bits, p, i + 1, n)
  }

  function SliceTypeOf(code: nat): SliceType {
    if code == 1 then P else if code == 2 then I else Unknown
  }

  /** slice_h265, with the slice as the caller left it; NoValue where the code would run off the data. */
  function Parse(bits: seq<bool>, pocBits: nat, slice: Slice): Read<Parsed> {
    var start := FindStart(bits, 0);
    if start.NotFound? then Read(Rejected, 0)
    else
      var (nalUnitType, p) :- NalUnitType(bits, start.next);
      if nalUnitType != 1 && nalUnitType != 20 then Read(Rejected, p)
      else
        var (code, p) :- SliceTypeCode(bits, p, nalUnitType);
        if nalUnitType != 1 then Read(Accepted(slice.(sliceType := SliceTypeOf(code))), p)
        else
          var (n, p) :- NegativePics(bits, p, pocBits);
          if n > NEGATIVE_PICS_MAX then Read(Rejected, p)
          else
            var (k, p) :- FirstUsed(bits, p, 0, n);
            Read(Accepted(Slice(SliceTypeOf(code), k)), p)
  }

  /** A window that runs out of data before its 32 bits does not read as a start code. */
  lemma ShortWindow(bits: seq<bool>)
    requires |bits| < 32
    ensures Shr(Packed(bits), 32) % TWO32 != 1
  {
    hide Val, Pow2, Shr;
    ValBound(bits);
    Pow2Split(32, |bits|);
    var v, k := Val(bits), 31 - |bits|;
    Pow2Values();
    Pow2Add(1, k);
    Pow2Add(32 - |bits|, 32);
    assert v * Pow2(32 - |bits|) * Pow2(32) == v * (Pow2(32 - |bits|) * Pow2(32));
    var even := v * Pow2(k);
    assert v * Pow2(32 - |bits|) == 2 * even;
    DivideBack(2 * even, TWO32);
    MulLess(v, Pow2(|bits|), Pow2(32 - |bits|));
    assert Shr(Packed(bits), 32) == 2 * even by { ShrIs(Packed(bits), 32); }
  }

  lemma DivideBack(a: nat, m: nat)
    requires m > 0
    ensures (a * m) / m == a
  {
    DivSum(a, m, 0);
  }

  lemma ShrIs(v: nat, n: nat)
    ensures Shr(v, n) == v / Pow2(n)
  {}

  /** The start code test on the buffer, which is full or holds all that is left. */
  lemma StartCodeTest(vlc: Vlc)
    requires vlc.Valid() && (vlc.ValidBits() >= 32 || vlc.data == vlc.end)
    ensures vlc.PeekBits(32) == 1 <==> StartCodeAt(DataBits(vlc.stream), vlc.Pos())
  {
    hide Val, Packed, Shr, DataBits;
    WindowSize(vlc.stream, vlc.Pos(), vlc.data);
    if vlc.ValidBits() >= 32 {
      vlc.Peeks(32);
    } else {
      ShortWindow(Window(vlc.stream, vlc.Pos(), vlc.data));
    }
  }

  /** skip_startcode. The reader asserts that it never runs dry, so shorter inputs must hold a start code. */
  method SkipStartCode(vlc: Vlc) returns (ok: bool)
    requires vlc.Valid() && vlc.Pos() == 0
    requires |vlc.stream| >= 64 || FindStart(DataBits(vlc.stream), 0).Found?
    modifies vlc
    ensures vlc.Valid()
    ensures ok == FindStart(DataBits(vlc.stream), 0).Found?
    ensures ok ==>
      vlc.Pos() == FindStart(DataBits(vlc.stream), 0).next && (vlc.ValidBits() >= 32 || vlc.data == vlc.end)
  {
    hide Val, StartCodeAt, DataBits, FindStart, Vlc.Valid;
    vlc.FillBits();
    var i := 0;
    while i < 64 && vlc.BitsLeft() >= 32
      invariant vlc.Valid() && 0 <= i <= 64 && vlc.Pos() == 8 * i
      invariant vlc.ValidBits() >= 32 || vlc.data == vlc.end
      invariant FindStart(DataBits(vlc.stream), 0) == FindStart(DataBits(vlc.stream), i)
    {
      StartCodeTest(vlc);
      if vlc.PeekBits(32) == 1 {
        break;
      }
      FindNext(DataBits(vlc.stream), i);
      vlc.EatBits(8);
      vlc.FillBits();
      i := i + 1;
    }
    StartCodeTest(vlc);
    FindNext(DataBits(vlc.stream), i);
    if vlc.PeekBits(32) != 1 {
      return false;
    }
    vlc.EatBits(32);
    vlc.FillBits();
    return true;
  }

  lemma FindNext(bits: seq<bool>, j: nat)
    requires j <= 64
    ensures !StartCodeAt(bits, 8 * j) ==> FindStart(bits, j) == if j < 64 then FindStart(bits, j + 1) else NotFound
    ensures StartCodeAt(bits, 8 * j) ==> FindStart(bits, j) == Found(8 * j + 32)
    ensures FindStart(bits, j).Found? ==> 8 * j + 32 <= FindStart(bits, j).next <= |bits|
    ensures FindStart(bits, j + 1).Found? ==> 8 * j + 40 <= FindStart(bits, j + 1).next <= |bits|
  {
    hide StartCodeAt, FindStart;
    FoundLater(bits, j);
    FoundLater(bits, j + 1);
    NotHere(bits, j);
  }

  lemma NotHere(bits: seq<bool>, j: nat)
    requires j <= 64
    ensures !StartCodeAt(bits, 8 * j) ==> FindStart(bits, j) == if j < 64 then FindStart(bits, j + 1) else NotFound
  {
    hide StartCodeAt;
  }

  lemma {:induction false} FoundLater(bits: seq<bool>, j: nat)
    ensures FindStart(bits, j).Found? ==> 8 * j + 32 <= FindStart(bits, j).next <= |bits|
    ensures StartCodeAt(bits, 8 * j) ==> FindStart(bits, j) == Found(8 * j + 32)
    decreases 64 - j
  {
    hide Val;
    if j < 64 { FoundLater(bits, j + 1); }
  }

  /** The NAL unit header: one bit, the type, and nine more bits. */
  method ReadNalUnitHeader(vlc: Vlc) returns (nalUnitType: nat)
    requires vlc.Valid() && (vlc.ValidBits() >= 32 || vlc.data == vlc.end)
    requires NalUnitType(DataBits(vlc.stream), vlc.Pos()).Read?
    modifies vlc
    ensures vlc.Valid()
    ensures Read(nalUnitType, vlc.Pos()) == NalUnitType(DataBits(vlc.stream), old(vlc.Pos()))
  {
    hide Val, DataBits;
    vlc.EatBits(1);
    nalUnitType := vlc.GetUimsbf(6);
    vlc.EatBits(6);
    vlc.EatBits(3);
  }

  /** The part of a header that tells the slice type. */
  method ReadSliceTypeCode(rbsp: Rbsp, nalUnitType: nat) returns (code: nat)
    requires rbsp.Valid() && SliceTypeCode(rbsp.Stream(), rbsp.nal.Pos(), nalUnitType).Read?
    requires rbsp.Covered(SliceTypeCode(rbsp.Stream(), rbsp.nal.Pos(), nalUnitType).next)
    modifies rbsp, rbsp.nal
    ensures rbsp.Valid()
    ensures Read(code, rbsp.nal.Pos()) == SliceTypeCode(rbsp.Stream(), old(rbsp.nal.Pos()), nalUnitType)
  {
    hide ReadU, ReadUE, DataBits;
    var firstSliceSegmentInPicFlag := rbsp.U(1);
    if nalUnitType == 20 {
      var _ := rbsp.U(1);
    } else {
      ReadNothing(rbsp.Stream(), rbsp.nal.Pos());
    }
    var _ := rbsp.UE();
    if firstSliceSegmentInPicFlag == 0 {
      var _ := rbsp.UE();
    }
    code := rbsp.UE();
  }

  /** The part up to the negative pictures; both callers give up on more than NEGATIVE_PICS_MAX of them. */
  method ReadNegativePics(rbsp: Rbsp, pocBits: nat) returns (n: nat)
    requires pocBits <= 16
    requires rbsp.Valid() && NegativePics(rbsp.Stream(), rbsp.nal.Pos(), pocBits).Read?
    requires rbsp.Covered(NegativePics(rbsp.Stream(), rbsp.nal.Pos(), pocBits).next)
    modifies rbsp, rbsp.nal
    ensures rbsp.Valid()
    ensures Read(n, rbsp.nal.Pos()) == NegativePics(rbsp.Stream(), old(rbsp.nal.Pos()), pocBits)
  {
    hide ReadU, ReadUE, DataBits;
    var _ := rbsp.U(pocBits);
    var fromSps := rbsp.U(1);
    if fromSps != 0 {
      return 0;
    }
    n := rbsp.UE();
    if n > NEGATIVE_PICS_MAX {
      return n;
    }
    var _ := rbsp.UE();
  }

  /** What both functions begin with: a reader behind the NAL unit header. */
  method OpenNal(data: array<Byte>, align: nat) returns (ok: bool, vlc: Vlc, nalUnitType: nat)
    requires data.Length >= 64 || FindStart(DataBits(data[..]), 0).Found?
    requires var start := FindStart(DataBits(data[..]), 0);
      start.Found? ==> NalUnitType(DataBits(data[..]), start.next).Read?
    ensures fresh(vlc) && vlc.Valid() && vlc.input == data && vlc.stream == data[..]
    ensures var start := FindStart(DataBits(data[..]), 0);
      && ok == start.Found?
      && (ok ==> vlc.ValidBits() % 8 == 0
                 && Read(nalUnitType, vlc.Pos()) == NalUnitType(DataBits(data[..]), start.next))
  {
    hide Val, DataBits, FindStart, Vlc.Valid;
    vlc := new Vlc(data, align);
    nalUnitType := 0;
    ok := SkipStartCode(vlc);
    if ok {
      FoundAligned(DataBits(vlc.stream), 0);
      nalUnitType := ReadNalUnitHeader(vlc);
    }
  }

  /** The loop that looks for the first picture used for reference. */
  method ReadFirstUsed(rbsp: Rbsp, n: nat) returns (referenceFrame: nat)
    requires rbsp.Valid() && FirstUsed(rbsp.Stream(), rbsp.nal.Pos(), 0, n).Read?
    requires rbsp.Covered(FirstUsed(rbsp.Stream(), rbsp.nal.Pos(), 0, n).next)
    modifies rbsp, rbsp.nal
    ensures rbsp.Valid()
    ensures Read(referenceFrame, rbsp.nal.Pos()) == FirstUsed(rbsp.Stream(), old(rbsp.nal.Pos()), 0, n)
  {
    hide ReadU, ReadUE, DataBits;
    referenceFrame := NO_REFERENCE;
    var i := 0;
    while i < n
      invariant 0 <= i <= n && rbsp.Valid() && referenceFrame == NO_REFERENCE
      invariant FirstUsed(rbsp.Stream(), rbsp.nal.Pos(), i, n) == FirstUsed(rbsp.Stream(), old(rbsp.nal.Pos()), 0, n)
    {
      var _ := rbsp.UE();
      var used := rbsp.U(1);
      if used != 0 {
        referenceFrame := i;
        break;
      }
      i := i + 1;
    }
  }

  /** slice_h265 on `data`, whose address is `align` modulo 4. No byte of the header, and of the eight bytes the
      reader may buffer beyond it, is an emulation prevention byte. */
  method SliceH265(data: array<Byte>, align: nat, pocBits: nat, given: Slice, ghost limit: nat)
    returns (ok: bool, slice: Slice)
    requires 4 <= pocBits <= 16
    requires data.Length >= 64 || FindStart(DataBits(data[..]), 0).Found?
    requires var r := Parse(DataBits(data[..]), pocBits, given);
      r.Read? && Quiet(data[..], limit) && (r.next + 63 <= 8 * limit || limit >= data.Length)
    ensures Parse(DataBits(data[..]), pocBits, given).value == if ok then Accepted(slice) else Rejected
  {
    hide ReadU, ReadUE, DataBits, Quiet, FindStart, SliceTypeCode, NegativePics, FirstUsed, NalUnitType;
    slice := given;
    var vlc, nalUnitType;
    ok, vlc, nalUnitType := OpenNal(data, align);
    if !ok {
      return;
    }
    if nalUnitType != 1 && nalUnitType != 20 {
      ok := false;
      return;
    }
    var rbsp := new Rbsp(vlc, limit);
    var code := ReadSliceTypeCode(rbsp, nalUnitType);
    slice := slice.(sliceType := match code case 1 => P case 2 => I case _ => Unknown);
    if nalUnitType == 1 {
      var numNegativePics := ReadNegativePics(rbsp, pocBits);
      if numNegativePics > NEGATIVE_PICS_MAX {
        ok := false;
        return;
      }
      var referenceFrame := ReadFirstUsed(rbsp, numNegativePics);
      slice := slice.(referenceFrame := referenceFrame);
    }
  }

  lemma {:induction false} FoundAligned(bits: seq<bool>, j: nat)
    ensures FindStart(bits, j).Found? ==> FindStart(bits, j).next % 8 == 0
    decreases 64 - j
  {
    hide StartCodeAt;
    if j < 64 { FoundAligned(bits, j + 1); }
  }

  /** What a rewrite does: whether it succeeded, and the positions of the flags it wrote, of which it sets the
      k-th and clears the others. */
  datatype Patch = Patch(done: bool, flags: seq<nat>)

  function FlagsTo(bits: seq<bool>, pos: nat, i: nat, n: nat, k: nat): (r: Read<Patch>)
    ensures r.Read? ==> pos <= r.next
    decreases n - i
  {
    if i >= n then Read(Patch(false, []), pos)
    else
      var (_, p) :- ReadUE(bits, pos);
      if i == k then (if p < |bits| then Read(Patch(true, [p]), p) else NoValue)
      else
        var (_, q) :- ReadU(bits, p, 1);
        var (r, q) :- FlagsTo(bits, q, i + 1, n, k);
        Read(Patch(r.done, [p] + r.flags), q)
  }

  /** slice_set_reference_frame_h265 */
  function Rewrite(bits: seq<bool>, pocBits: nat, k: nat): Read<Patch> {
    var start := FindStart(bits, 0);
    if start.NotFound? then Read(Patch(false, []), 0)
    else
      var (nalUnitType, p) :- NalUnitType(bits, start.next);
      if nalUnitType != 1 then Read(Patch(false, []), p)
      else
        var (code, p) :- SliceTypeCode(bits, p, nalUnitType);
        if code != 1 then Read(Patch(false, []), p)
        else
          var (n, p) :- NegativePics(bits, p, pocBits);
          if n > NEGATIVE_PICS_MAX then Read(Patch(false, []), p)
          else FlagsTo(bits, p, 0, n, k)
  }

  /** The flags written, the first of them being number i. */
  function WithFlags(bits: seq<bool>, flags: seq<nat>, i: nat, k: nat): (r: seq<bool>)
    ensures |r| == |bits|
    decreases |flags|
  {
    if flags == [] then bits
    else WithFlags(if flags[0] < |bits| then bits[flags[0] := i == k] else bits, flags[1..], i + 1, k)
  }

  lemma {:induction false} WithFlagsSnoc(bits: seq<bool>, flags: seq<nat>, p: nat, i: nat, k: nat)
    requires p < |bits|
    ensures WithFlags(bits, flags + [p], i, k) == WithFlags(bits, flags, i, k)[p := i + |flags| == k]
    decreases |flags|
  {
    if flags == [] {
      assert [p][1..] == [];
    } else {
      assert (flags + [p])[1..] == flags[1..] + [p];
      WithFlagsSnoc(if flags[0] < |bits| then bits[flags[0] := i == k] else bits, flags[1..], p, i + 1, k);
    }
  }

  lemma LongerCode(bits: seq<bool>, pos: nat)
    requires ReadUE(bits, pos).Read?
    ensures ReadUE(bits, pos).value > 0 ==> ReadUE(bits, pos).next >= pos + 3
  {
    if Zeros(bits, pos) == 0 {
      assert bits[pos + 1..pos + 1] == [];
    }
  }

  /** The first flag is far enough into the data for the eight bytes before the reader's pointer to exist. */
  lemma FlagIsDeep(bits: seq<bool>, pos: nat, pocBits: nat)
    requires pos >= 48 && pocBits >= 4
    ensures var code := SliceTypeCode(bits, pos, 1);
      code.Read? && code.value == 1 ==>
        var n := NegativePics(bits, code.next, pocBits);
        n.Read? && 0 < n.value <= NEGATIVE_PICS_MAX ==> n.next >= 62
  {
    hide ReadUE;
    var code := SliceTypeCode(bits, pos, 1);
    if code.NoValue? || code.value != 1 { return; }
    var n := NegativePics(bits, code.next, pocBits);
    if n.NoValue? || n.value == 0 || n.value > NEGATIVE_PICS_MAX { return; }
    var (first, p) := (ReadU(bits, pos, 1).value, ReadU(bits, ReadU(bits, pos, 1).next, 0).next);
    var q := ReadUE(bits, p).next;
    var r := if first == 0 then ReadUE(bits, q).next else q;
    LongerCode(bits, r);
    var s := ReadU(bits, ReadU(bits, SliceTypeCode(bits, pos, 1).next, pocBits).next, 1).next;
    LongerCode(bits, s);
    assert NegativePics(bits, SliceTypeCode(bits, pos, 1).next, pocBits).next > ReadUE(bits, s).next;
  }

  /** One turn of the loop that collects the flags */
  lemma FlagsNext(bits: seq<bool>, pos: nat, i: nat, n: nat, k: nat)
    requires i < n && FlagsTo(bits, pos, i, n, k).Read?
    ensures ReadUE(bits, pos).Read? && ReadUE(bits, pos).next < |bits|
    ensures var r, p := FlagsTo(bits, pos, i, n, k), ReadUE(bits, pos).next;
      if i == k then r == Read(Patch(true, [p]), p)
      else var rest := FlagsTo(bits, p + 1, i + 1, n, k);
        rest.Read? && r == Read(Patch(rest.value.done, [p] + rest.value.flags), rest.next) && p + 1 <= rest.next
  {
    hide ReadUE;
    OneBitAt(bits, ReadUE(bits, pos).next);
  }

  /** Rewriting the bit that comes next: the reader has it in its buffer already, and stays as it is. */
  method PatchFlag(rbsp: Rbsp, data: array<Byte>, on: bool)
    requires rbsp.Valid() && rbsp.nal.input == data
    requires rbsp.nal.Pos() >= 62 && 0 < rbsp.nal.ValidBits() <= 64
    modifies data
    ensures rbsp.Valid() && DataBits(data[..]) == old(DataBits(data[..]))[rbsp.nal.Pos() := on]
  {
    hide DataBits;
    PatchBit(data, rbsp.nal.data, rbsp.nal.ValidBits(), on);
  }

  /** The loop that rewrites the flags; the reader keeps reading what it has buffered or not yet reached. */
  method RewriteFlags(rbsp: Rbsp, data: array<Byte>, n: nat, referenceFrame: nat) returns (done: bool)
    requires rbsp.Valid() && rbsp.nal.input == data && data[..] == rbsp.nal.stream
    requires n > 0 ==> rbsp.nal.Pos() >= 62
    requires FlagsTo(rbsp.Stream(), rbsp.nal.Pos(), 0, n, referenceFrame).Read?
    requires rbsp.Covered(FlagsTo(rbsp.Stream(), rbsp.nal.Pos(), 0, n, referenceFrame).next)
    modifies rbsp, rbsp.nal, data
    ensures var r := FlagsTo(rbsp.Stream(), old(rbsp.nal.Pos()), 0, n, referenceFrame).value;
      done == r.done && DataBits(data[..]) == WithFlags(rbsp.Stream(), r.flags, 0, referenceFrame)
  {
    hide ReadU, ReadUE, DataBits, WithFlags, FlagsTo;
    NoMoreFlags(rbsp.Stream(), n, referenceFrame);
    ghost var bits, k := rbsp.Stream(), referenceFrame;
    ghost var goal := FlagsTo(bits, rbsp.nal.Pos(), 0, n, k);
    ghost var flags: seq<nat> := [];
    NoFlags(bits, k);
    assert [] + goal.value.flags == goal.value.flags;
    var i := 0;
    while i < n
      invariant 0 <= i <= n && rbsp.Valid() && |flags| == i && |data[..]| == |rbsp.nal.stream|
      invariant n > 0 ==> rbsp.nal.Pos() >= 62
      invariant DataBits(data[..]) == WithFlags(bits, flags, 0, k)
      invariant var r := FlagsTo(bits, rbsp.nal.Pos(), i, n, k);
        r.Read? && goal == Read(Patch(r.value.done, flags + r.value.flags), r.next)
    {
      FlagsNext(bits, rbsp.nal.Pos(), i, n, k);
      ghost var before := flags;
      var _ := rbsp.UE();
      WithFlagsSnoc(bits, flags, rbsp.nal.Pos(), 0, k);
      PatchFlag(rbsp, data, i == referenceFrame);
      flags := flags + [rbsp.nal.Pos()];
      OneBitAt(bits, rbsp.nal.Pos());
      assert i != k ==> forall tail: seq<nat> :: before + ([rbsp.nal.Pos()] + tail) == flags + tail;
      if i == referenceFrame {
        assert flags + [] == flags;
        return true;
      }
      var _ := rbsp.U(1);
      i := i + 1;
    }
    assert flags + [] == flags;
    return false;
  }

  lemma NoMoreFlags(bits: seq<bool>, n: nat, k: nat)
    ensures forall pos: nat :: FlagsTo(bits, pos, n, n, k) == Read(Patch(false, []), pos)
  {}

  lemma NoFlags(bits: seq<bool>, k: nat)
    ensures WithFlags(bits, [], 0, k) == bits
  {}

  /** slice_set_reference_frame_h265 on `data`, whose address is `align` modulo 4. */
  method SetReferenceFrameH265(data: array<Byte>, align: nat, pocBits: nat, referenceFrame: nat, ghost limit: nat)
    returns (done: bool)
    requires 4 <= pocBits <= 16
    requires data.Length >= 64 || FindStart(DataBits(data[..]), 0).Found?
    requires var r := Rewrite(DataBits(data[..]), pocBits, referenceFrame);
      r.Read? && Quiet(data[..], limit) && (r.next + 63 <= 8 * limit || limit >= data.Length)
    modifies data
    ensures var bits := old(DataBits(data[..])); var r := Rewrite(bits, pocBits, referenceFrame).value;
      done == r.done && DataBits(data[..]) == WithFlags(bits, r.flags, 0, referenceFrame)
  {
    hide ReadU, ReadUE, DataBits, Quiet, FindStart, SliceTypeCode, NegativePics, FlagsTo, NalUnitType, WithFlags;
    ghost var bits := DataBits(data[..]);
    NoFlags(bits, referenceFrame);
    var ok, vlc, nalUnitType := OpenNal(data, align);
    if !ok || nalUnitType != 1 {
      return false;
    }
    FoundDeep(bits);
    var rbsp := new Rbsp(vlc, limit);
    var code := ReadSliceTypeCode(rbsp, nalUnitType);
    if code != 1 {
      return false;
    }
    var numNegativePics := ReadNegativePics(rbsp, pocBits);
    if numNegativePics > NEGATIVE_PICS_MAX {
      return false;
    }
    if numNegativePics > 0 {
      FlagIsDeep(bits, NalUnitType(bits, FindStart(bits, 0).next).next, pocBits);
    }
    done := RewriteFlags(rbsp, data, numNegativePics, referenceFrame);
  }

  lemma FoundDeep(bits: seq<bool>)
    requires FindStart(bits, 0).Found? && NalUnitType(bits, FindStart(bits, 0).next).Read?
    ensures NalUnitType(bits, FindStart(bits, 0).next).next >= 48
  {
    FoundLater(bits, 0);
  }

  ghost predicate Agree(a: seq<bool>, b: seq<bool>, from: nat, until: nat) {
    |a| == |b| && forall i | from <= i < until && i < |a| :: a[i] == b[i]
  }

  /** Reads depend only on the bits they consume. */
  lemma ReadUAgrees(a: seq<bool>, b: seq<bool>, pos: nat, n: nat)
    requires ReadU(a, pos, n).Read? && Agree(a, b, pos, pos + n)
    ensures ReadU(b, pos, n) == ReadU(a, pos, n)
  {
    assert a[pos..pos + n] == b[pos..pos + n];
  }

  lemma ReadUEAgrees(a: seq<bool>, b: seq<bool>, pos: nat)
    requires ReadUE(a, pos).Read? && Agree(a, b, pos, ReadUE(a, pos).next)
    ensures ReadUE(b, pos) == ReadUE(a, pos)
  {
    hide Val, Pow2;
    var z := Zeros(a, pos);
    ZerosAre(a, pos);
    ZerosRun(b, pos, z);
    assert a[pos + z + 1..pos + 2 * z + 1] == b[pos + z + 1..pos + 2 * z + 1];
  }

  lemma {:induction false} FindStartAgrees(a: seq<bool>, b: seq<bool>, j: nat)
    requires FindStart(a, j).Found? && Agree(a, b, 0, FindStart(a, j).next)
    ensures FindStart(b, j) == FindStart(a, j)
    decreases 64 - j
  {
    FoundLater(a, j);
    assert 8 * j + 32 <= |a| ==> a[8 * j..8 * j + 32] == b[8 * j..8 * j + 32];
    if !StartCodeAt(a, 8 * j) { FindStartAgrees(a, b, j + 1); }
  }

  lemma SliceTypeAgrees(a: seq<bool>, b: seq<bool>, pos: nat, nalUnitType: nat)
    requires SliceTypeCode(a, pos, nalUnitType).Read? && Agree(a, b, 0, SliceTypeCode(a, pos, nalUnitType).next)
    ensures SliceTypeCode(b, pos, nalUnitType) == SliceTypeCode(a, pos, nalUnitType)
  {
    hide ReadU, ReadUE;
    var first := ReadU(a, pos, 1);
    var second := ReadU(a, first.next, if nalUnitType == 20 then 1 else 0);
    ReadUAgrees(a, b, pos, 1);
    ReadUAgrees(a, b, first.next, if nalUnitType == 20 then 1 else 0);
    ReadUEAgrees(a, b, second.next);
    if first.value == 0 { ReadUEAgrees(a, b, ReadUE(a, second.next).next); }
    var p := ReadUE(a, second.next).next;
    ReadUEAgrees(a, b, if first.value == 0 then ReadUE(a, p).next else p);
  }

  lemma NegativePicsAgrees(a: seq<bool>, b: seq<bool>, pos: nat, pocBits: nat)
    requires NegativePics(a, pos, pocBits).Read? && Agree(a, b, 0, NegativePics(a, pos, pocBits).next)
    ensures NegativePics(b, pos, pocBits) == NegativePics(a, pos, pocBits)
  {
    hide ReadU, ReadUE;
    var fromSps := ReadU(a, pos + pocBits, 1);
    ReadUAgrees(a, b, pos, pocBits);
    ReadUAgrees(a, b, pos + pocBits, 1);
    if fromSps.value == 0 {
      ReadUEAgrees(a, b, fromSps.next);
      var n := ReadUE(a, fromSps.next);
      if n.value <= NEGATIVE_PICS_MAX { ReadUEAgrees(a, b, n.next); }
    }
  }

  /** The flags written are ascending positions from `pos` on, the last of them the end of the rewrite. */
  lemma {:induction false} FlagsAscend(bits: seq<bool>, pos: nat, i: nat, n: nat, k: nat)
    requires FlagsTo(bits, pos, i, n, k).Read?
    ensures var f := FlagsTo(bits, pos, i, n, k).value.flags;
      && (forall m | 0 <= m < |f| :: pos < f[m] < |bits|)
      && (forall m, m' | 0 <= m < m' < |f| :: f[m] < f[m'])
    ensures var r := FlagsTo(bits, pos, i, n, k);
      r.value.done ==> i <= k < n && |r.value.flags| == k - i + 1 && r.value.flags[k - i] == r.next
    decreases n - i
  {
    hide ReadU, ReadUE;
    if i < n && i != k {
      FlagsAscend(bits, ReadUE(bits, pos).next + 1, i + 1, n, k);
    }
  }

  /** Bit by bit, what writing the flags does. */
  lemma {:induction false} WithFlagsAt(bits: seq<bool>, flags: seq<nat>, i: nat, k: nat)
    requires forall m | 0 <= m < |flags| :: flags[m] < |bits|
    requires forall m, m' | 0 <= m < m' < |flags| :: flags[m] < flags[m']
    ensures var r := WithFlags(bits, flags, i, k);
      && (forall j | 0 <= j < |bits| && j !in flags :: r[j] == bits[j])
      && (forall m | 0 <= m < |flags| :: r[flags[m]] == (i + m == k))
    decreases |flags|
  {
    if flags != [] {
      var next := bits[flags[0] := i == k];
      WithFlagsAt(next, flags[1..], i + 1, k);
      forall m | 0 <= m < |flags| ensures WithFlags(bits, flags, i, k)[flags[m]] == (i + m == k) {
        if m == 0 {
          assert flags[0] !in flags[1..];
        } else {
          assert flags[m] == flags[1..][m - 1];
        }
      }
    }
  }

  /** After the rewrite the first flag set is the k-th. */
  lemma {:induction false} FirstUsedAfter(a: seq<bool>, b: seq<bool>, pos: nat, i: nat, n: nat, k: nat)
    requires FlagsTo(a, pos, i, n, k).Read? && FlagsTo(a, pos, i, n, k).value.done && |a| == |b|
    requires var f := FlagsTo(a, pos, i, n, k).value.flags;
      && (forall j | pos <= j < |a| && j !in f :: b[j] == a[j])
      && (forall m | 0 <= m < |f| && f[m] < |b| :: b[f[m]] == (i + m == k))
    ensures FirstUsed(b, pos, i, n) == Read(k, FlagsTo(a, pos, i, n, k).next + 1)
    decreases n - i
  {
    hide ReadUE, FlagsTo, FirstUsed;
    FlagsAscend(a, pos, i, n, k);
    FlagsNext(a, pos, i, n, k);
    var f := FlagsTo(a, pos, i, n, k).value.flags;
    var p := ReadUE(a, pos).next;
    assert b[f[0]] == (i + 0 == k);
    ReadUEAgrees(a, b, pos);
    FirstUsedStep(b, pos, i, n);
    if i != k {
      var rest := FlagsTo(a, p + 1, i + 1, n, k);
      forall j | p + 1 <= j < |a| && j !in rest.value.flags ensures b[j] == a[j] {
        assert f == [p] + rest.value.flags;
      }
      forall m | 0 <= m < |rest.value.flags| && rest.value.flags[m] < |b|
        ensures b[rest.value.flags[m]] == (i + 1 + m == k)
      {
        assert rest.value.flags[m] == f[m + 1];
      }
      FirstUsedAfter(a, b, p + 1, i + 1, n, k);
    }
  }

  lemma FirstUsedStep(bits: seq<bool>, pos: nat, i: nat, n: nat)
    requires i < n && ReadUE(bits, pos).Read? && ReadUE(bits, pos).next < |bits|
    ensures var p := ReadUE(bits, pos).next;
      FirstUsed(bits, pos, i, n) == if bits[p] then Read(i, p + 1) else FirstUsed(bits, p + 1, i + 1, n)
  {
    hide ReadUE;
    OneBitAt(bits, ReadUE(bits, pos).next);
  }

  /** Main result: when rewriting the reference frame to k succeeds, it has changed only the flags of pictures 0..k,
      and parsing the new bits reports a P slice that refers to frame k. */
  lemma PatchThenParse(bits: seq<bool>, pocBits: nat, k: nat, given: Slice)
    ensures var r := Rewrite(bits, pocBits, k);
      r.Read? && r.value.done ==>
        var after := WithFlags(bits, r.value.flags, 0, k);
        && |r.value.flags| == k + 1 <= NEGATIVE_PICS_MAX
        && (forall j | 0 <= j < |bits| && j !in r.value.flags :: after[j] == bits[j])
        && Parse(after, pocBits, given) == Read(Accepted(Slice(P, k)), r.next + 1)
  {
    hide ReadU, ReadUE, SliceTypeCode, NegativePics, FindStart, FlagsTo, WithFlags, FirstUsed;
    var r := Rewrite(bits, pocBits, k);
    if r.NoValue? || !r.value.done { return; }
    var flags := r.value.flags;
    var after := WithFlags(bits, flags, 0, k);
    var q := NalUnitType(bits, FindStart(bits, 0).next).next;
    var p := SliceTypeCode(bits, q, 1).next;
    var n := NegativePics(bits, p, pocBits);
    FlagsAscend(bits, n.next, 0, n.value, k);
    WithFlagsAt(bits, flags, 0, k);
    FoundLater(bits, 0);
    assert Agree(bits, after, 0, n.next);
    FindStartAgrees(bits, after, 0);
    NalUnitTypeAgrees(bits, after, FindStart(bits, 0).next);
    SliceTypeAgrees(bits, after, q, 1);
    NegativePicsAgrees(bits, after, p, pocBits);
    FirstUsedAfter(bits, after, n.next, 0, n.value, k);
  }

  lemma NalUnitTypeAgrees(a: seq<bool>, b: seq<bool>, pos: nat)
    requires NalUnitType(a, pos).Read? && Agree(a, b, 0, pos + 16)
    ensures NalUnitType(b, pos) == NalUnitType(a, pos)
  {
    assert a[pos + 1..pos + 7] == b[pos + 1..pos + 7];
  }
}
