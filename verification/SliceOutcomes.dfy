/** What lib/src/bitstream.c makes of any other H.265 NAL unit and slice header: which start code it finds,
    instantaneous refreshes (NAL unit type 20), reference picture sets of the SPS or with too many pictures, and what
    it refuses to rewrite. */
module SliceOutcomes {
  import opened Powers
  import opened Bits
  import opened BitReader
  import opened SliceHeader
  import opened SliceSyntax

  // ---------------------------------------------------------------- the start code

  /** A start code: 31 zeros and a one */
  predicate StartsAt(bits: seq<bool>, pos: nat) {
    pos + 32 <= |bits| && bits[pos + 31] && forall i | pos <= i < pos + 31 :: !bits[i]
  }

  lemma StartCodeIs(bits: seq<bool>, pos: nat)
    ensures StartCodeAt(bits, pos) <==> StartsAt(bits, pos)
  {
    hide Val;
    if pos + 32 <= |bits| {
      var w := bits[pos..pos + 32];
      assert forall i | 0 <= i < 32 :: w[i] == bits[pos + i];
      OneIn32(w);
    }
  }

  lemma OneIn32(w: seq<bool>)
    requires |w| == 32
    ensures Val(w) == 1 <==> w[31] && forall i | 0 <= i < 31 :: !w[i]
  {
    hide Val, Pow2;
    var one := BitsOf(0, 31) + [true];
    assert BitsOf(1, 32) == one;
    hide BitsOf;
    ZeroBits(31);
    BitsOfVal(w);
    assert Pow2(32) > 1 by { Pow2Values(); }
    ValBitsOf(1, 32);
    if w[31] && forall i | 0 <= i < 31 :: !w[i] { assert w == one; }
  }

  /** The code goes on behind the first start code at one of the byte positions 0 to 64, and finds none exactly if there
      is none. */
  lemma {:induction false} FirstStart(bits: seq<bool>, from: nat)
    requires from <= 64
    ensures var f := FindStart(bits, from);
      if f.Found? then
        exists j: nat :: from <= j <= 64 && f.next == 8 * j + 32 && StartsAt(bits, 8 * j)
                         && forall i: nat | from <= i < j :: !StartsAt(bits, 8 * i)
      else forall j: nat | from <= j <= 64 :: !StartsAt(bits, 8 * j)
    decreases 64 - from
  {
    hide StartCodeAt, StartsAt;
    StartCodeIs(bits, 8 * from);
    if !StartCodeAt(bits, 8 * from) && from < 64 { FirstStart(bits, from + 1); }
  }

  // ---------------------------------------------------------------- other NAL units

  /** Any other type of unit is neither parsed nor rewritten; the types 1 and 20 are parsed, and only type 1
      rewritten. */
  lemma OtherUnit(nalUnitType: nat, layer: seq<bool>, rest: seq<bool>, pocBits: nat, given: Slice, k: nat)
    requires nalUnitType < 64 && |layer| == 9 && nalUnitType != 1
    ensures var bits := UnitBits(nalUnitType, layer, rest);
      && Rewrite(bits, pocBits, k) == Read(Patch(false, []), 48)
      && (nalUnitType != 20 ==> Parse(bits, pocBits, given) == Read(Rejected, 48))
  {
    hide UnitBits, FindStart, NalUnitType, SliceTypeCode;
    TakeUnit(nalUnitType, layer, rest);
  }

  /** The header of a slice segment of an instantaneous refresh, with no_output_of_prior_pics_flag */
  function RefreshBits(h: Header, noOutput: bool, rest: seq<bool>): seq<bool> {
    var last := Golomb(h.sliceType) + rest;
    var more := if h.firstSegment then last else h.address + last;
    UnitBits(20, h.layer, [h.firstSegment] + ([noOutput] + (Golomb(h.pps) + more)))
  }

  /** Parsing it gives the slice type, and leaves the reference frame as it was. */
  lemma ParseRefresh(h: Header, noOutput: bool, rest: seq<bool>, pocBits: nat, given: Slice)
    requires Writable(h) && AddressReads(h)
    ensures var r := Parse(RefreshBits(h, noOutput, rest), pocBits, given);
      r.Read? && r.value == Accepted(Slice(TypeOf(h), given.referenceFrame))
  {
    hide UnitBits, FindStart, NalUnitType, Golomb, ReadUE, ReadU;
    var last := Golomb(h.sliceType) + rest;
    var more := if h.firstSegment then last else h.address + last;
    var bits := RefreshBits(h, noOutput, rest);
    TakeUnit(20, h.layer, [h.firstSegment] + ([noOutput] + (Golomb(h.pps) + more)));
    TakeFlag(bits, 48, h.firstSegment, [noOutput] + (Golomb(h.pps) + more));
    TakeFlag(bits, 49, noOutput, Golomb(h.pps) + more);
    TakeUE(bits, 50, h.pps, more);
    var p := ReadUE(bits, 50).next;
    if !h.firstSegment {
      var k :| Codable(k) && h.address == Golomb(k);
      TakeUE(bits, p, k, last);
    }
    var q := if h.firstSegment then p else ReadUE(bits, p).next;
    TakeUE(bits, q, h.sliceType, rest);
  }

  // ---------------------------------------------------------------- other headers

  /** A header that takes its reference picture set from the SPS */
  function SpsSetBits(h: Header, data: seq<bool>): seq<bool> {
    NalBits(h, TypeBits(h, h.poc + ([true] + data)))
  }

  /** It tells of no reference frame, and cannot be rewritten. */
  lemma ParseSpsSet(h: Header, data: seq<bool>, given: Slice, k: nat)
    requires Writable(h) && AddressReads(h)
    ensures var bits := SpsSetBits(h, data);
      var r, w := Parse(bits, |h.poc|, given), Rewrite(bits, |h.poc|, k);
      && r.Read? && r.value == Accepted(Slice(TypeOf(h), 0xff))
      && w.Read? && w.value == Patch(false, [])
  {
    hide NalBits, TypeBits, FindStart, NalUnitType, SliceTypeCode, NegativePics;
    var bits, rest := SpsSetBits(h, data), h.poc + ([true] + data);
    TakeNal(h, TypeBits(h, rest));
    TakeType(bits, 48, h, rest);
    TakeSpsSet(bits, SliceTypeCode(bits, 48, 1).next, h.poc, data);
  }

  lemma TakeSpsSet(bits: seq<bool>, pos: nat, poc: seq<bool>, rest: seq<bool>)
    requires pos <= |bits| && bits[pos..] == poc + ([true] + rest)
    ensures NegativePics(bits, pos, |poc|) == Read(0, pos + |poc| + 1)
  {
    hide ReadU, ReadUE;
    TakeU(bits, pos, poc, [true] + rest);
    TakeFlag(bits, pos + |poc|, true, rest);
  }

  /** A header with more than 16 negative pictures is rejected, and not rewritten. */
  lemma TooManyPics(h: Header, count: nat, data: seq<bool>, given: Slice, k: nat)
    requires Writable(h) && AddressReads(h) && count > 16 && Codable(count)
    ensures var bits := NalBits(h, TypeBits(h, h.poc + ([false] + (Golomb(count) + data))));
      var r, w := Parse(bits, |h.poc|, given), Rewrite(bits, |h.poc|, k);
      && r.Read? && r.value == Rejected
      && w.Read? && w.value == Patch(false, [])
  {
    hide NalBits, TypeBits, FindStart, NalUnitType, SliceTypeCode, ReadU, ReadUE, Golomb, FirstUsed, FlagsTo;
    var rest := h.poc + ([false] + (Golomb(count) + data));
    var bits := NalBits(h, TypeBits(h, rest));
    TakeNal(h, TypeBits(h, rest));
    TakeType(bits, 48, h, rest);
    var p := SliceTypeCode(bits, 48, 1).next;
    TakeU(bits, p, h.poc, [false] + (Golomb(count) + data));
    TakeFlag(bits, p + |h.poc|, false, Golomb(count) + data);
    TakeUE(bits, p + |h.poc| + 1, count, data);
  }

  /** Only P slices are rewritten. */
  lemma OnlyPRewritten(h: Header, data: seq<bool>, k: nat)
    requires Writable(h) && AddressReads(h) && h.sliceType != 1
    ensures var w := Rewrite(Written(h, data), |h.poc|, k);
      w.Read? && w.value == Patch(false, [])
  {
    hide NalBits, TypeBits, SetBits, PicBits, FindStart, NalUnitType, SliceTypeCode, NegativePics, FlagsTo;
    var bits := Written(h, data);
    TakeNal(h, TypeBits(h, SetBits(h, PicBits(h.pics, data))));
    TakeType(bits, 48, h, SetBits(h, PicBits(h.pics, data)));
  }
}
