/** The slice segment header of section 7.3.6.1 of ITU-T H.265 with the reference picture set of section 7.3.7, written
    out as far as lib/src/bitstream.c reads it: parsing gives back what was written, and rewriting the reference frame
    gives what would be written for the changed flags. The code knows nothing of the parameter sets but the width of the
    picture order count. So the streams are those without dependent slice segments, extra slice header bits,
    pic_output_flag, separate colour planes, and without short-term sets in the SPS, which leaves out
    inter_ref_pic_set_prediction_flag. The address of a segment that is not the first is u(v) in the standard; the code
    reads ue(v), which is right exactly for the addresses of AddressReads. */
module SliceSyntax {
  import opened Powers
  import opened Bits
  import opened BitReader
  import opened NalReader
  import opened SliceHeader

  /** A picture that the slice may refer to: delta_poc_s0_minus1 and used_by_curr_pic_s0_flag */
  datatype Pic = Pic(delta: nat, used: bool)

  /** The header of a slice segment in a NAL unit of type 1 that spells out its reference picture set; `address` is
      slice_segment_address as u(v) */
  datatype Header = Header(layer: seq<bool>, firstSegment: bool, pps: nat, address: seq<bool>, sliceType: nat,
                           poc: seq<bool>, positivePics: nat, pics: seq<Pic>)

  /** What fits a codeword of no more than 30 leading zeros */
  predicate Codable(k: nat) {
    k + 1 < 0x8000_0000
  }

  predicate Writable(h: Header) {
    && |h.layer| == 9 && Codable(h.pps) && Codable(h.sliceType) && Codable(h.positivePics)
    && |h.pics| <= 16
    && forall i | 0 <= i < |h.pics| :: Codable(h.pics[i].delta)
  }

  function PicBits(pics: seq<Pic>, rest: seq<bool>): seq<bool> {
    if pics == [] then rest else Golomb(pics[0].delta) + ([pics[0].used] + PicBits(pics[1..], rest))
  }

  /** The fields up to the slice type, in front of some more bits */
  function TypeBits(h: Header, rest: seq<bool>): seq<bool> {
    var last := Golomb(h.sliceType) + rest;
    [h.firstSegment] + (Golomb(h.pps) + if h.firstSegment then last else h.address + last)
  }

  /** The fields from there up to the pictures */
  function SetBits(h: Header, rest: seq<bool>): seq<bool> {
    h.poc + ([false] + (Golomb(|h.pics|) + (Golomb(h.positivePics) + rest)))
  }

  /** A start code and the header of a NAL unit, in front of its payload */
  function UnitBits(nalUnitType: nat, layer: seq<bool>, rest: seq<bool>): seq<bool> {
    BitsOf(1, 32) + (([false] + BitsOf(nalUnitType, 6) + layer) + rest)
  }

  function NalBits(h: Header, rest: seq<bool>): seq<bool> {
    UnitBits(1, h.layer, rest)
  }

  /** The whole header, in front of the slice data */
  function Written(h: Header, data: seq<bool>): seq<bool> {
    NalBits(h, TypeBits(h, SetBits(h, PicBits(h.pics, data))))
  }

  // ---------------------------------------------------------------- reading what was written

  lemma TakeUE(bits: seq<bool>, pos: nat, k: nat, rest: seq<bool>)
    requires pos <= |bits| && bits[pos..] == Golomb(k) + rest && Codable(k)
    ensures var r := ReadUE(bits, pos);
      r.Read? && r.value == k && r.next == pos + |Golomb(k)| && bits[r.next..] == rest
  {
    hide Golomb, ReadUE;
    assert bits == bits[..pos] + Golomb(k) + rest;
    GolombRoundTrip(bits[..pos], k, rest);
  }

  lemma TakeU(bits: seq<bool>, pos: nat, field: seq<bool>, rest: seq<bool>)
    requires pos <= |bits| && bits[pos..] == field + rest
    ensures ReadU(bits, pos, |field|) == Read(Val(field), pos + |field|) && bits[pos + |field|..] == rest
  {
    hide Val;
    assert bits[pos..pos + |field|] == bits[pos..][..|field|] == field;
    assert bits[pos + |field|..] == bits[pos..][|field|..];
  }

  lemma TakeFlag(bits: seq<bool>, pos: nat, flag: bool, rest: seq<bool>)
    requires pos <= |bits| && bits[pos..] == [flag] + rest
    ensures ReadU(bits, pos, 1) == Read(if flag then 1 else 0, pos + 1) && bits[pos + 1..] == rest
  {
    TakeU(bits, pos, [flag], rest);
    OneBit(flag);
  }

  lemma TakeNothing(bits: seq<bool>, pos: nat)
    requires pos <= |bits|
    ensures ReadU(bits, pos, 0) == Read(0, pos)
  {
    ReadNothing(bits, pos);
  }

  lemma TakeUnit(nalUnitType: nat, layer: seq<bool>, rest: seq<bool>)
    requires nalUnitType < 64 && |layer| == 9
    ensures var bits := UnitBits(nalUnitType, layer, rest);
      FindStart(bits, 0) == Found(32) && NalUnitType(bits, 32) == Read(nalUnitType, 48) && bits[48..] == rest
  {
    hide Val, BitsOf, FindStart;
    var bits := UnitBits(nalUnitType, layer, rest);
    Pow2Values();
    assert bits[0..32] == BitsOf(1, 32);
    ValBitsOf(1, 32);
    FoundAtOnce(bits);
    assert bits[33..39] == BitsOf(nalUnitType, 6) by {
      assert bits[32..] == ([false] + BitsOf(nalUnitType, 6) + layer) + rest;
      assert bits[33..39] == bits[32..][1..7];
    }
    assert Pow2(6) == 64 by { Pow2Add(2, 4); }
    ValBitsOf(nalUnitType, 6);
  }

  lemma TakeNal(h: Header, rest: seq<bool>)
    requires |h.layer| == 9
    ensures var bits := NalBits(h, rest);
      FindStart(bits, 0) == Found(32) && NalUnitType(bits, 32) == Read(1, 48) && bits[48..] == rest
  {
    TakeUnit(1, h.layer, rest);
  }

  lemma FoundAtOnce(bits: seq<bool>)
    ensures StartCodeAt(bits, 0) ==> FindStart(bits, 0) == Found(32)
  {}

  /** The address is a codeword of ue(v). */
  ghost predicate IsCodeword(field: seq<bool>) {
    exists k :: Codable(k) && field == Golomb(k)
  }

  /** A number whose codeword these bits are: z zeros, a one, and z more bits. */
  lemma CodewordIsGolomb(field: seq<bool>, z: nat)
    requires |field| == 2 * z + 1 && z <= 30 && field[z] && forall i | 0 <= i < z :: !field[i]
    ensures IsCodeword(field)
  {
    hide BitsOf, Val, Pow2;
    var tail := field[z..];
    var v := Val(tail);
    assert tail == [true] + tail[1..];
    ValConcat([true], tail[1..]);
    OneBit(true);
    ValBound(tail[1..]);
    assert Pow2(z) <= v < Pow2(z + 1) by { DoublePow2(z); }
    assert v >= 1;
    Log2Is(v, z);
    BitsOfVal(tail);
    ZeroBits(z);
    assert field == BitsOf(0, z) + tail;
    SmallCodeword(v, z);
    assert field == Golomb(v - 1);
  }

  lemma DoublePow2(z: nat)
    ensures Pow2(z + 1) == 2 * Pow2(z)
  {}

  lemma Log2Is(v: nat, z: nat)
    requires v >= 1 && Pow2(z) <= v < Pow2(z + 1)
    ensures Log2(v) == z
  {
    hide Pow2;
    if Log2(v) < z { Pow2Monotone(Log2(v) + 1, z); }
    if Log2(v) > z { Pow2Monotone(z + 1, Log2(v)); }
  }

  lemma SmallCodeword(v: nat, z: nat)
    requires 1 <= v < Pow2(z + 1) && z <= 30
    ensures Codable(v - 1)
  {
    Pow2Monotone(z + 1, 31);
    Pow2Add(16, 15);
    Pow2Add(8, 7);
    Pow2Add(4, 3);
    Pow2Values();
  }

  /** Reading ue(v) at a field consumes exactly the field if and only if it is a codeword, whatever follows. */
  lemma ReadsExactly(bits: seq<bool>, pos: nat, field: seq<bool>, rest: seq<bool>)
    requires pos <= |bits| && bits[pos..] == field + rest
    ensures ReadUE(bits, pos).Read? && ReadUE(bits, pos).next == pos + |field| <==> IsCodeword(field)
  {
    hide Golomb, Val, Pow2;
    if IsCodeword(field) {
      var k :| Codable(k) && field == Golomb(k);
      TakeUE(bits, pos, k, rest);
    }
    if ReadUE(bits, pos).Read? && ReadUE(bits, pos).next == pos + |field| {
      var z := Zeros(bits, pos);
      ZerosAre(bits, pos);
      assert forall i | 0 <= i < |field| :: field[i] == bits[pos..][i] == bits[pos + i];
      CodewordIsGolomb(field, z);
    }
  }

  /** Whether the code finds the slice type where it is: in a first segment, or behind an address that happens to be a
      codeword */
  ghost predicate AddressReads(h: Header) {
    h.firstSegment || IsCodeword(h.address)
  }

  /** In any other segment the code does not stand at the slice type after what it takes for the address. */
  lemma AddressMisread(h: Header, rest: seq<bool>)
    requires Writable(h) && !h.firstSegment
    ensures var bits := NalBits(h, TypeBits(h, rest));
      var address := 49 + |Golomb(h.pps)|;
      && bits[address..] == h.address + (Golomb(h.sliceType) + rest)
      && (ReadUE(bits, address).Read? && ReadUE(bits, address).next == address + |h.address| <==> AddressReads(h))
  {
    hide Golomb, NalBits, ReadUE;
    var bits, last := NalBits(h, TypeBits(h, rest)), Golomb(h.sliceType) + rest;
    TakeNal(h, TypeBits(h, rest));
    TakeFlag(bits, 48, false, Golomb(h.pps) + (h.address + last));
    TakeUE(bits, 49, h.pps, h.address + last);
    ReadsExactly(bits, 49 + |Golomb(h.pps)|, h.address, last);
  }

  /** An instance: the second segment of a P slice whose two-bit address is 2 reads as a slice of type 3 or 4, and
      cannot be rewritten. */
  lemma SecondSegmentMisread(h: Header, data: seq<bool>, k: nat)
    requires Writable(h) && !h.firstSegment && h.address == [true, false] && h.sliceType == 1 && |h.poc| > 0
    ensures var bits := Written(h, data);
      && SliceTypeCode(bits, 48, 1).Read? && SliceTypeCode(bits, 48, 1).value in {3, 4}
      && Rewrite(bits, |h.poc|, k).Read? && !Rewrite(bits, |h.poc|, k).value.done
  {
    hide NalBits, SetBits, PicBits, FindStart, NalUnitType, NegativePics, FlagsTo, Val, Pow2;
    hide Golomb, ReadUE, ReadU;
    var bits, more := Written(h, data), SetBits(h, PicBits(h.pics, data));
    var last := Golomb(1) + more;
    TakeNal(h, TypeBits(h, more));
    TakeFlag(bits, 48, false, Golomb(h.pps) + (h.address + last));
    TakeNothing(bits, 49);
    TakeUE(bits, 49, h.pps, h.address + last);
    var p := ReadUE(bits, 49).next;
    assert h.address + last == Golomb(0) + ([false] + last) by { GolombZero(); }
    TakeUE(bits, p, 0, [false] + last);
    var q := ReadUE(bits, p).next;
    GolombOne();
    assert more[0] == h.poc[0] by { FirstOfSet(h, PicBits(h.pics, data)); }
    ReadThreeOrFour(bits, q, more);
  }

  lemma GolombZero()
    ensures Golomb(0) == [true]
  {
    assert BitsOf(1, 1) == [true];
  }

  lemma GolombOne()
    ensures Golomb(1) == [false, true, false]
  {
    assert BitsOf(2, 2) == [true, false] && BitsOf(0, 1) == [false];
  }

  lemma FirstOfSet(h: Header, rest: seq<bool>)
    requires |h.poc| > 0
    ensures SetBits(h, rest) != [] && SetBits(h, rest)[0] == h.poc[0]
  {
    hide Golomb;
  }

  lemma ReadThreeOrFour(bits: seq<bool>, pos: nat, rest: seq<bool>)
    requires pos <= |bits| && rest != [] && bits[pos..] == [false] + ([false, true, false] + rest)
    ensures ReadUE(bits, pos).Read? && ReadUE(bits, pos).value in {3, 4}
  {
    hide Val, Pow2;
    assert forall i | 0 <= i < 5 :: bits[pos + i] == bits[pos..][i];
    ZerosRun(bits, pos, 2);
    var two := bits[pos + 3..pos + 5];
    assert two == [false] + [rest[0]];
    ValConcat([false], [rest[0]]);
    OneBit(false);
    OneBit(rest[0]);
    Pow2Values();
  }

  lemma TakeType(bits: seq<bool>, pos: nat, h: Header, rest: seq<bool>)
    requires Writable(h) && AddressReads(h) && pos <= |bits| && bits[pos..] == TypeBits(h, rest)
    ensures var r := SliceTypeCode(bits, pos, 1); r.Read? && r.value == h.sliceType && bits[r.next..] == rest
  {
    hide Golomb, ReadUE, ReadU;
    var last := Golomb(h.sliceType) + rest;
    var more := if h.firstSegment then last else h.address + last;
    TakeFlag(bits, pos, h.firstSegment, Golomb(h.pps) + more);
    TakeNothing(bits, pos + 1);
    TakeUE(bits, pos + 1, h.pps, more);
    var p := ReadUE(bits, pos + 1).next;
    if !h.firstSegment {
      var k :| Codable(k) && h.address == Golomb(k);
      TakeUE(bits, p, k, last);
    }
    var q := if h.firstSegment then p else ReadUE(bits, p).next;
    TakeUE(bits, q, h.sliceType, rest);
  }

  lemma TakeSet(bits: seq<bool>, pos: nat, h: Header, rest: seq<bool>)
    requires Writable(h) && pos <= |bits| && bits[pos..] == SetBits(h, rest)
    ensures var r := NegativePics(bits, pos, |h.poc|); r.Read? && r.value == |h.pics| && bits[r.next..] == rest
  {
    hide Golomb, ReadUE, ReadU;
    var last := Golomb(h.positivePics) + rest;
    TakeU(bits, pos, h.poc, [false] + (Golomb(|h.pics|) + last));
    var p := pos + |h.poc|;
    TakeFlag(bits, p, false, Golomb(|h.pics|) + last);
    TakeUE(bits, p + 1, |h.pics|, last);
    TakeUE(bits, ReadUE(bits, p + 1).next, h.positivePics, rest);
  }

  /** The first picture used for reference */
  function FirstUsedOf(pics: seq<Pic>, i: nat): nat {
    if pics == [] then NO_REFERENCE else if pics[0].used then i else FirstUsedOf(pics[1..], i + 1)
  }

  lemma {:induction false} TakePics(bits: seq<bool>, pos: nat, pics: seq<Pic>, i: nat, rest: seq<bool>)
    requires pos <= |bits| && bits[pos..] == PicBits(pics, rest)
    requires forall j | 0 <= j < |pics| :: Codable(pics[j].delta)
    ensures var r := FirstUsed(bits, pos, i, i + |pics|); r.Read? && r.value == FirstUsedOf(pics, i)
    decreases |pics|
  {
    hide Golomb, ReadUE, ReadU;
    if pics != [] {
      TakeUE(bits, pos, pics[0].delta, [pics[0].used] + PicBits(pics[1..], rest));
      var p := ReadUE(bits, pos).next;
      TakeFlag(bits, p, pics[0].used, PicBits(pics[1..], rest));
      TakePics(bits, p + 1, pics[1..], i + 1, rest);
    }
  }

  /** What table 7-7 of ITU-T H.265 says of slice_type; B slices are none that the code knows. */
  function TypeOf(h: Header): SliceType {
    match h.sliceType
    case 1 => P
    case 2 => I
    case _ => Unknown
  }

  /** Parsing gives back the slice type and the first picture used, of every header that can be written and whose
      address does not mislead the code. */
  lemma ParseWritten(h: Header, data: seq<bool>, given: Slice)
    requires Writable(h) && AddressReads(h)
    ensures var r := Parse(Written(h, data), |h.poc|, given);
      r.Read? && r.value == Accepted(Slice(TypeOf(h), FirstUsedOf(h.pics, 0)))
  {
    hide NalBits, TypeBits, SetBits, PicBits, FindStart, NalUnitType, SliceTypeCode, NegativePics, FirstUsed;
    var bits := Written(h, data);
    TakeNal(h, TypeBits(h, SetBits(h, PicBits(h.pics, data))));
    TakeType(bits, 48, h, SetBits(h, PicBits(h.pics, data)));
    var p := SliceTypeCode(bits, 48, 1).next;
    TakeSet(bits, p, h, PicBits(h.pics, data));
    TakePics(bits, NegativePics(bits, p, |h.poc|).next, h.pics, 0, data);
  }

  // ---------------------------------------------------------------- rewriting what was written

  /** Picture k becomes the first one used; if there is none, no picture is used. */
  function WithReference(pics: seq<Pic>, k: nat): (r: seq<Pic>)
    ensures |r| == |pics|
    ensures forall i | 0 <= i < |pics| :: r[i] == if i <= k then pics[i].(used := i == k) else pics[i]
  {
    if pics == [] then []
    else if k == 0 then [pics[0].(used := true)] + pics[1..]
    else [pics[0].(used := false)] + WithReference(pics[1..], k - 1)
  }

  lemma {:induction false} FlagsOfPics(bits: seq<bool>, pos: nat, pics: seq<Pic>, i: nat, k: nat, rest: seq<bool>)
    requires pos <= |bits| && bits[pos..] == PicBits(pics, rest) && i <= k
    requires forall j | 0 <= j < |pics| :: Codable(pics[j].delta)
    ensures var r := FlagsTo(bits, pos, i, i + |pics|, k); r.Read? && (r.value.done <==> k < i + |pics|)
    decreases |pics|
  {
    hide Golomb, ReadUE, ReadU;
    if pics != [] {
      TakeUE(bits, pos, pics[0].delta, [pics[0].used] + PicBits(pics[1..], rest));
      var p := ReadUE(bits, pos).next;
      TakeFlag(bits, p, pics[0].used, PicBits(pics[1..], rest));
      if i < k { FlagsOfPics(bits, p + 1, pics[1..], i + 1, k, rest); }
    }
  }

  /** From `pos` on, b differs from a in nothing but the flags at f, the first of them being number i. */
  ghost predicate RewrittenFrom(a: seq<bool>, b: seq<bool>, pos: nat, f: seq<nat>, i: nat, k: nat) {
    && (forall j | pos <= j < |a| && j < |b| && j !in f :: b[j] == a[j])
    && (forall m | 0 <= m < |f| && f[m] < |b| :: b[f[m]] == (i + m == k))
  }

  lemma FlagsParts(bits: seq<bool>, pos: nat, i: nat, n: nat, k: nat)
    requires i <= k && i < n && FlagsTo(bits, pos, i, n, k).Read?
    ensures var f, p := FlagsTo(bits, pos, i, n, k).value.flags, ReadUE(bits, pos).next;
      && ReadUE(bits, pos).Read? && pos < p < |bits|
      && f != [] && f == [p] + f[1..] && (forall m | 0 <= m < |f[1..]| :: p < f[1..][m])
      && if i == k then f[1..] == []
         else var rest := FlagsTo(bits, p + 1, i + 1, n, k); rest.Read? && rest.value.flags == f[1..]
  {
    hide ReadUE, FlagsTo;
    FlagsNext(bits, pos, i, n, k);
    FlagsAscend(bits, pos, i, n, k);
    var f := FlagsTo(bits, pos, i, n, k).value.flags;
    forall m | 0 <= m < |f[1..]| ensures f[0] < f[1..][m] { assert f[1..][m] == f[m + 1]; }
  }

  lemma RewrittenNext(a: seq<bool>, b: seq<bool>, pos: nat, p: nat, g: seq<nat>, i: nat, k: nat)
    requires |a| == |b| && pos < p < |a| && RewrittenFrom(a, b, pos, [p] + g, i, k)
    requires forall m | 0 <= m < |g| :: p < g[m]
    ensures forall j | pos <= j < p :: b[j] == a[j]
    ensures b[p] == (i == k) && RewrittenFrom(a, b, p + 1, g, i + 1, k)
    ensures g == [] ==> b[p + 1..] == a[p + 1..]
  {
    var f := [p] + g;
    assert b[f[0]] == (i + 0 == k);
    forall m | 0 <= m < |g| && g[m] < |b| ensures b[g[m]] == (i + 1 + m == k) {
      assert g[m] == f[m + 1];
    }
  }

  /** Bits that differ in the flags written, and only there, are those of the changed pictures. */
  lemma {:induction false} PicsAfter(a: seq<bool>, b: seq<bool>, pos: nat, pics: seq<Pic>, i: nat, k: nat,
                                     rest: seq<bool>)
    requires pos <= |a| == |b| && a[pos..] == PicBits(pics, rest) && i <= k
    requires forall j | 0 <= j < |pics| :: Codable(pics[j].delta)
    requires FlagsTo(a, pos, i, i + |pics|, k).Read?
    requires RewrittenFrom(a, b, pos, FlagsTo(a, pos, i, i + |pics|, k).value.flags, i, k)
    ensures b[pos..] == PicBits(WithReference(pics, k - i), rest)
    decreases |pics|
  {
    hide Golomb, ReadUE, ReadU, FlagsTo, PicBits, WithReference, RewrittenFrom, Codable;
    var n := i + |pics|;
    var f := FlagsTo(a, pos, i, n, k).value.flags;
    if pics == [] {
      NoPicsAfter(a, b, pos, i, k, rest);
      return;
    }
    FlagsParts(a, pos, i, n, k);
    var more := PicBits(pics[1..], rest);
    FirstPic(pics, rest);
    TakeUE(a, pos, pics[0].delta, [pics[0].used] + more);
    var p := ReadUE(a, pos).next;
    TakeFlag(a, p, pics[0].used, more);
    var g := f[1..];
    RewrittenNext(a, b, pos, p, g, i, k);
    WithReferenceStep(pics, k - i);
    FirstPic(WithReference(pics, k - i), rest);
    if i == k {
      OnePicAfter(a, b, pos, pics[0], more, more);
    } else {
      PicsAfter(a, b, p + 1, pics[1..], i + 1, k, rest);
      OnePicAfter(a, b, pos, pics[0], more, PicBits(WithReference(pics[1..], k - i - 1), rest));
    }
  }

  lemma NoPicsAfter(a: seq<bool>, b: seq<bool>, pos: nat, i: nat, k: nat, rest: seq<bool>)
    requires pos <= |a| == |b| && a[pos..] == PicBits([], rest)
    requires RewrittenFrom(a, b, pos, FlagsTo(a, pos, i, i, k).value.flags, i, k)
    ensures b[pos..] == PicBits(WithReference([], k), rest)
  {
    assert b[pos..] == a[pos..];
  }

  lemma FirstPic(pics: seq<Pic>, rest: seq<bool>)
    requires pics != []
    ensures PicBits(pics, rest) == Golomb(pics[0].delta) + ([pics[0].used] + PicBits(pics[1..], rest))
  {
    hide Golomb;
  }

  lemma WithReferenceStep(pics: seq<Pic>, k: nat)
    requires pics != []
    ensures var r := WithReference(pics, k);
      && r[0] == pics[0].(used := k == 0)
      && r[1..] == if k == 0 then pics[1..] else WithReference(pics[1..], k - 1)
  {}

  lemma OnePicAfter(a: seq<bool>, b: seq<bool>, pos: nat, pic: Pic, moreA: seq<bool>, moreB: seq<bool>)
    requires pos <= |a| == |b| && a[pos..] == Golomb(pic.delta) + ([pic.used] + moreA)
    requires var p := pos + |Golomb(pic.delta)|;
      (forall j | pos <= j < p :: b[j] == a[j]) && b[p + 1..] == moreB
    ensures b[pos..] == Golomb(pic.delta) + ([b[pos + |Golomb(pic.delta)|]] + moreB)
  {
    hide Golomb;
    var p := pos + |Golomb(pic.delta)|;
    assert a[pos..p] == a[pos..][..p - pos] == Golomb(pic.delta);
    assert b[pos..p] == a[pos..p];
    assert b[pos..] == b[pos..p] + ([b[p]] + b[p + 1..]);
  }

  /** What comes in front of the pictures does not depend on them, but for their number. */
  lemma FrontOf(h: Header, rest: seq<bool>)
    ensures var front := NalBits(h, TypeBits(h, SetBits(h, [])));
      NalBits(h, TypeBits(h, SetBits(h, rest))) == front + rest
  {
    hide Golomb, BitsOf;
    var last, all := Golomb(h.positivePics), Golomb(|h.pics|);
    assert SetBits(h, rest) == SetBits(h, []) + rest;
    assert TypeBits(h, SetBits(h, []) + rest) == TypeBits(h, SetBits(h, [])) + rest;
  }

  /** Rewriting a P slice's reference frame succeeds exactly for its pictures, and leaves the header that would be
      written with that picture as the first one used; for any other it fails and leaves one with no picture used. */
  lemma RewriteWritten(h: Header, data: seq<bool>, k: nat)
    requires Writable(h) && AddressReads(h) && h.sliceType == 1
    ensures var bits := Written(h, data);
      var r := Rewrite(bits, |h.poc|, k);
      && r.Read? && (r.value.done <==> k < |h.pics|)
      && WithFlags(bits, r.value.flags, 0, k) == Written(h.(pics := WithReference(h.pics, k)), data)
  {
    hide NalBits, TypeBits, SetBits, PicBits, FindStart, NalUnitType, SliceTypeCode, NegativePics, FlagsTo, WithFlags;
    hide RewrittenFrom, ReadU, ReadUE;
    var bits, pics := Written(h, data), PicBits(h.pics, data);
    TakeNal(h, TypeBits(h, SetBits(h, pics)));
    TakeType(bits, 48, h, SetBits(h, pics));
    var p := SliceTypeCode(bits, 48, 1).next;
    TakeSet(bits, p, h, pics);
    var q := NegativePics(bits, p, |h.poc|).next;
    FlagsOfPics(bits, q, h.pics, 0, k, data);
    var flags := FlagsTo(bits, q, 0, |h.pics|, k).value.flags;
    var after := WithFlags(bits, flags, 0, k);
    FlagsRewrite(bits, q, |h.pics|, k);
    PicsAfter(bits, after, q, h.pics, 0, k, data);
    var h' := h.(pics := WithReference(h.pics, k));
    SameFront(h, h');
    FrontOf(h, pics);
    FrontOf(h', PicBits(h'.pics, data));
    Assemble(NalBits(h, TypeBits(h, SetBits(h, []))), bits, after, q, pics, PicBits(h'.pics, data));
  }

  lemma FlagsRewrite(bits: seq<bool>, pos: nat, n: nat, k: nat)
    requires pos <= |bits| && FlagsTo(bits, pos, 0, n, k).Read?
    ensures var f := FlagsTo(bits, pos, 0, n, k).value.flags;
      var after := WithFlags(bits, f, 0, k);
      after[..pos] == bits[..pos] && RewrittenFrom(bits, after, pos, f, 0, k)
  {
    hide FlagsTo, WithFlags;
    FlagsAscend(bits, pos, 0, n, k);
    WithFlagsAt(bits, FlagsTo(bits, pos, 0, n, k).value.flags, 0, k);
  }

  lemma Assemble(front: seq<bool>, bits: seq<bool>, after: seq<bool>, q: nat, was: seq<bool>, now: seq<bool>)
    requires bits == front + was && q <= |bits| == |after| && bits[q..] == was
    requires after[..q] == bits[..q] && after[q..] == now
    ensures after == front + now
  {
    assert |front| == q && bits[..q] == front;
    assert after == after[..q] + after[q..];
  }

  lemma SameFront(h: Header, h': Header)
    requires h'.(pics := h.pics) == h && |h'.pics| == |h.pics|
    ensures NalBits(h, TypeBits(h, SetBits(h, []))) == NalBits(h', TypeBits(h', SetBits(h', [])))
  {}
}
