/** lib/src/vl_rbsp.h: a 64-bit buffered bit reader over a byte array, and what it refines: a position in a
    plain list of bits. */
module BitReader {
  import opened Octets
  import opened Powers
  import opened Bits

  /** What a read gives: a value and the position after it, or nothing when the data ends too early. */
  datatype Read<T> = Read(value: T, next: nat) | NoValue {
    predicate IsFailure() {
      NoValue?
    }

    function PropagateFailure<U>(): Read<U>
      requires NoValue?
    {
      NoValue
    }

    function Extract(): (T, nat)
      requires Read?
    {
      (value, next)
    }
  }

  /** u(n) of section 7.2 of ITU-T H.264: n bits, most significant first. */
  function ReadU(bits: seq<bool>, pos: nat, n: nat): (r: Read<nat>)
    ensures r.Read? ==> pos <= r.next == pos + n <= |bits|
  {
    if pos + n <= |bits| then Read(Val(bits[pos..pos + n]), pos + n) else NoValue
  }

  /** The length of the run of zeros at `pos`. */
  function Zeros(bits: seq<bool>, pos: nat): (n: nat)
    ensures pos <= |bits| ==> pos + n <= |bits|
    decreases |bits| - pos
  {
    if pos < |bits| && !bits[pos] then 1 + Zeros(bits, pos + 1) else 0
  }

  /** ue(v) of section 9.1 of ITU-T H.264: z zeros, a one, and z more bits. The source shifts a signed int by z,
      so longer prefixes than 30 are not values to it. */
  function ReadUE(bits: seq<bool>, pos: nat): (r: Read<nat>)
    ensures r.Read? ==> pos < r.next <= |bits|
  {
    var z := Zeros(bits, pos);
    if z <= 30 && pos + 2 * z + 1 <= |bits| then
      Read(Pow2(z) - 1 + Val(bits[pos + z + 1..pos + 2 * z + 1]), pos + 2 * z + 1)
    else
      NoValue
  }

  /** floor(log2(n)) */
  function Log2(n: nat): (l: nat)
    requires n > 0
    ensures Pow2(l) <= n < Pow2(l + 1)
  {
    if n == 1 then 0 else 1 + Log2(n / 2)
  }

  /** The codeword of k. */
  function Golomb(k: nat): seq<bool> {
    var l := Log2(k + 1);
    BitsOf(0, l) + BitsOf(k + 1, l + 1)
  }

  lemma {:induction false} ZeroBits(n: nat)
    ensures forall i | 0 <= i < n :: !BitsOf(0, n)[i]
  {
    if n > 0 { ZeroBits(n - 1); }
  }

  lemma {:induction false} ZerosRun(bits: seq<bool>, pos: nat, n: nat)
    requires pos + n < |bits| && bits[pos + n]
    requires forall i | pos <= i < pos + n :: !bits[i]
    ensures Zeros(bits, pos) == n
    decreases n
  {
    if n > 0 { ZerosRun(bits, pos + 1, n - 1); }
  }

  lemma {:induction false} ZerosAre(bits: seq<bool>, pos: nat)
    requires pos <= |bits|
    ensures forall i | pos <= i < pos + Zeros(bits, pos) :: !bits[i]
    ensures pos + Zeros(bits, pos) < |bits| ==> bits[pos + Zeros(bits, pos)]
    decreases |bits| - pos
  {
    if pos < |bits| && !bits[pos] { ZerosAre(bits, pos + 1); }
  }

  /** The top bit of an (n+1)-bit number is set exactly when the number is at least 2^n; the rest is the remainder. */
  lemma {:induction false} TopBit(v: nat, n: nat)
    requires Pow2(n) <= v < Pow2(n + 1)
    ensures BitsOf(v, n + 1)[0]
    ensures Val(BitsOf(v, n + 1)[1..]) == v - Pow2(n)
  {
    ValBitsOf(v, n + 1);
    var bits := BitsOf(v, n + 1);
    assert bits == bits[..1] + bits[1..];
    ValConcat(bits[..1], bits[1..]);
    ValBound(bits[1..]);
    assert bits[..1] == [bits[0]];
    OneBit(bits[0]);
  }

  lemma OneBit(b: bool)
    ensures Val([b]) == if b then 1 else 0
  {
    assert [b][..0] == [];
  }

  /** Reading the codeword of any k, wherever it stands, returns k and consumes its 2*floor(log2(k+1))+1 bits. */
  lemma GolombRoundTrip(before: seq<bool>, k: nat, after: seq<bool>)
    requires k + 1 < 0x8000_0000
    ensures |Golomb(k)| == 2 * Log2(k + 1) + 1
    ensures ReadUE(before + Golomb(k) + after, |before|) == Read(k, |before| + |Golomb(k)|)
  {
    hide Val, BitsOf, Pow2;
    var l := Log2(k + 1);
    var bits, pos := before + Golomb(k) + after, |before|;
    var code := BitsOf(k + 1, l + 1);
    assert l <= 30 by {
      if l > 30 { Pow2Monotone(31, l); Pow2Add(16, 15); Pow2Add(8, 7); Pow2Add(4, 3); Pow2Values(); }
    }
    TopBit(k + 1, l);
    ZeroBits(l);
    assert forall i | pos <= i < pos + l :: bits[i] == BitsOf(0, l)[i - pos];
    assert forall i | 0 <= i <= l :: bits[pos + l + i] == code[i];
    ZerosRun(bits, pos, l);
    assert bits[pos + l + 1..pos + 2 * l + 1] == code[1..];
  }

  /** The bits from `pos` up to the end of byte `data` - 1. */
  function Window(stream: seq<Byte>, pos: nat, data: nat): seq<bool>
    requires pos <= 8 * data <= 8 * |stream|
  {
    DataBits(stream)[pos..8 * data]
  }

  lemma WindowGrows(stream: seq<Byte>, pos: nat, data: nat)
    requires pos <= 8 * data && data < |stream|
    ensures Window(stream, pos, data + 1) == Window(stream, pos, data) + BitsOf(stream[data], 8)
    ensures Val(BitsOf(stream[data], 8)) == stream[data]
  {
    hide BitsOf, DataBits;
    DataBitsAt(stream, data);
    Pow2Values();
    ValBitsOf(stream[data], 8);
    var bits := DataBits(stream);
    assert bits[pos..8 * data + 8] == bits[pos..8 * data] + bits[8 * data..8 * data + 8];
  }

  /** Four bytes in network order */
  function Dword(a: Byte, b: Byte, c: Byte, d: Byte): nat {
    (a as int) * 0x100_0000 + (b as int) * 0x1_0000 + (c as int) * 0x100 + d
  }

  lemma NothingYet(stream: seq<Byte>, data: nat)
    requires data <= |stream|
    ensures Window(stream, 8 * data, data) == []
  {}

  lemma WindowGrowsDword(stream: seq<Byte>, pos: nat, data: nat)
    requires pos <= 8 * data && data + 4 <= |stream|
    ensures var more := Window(stream, 8 * data, data + 4);
      && |more| == 32 && Val(more) == Dword(stream[data], stream[data + 1], stream[data + 2], stream[data + 3])
      && Window(stream, pos, data + 4) == Window(stream, pos, data) + more
  {
    hide BitsOf, DataBits, Val, Pow2, Window;
    var a, b := BitsOf(stream[data], 8), BitsOf(stream[data + 1], 8);
    var c, d := BitsOf(stream[data + 2], 8), BitsOf(stream[data + 3], 8);
    WindowGrows(stream, pos, data);
    WindowGrows(stream, pos, data + 1);
    WindowGrows(stream, pos, data + 2);
    WindowGrows(stream, pos, data + 3);
    assert Window(stream, 8 * data, data + 4) == a + b + c + d by {
      NothingYet(stream, data);
      WindowGrows(stream, 8 * data, data);
      WindowGrows(stream, 8 * data, data + 1);
      WindowGrows(stream, 8 * data, data + 2);
      WindowGrows(stream, 8 * data, data + 3);
    }
    ValConcat(a, b);
    ValConcat(a + b, c);
    ValConcat(a + b + c, d);
    Pow2Values();
    assert Window(stream, pos, data + 4) == Window(stream, pos, data) + (a + b + c + d);
  }

  /** struct vl_vlc over one input. `stream` is what the input held when the reader was made: the input may be
      patched behind `data` later on. */
  class Vlc {
    const input: array<Byte>
    const align: nat                // address of the input modulo 4
    ghost const stream: seq<Byte>
    var buffer: nat
    var invalidBits: int
    var data: nat
    const end: nat
    const bytesLeft: nat

    /** The bits in the buffer are those between the position and `data`. */
    ghost predicate Valid()
      reads this, input
    {
      && end == bytesLeft == input.Length == |stream|
      && data <= end
      && -32 <= invalidBits <= 32
      && 32 - invalidBits <= 8 * data
      && buffer == Packed(Window(stream, Pos(), data))
      && input[data..] == stream[data..]
    }

    /** How many bits of the stream have been read. */
    ghost function Pos(): int
      reads this
    {
      8 * data - 32 + invalidBits
    }

    function ValidBits(): int
      reads this
    {
      32 - invalidBits
    }

    function BitsLeft(): int
      reads this
    {
      (end - data + bytesLeft) * 8 + ValidBits()
    }

    /** vl_vlc_init; `align` is the address of the input modulo 4. */
    constructor (input: array<Byte>, align: nat)
      ensures Valid() && this.input == input && stream == input[..] && this.align == align
      ensures Pos() == 0 && (ValidBits() >= 32 || data == end)
    {
      this.input, this.align := input, align;
      stream := input[..];
      buffer, invalidBits, data := 0, 32, 0;
      end, bytesLeft := input.Length, input.Length;
      new;
      NoBits(stream);
      AlignDataPtr();
      FillBits();
    }

    /** vl_vlc_align_data_ptr */
    method AlignDataPtr()
      requires Valid() && ValidBits() <= 32
      modifies this`buffer, this`invalidBits, this`data
      ensures Valid() && Pos() == old(Pos())
      ensures ValidBits() <= old(ValidBits()) + 24
    {
      ghost var start := data;
      while data != end && (align + data) % 4 != 0
        invariant Valid() && Pos() == old(Pos())
        invariant start <= data && ValidBits() == old(ValidBits()) + 8 * (data - start)
        invariant data == start || (0 < (align + start) % 4 && (align + start) % 4 + (data - start) <= 4)
        decreases end - data
      {
        Mod4(align + start, data - start);
        TakeByte();
      }
    }

    /** Or-ing one byte into the buffer. */
    method TakeByte()
      requires Valid() && data < end && ValidBits() <= 56
      modifies this`buffer, this`invalidBits, this`data
      ensures Valid() && Pos() == old(Pos()) && data == old(data) + 1
    {
      hide Packed, Window, Shl, Or, Val, Pow2, DataBits;
      WindowGrows(stream, Pos(), data);
      WindowSize(stream, Pos(), data);
      AppendBits(Window(stream, Pos(), data), BitsOf(stream[data], 8));
      assert input[data] == stream[data] by { assert input[data..][0] == stream[data..][0]; }
      assert input[data + 1..] == stream[data + 1..] by { assert input[data..][1..] == stream[data..][1..]; }
      buffer := Or(buffer, Shl(input[data], 24 + invalidBits), 64);
      data := data + 1;
      invalidBits := invalidBits - 8;
    }

    /** vl_vlc_fillbits */
    method FillBits()
      requires Valid()
      modifies this`buffer, this`invalidBits, this`data
      ensures Valid() && Pos() == old(Pos())
      ensures old(ValidBits()) >= 32 ==> data == old(data)
      ensures ValidBits() >= 32 || data == end
      ensures old(data) <= data <= old(data) + 4
    {
      while invalidBits > 0
        invariant Valid() && Pos() == old(Pos()) && old(data) <= data <= old(data) + 4
        invariant old(ValidBits()) >= 32 ==> data == old(data)
        invariant data == old(data) || data == end
        decreases end - data
      {
        var bytesLeft := end - data;
        if bytesLeft == 0 {
          return;
        }
        if bytesLeft >= 4 {
          TakeDword();
          break;
        } else {
          while data < end
            invariant Valid() && Pos() == old(Pos()) && old(data) <= data <= old(data) + 4
            invariant end - old(data) < 4 && old(ValidBits()) < 32
            invariant ValidBits() == old(ValidBits()) + 8 * (data - old(data))
          {
            TakeByte();
          }
        }
      }
    }

    /** Or-ing a whole dword into the buffer. */
    method TakeDword()
      requires Valid() && data + 4 <= end && ValidBits() <= 32
      modifies this`buffer, this`invalidBits, this`data
      ensures Valid() && Pos() == old(Pos()) && data == old(data) + 4
    {
      hide Packed, Window, Dword, Shl, Or, Val, Pow2, DataBits;
      WindowGrowsDword(stream, Pos(), data);
      WindowSize(stream, Pos(), data);
      AppendBits(Window(stream, Pos(), data), Window(stream, 8 * data, data + 4));
      assert forall i | 0 <= i < 4 :: input[data..][i] == stream[data..][i];
      assert input[data + 4..] == stream[data + 4..] by { assert input[data..][4..] == stream[data..][4..]; }
      var value := Dword(input[data], input[data + 1], input[data + 2], input[data + 3]);
      buffer := Or(buffer, Shl(value, invalidBits), 64);
      data := data + 4;
      invalidBits := invalidBits - 32;
    }
    /** vl_vlc_peekbits: past the end of the input missing bits read as zero; the result is a 32-bit unsigned. */
    function PeekBits(n: nat): (v: nat)
      reads this
      requires 0 < n <= 64
    {
      Shr(buffer, 64 - n) % TWO32
    }

    /** vl_vlc_eatbits */
    method EatBits(n: nat)
      requires Valid() && n < 64 && n <= ValidBits()
      modifies this`buffer, this`invalidBits
      ensures Valid() && Pos() == old(Pos()) + n
    {
      hide Packed, Shl, DataBits;
      WindowSize(stream, Pos(), data);
      DropBits(Window(stream, Pos(), data), n);
      assert Window(stream, Pos(), data)[n..] == Window(stream, Pos() + n, data);
      buffer := Shl(buffer, n);
      invalidBits := invalidBits + n;
    }

    lemma Peeks(n: nat)
      requires Valid() && 0 < n <= 32 && n <= ValidBits()
      ensures Pos() + n <= 8 * end
      ensures PeekBits(n) == Val(DataBits(stream)[Pos()..Pos() + n]) < TWO32
    {
      hide Packed, Shr, DataBits, Val, Pow2;
      var w := Window(stream, Pos(), data);
      WindowSize(stream, Pos(), data);
      TopBits(w, n);
      ValBound(w[..n]);
      Pow2Monotone(n, 32);
      Pow2Values();
      assert w[..n] == DataBits(stream)[Pos()..Pos() + n];
      SmallMod(Val(w[..n]), TWO32);
    }

    /** vl_vlc_get_uimsbf */
    method GetUimsbf(n: nat) returns (value: nat)
      requires Valid() && 0 < n <= 32 && n <= ValidBits()
      modifies this`buffer, this`invalidBits
      ensures Valid() && Pos() == old(Pos()) + n
      ensures Read(value, Pos()) == ReadU(DataBits(stream), old(Pos()), n)
    {
      hide Val, DataBits;
      Peeks(n);
      value := PeekBits(n);
      EatBits(n);
    }
  }

  lemma Mod4(a: nat, k: nat)
    requires a % 4 + k <= 4
    ensures (a + k) % 4 == if a % 4 + k == 4 then 0 else a % 4 + k
  {}

  lemma NoBits(stream: seq<Byte>)
    ensures Window(stream, 0, 0) == [] && Packed([]) == 0
  {}

  lemma WindowSize(stream: seq<Byte>, pos: nat, data: nat)
    requires pos <= 8 * data <= 8 * |stream|
    ensures |Window(stream, pos, data)| == 8 * data - pos
  {}
}
