/** The NAL payload reader of lib/src/vl_rbsp.h, with its scan for emulation prevention bytes, on payloads
    where that scan stays silent. */
module NalReader {
  import opened Octets
  import opened Powers
  import opened Bits
  import opened BitReader

  /** struct vl_rbsp. Payloads hold one NAL unit, and no byte before `limit` is 0x03. */
  class Rbsp {
    const nal: Vlc
    ghost const limit: nat
    var escaped: nat
    var removed: nat

    ghost predicate Valid()
      reads this, nal, nal.input
    {
      && nal.Valid()
      && escaped <= 16 && escaped % 8 == 0
      && Quiet(nal.stream, limit)
    }

    /** The reader may look this far from position `pos`. */
    ghost predicate Covered(pos: int)
      reads nal
    {
      pos + 63 <= 8 * limit || limit >= nal.end
    }

    ghost function Stream(): seq<bool> {
      DataBits(nal.stream)
    }

    /** vl_rbsp_init at a byte boundary; the search for a following NAL unit finds nothing. */
    constructor (nal: Vlc, ghost limit: nat)
      requires nal.Valid() && nal.ValidBits() % 8 == 0 && Quiet(nal.stream, limit)
      requires nal.Pos() + 63 <= 8 * limit || limit >= nal.end
      ensures Valid() && this.nal == nal && this.limit == limit
    {
      this.nal, this.limit := nal, limit;
      escaped, removed := 0, 0;
      new;
      hide Quiet, Packed, Window, DataBits, Val, Vlc.Valid;
      FirstScan();
    }

    method FirstScan()
      requires nal.Valid() && nal.ValidBits() % 8 == 0 && Quiet(nal.stream, limit)
      requires nal.Pos() + 63 <= 8 * limit || limit >= nal.end
      modifies this`escaped
      ensures escaped <= 16 && escaped % 8 == 0
    {
      hide Quiet, Packed, Window, DataBits, Val;
      var valid := nal.ValidBits();
      if nal.Pos() + 63 <= 8 * limit { DataCovered(nal.data, valid, limit); }
      hide Vlc.Valid;
      Scan(24);
      escaped := if valid >= 16 then 16 else if valid >= 8 then 8 else 0;
    }

    /** The scan never matches: the last byte it looks at is a whole byte of the input, and not 0x03. */
    lemma Silent(i: nat)
      requires nal.Valid() && Quiet(nal.stream, limit)
      requires 8 <= i <= nal.ValidBits() && (nal.ValidBits() - i) % 8 == 0
      requires nal.data <= limit
      ensures i <= 64 && nal.PeekBits(i) % 0x100_0000 != 0x3
    {
      hide Packed, Shr, DataBits, Val, Pow2, BitsOf;
      var stream, pos := nal.stream, nal.Pos();
      var w := Window(stream, pos, nal.data);
      var byte := nal.data - (nal.ValidBits() - i) / 8 - 1;
      WindowSize(stream, pos, nal.data);
      assert 8 * byte + 8 == pos + i;
      assert 0 <= byte < nal.data;
      DataBitsAt(stream, byte);
      assert w[..i] == w[..i - 8] + BitsOf(stream[byte], 8);
      ValConcat(w[..i - 8], BitsOf(stream[byte], 8));
      Pow2Values();
      ValBitsOf(stream[byte], 8);
      TopBits(w, i);
      LastByte(Val(w[..i - 8]), stream[byte]);
    }

    /** vl_rbsp_fillbits */
    method FillBits()
      requires Valid() && Covered(nal.Pos())
      modifies this, nal
      ensures Valid() && nal.Pos() == old(nal.Pos())
      ensures nal.ValidBits() >= 32 || nal.data == nal.end
    {
      hide Quiet, Packed, Window;
      var valid := nal.ValidBits();
      if valid >= 32 {
        return;
      }
      nal.FillBits();
      if nal.BitsLeft() < 24 {
        return;
      }
      valid := valid - escaped;
      escaped := 16;
      Scan(valid + 24);
    }

    /** The search for an emulation prevention byte, by whole bytes from the one that ends `from` bits ahead. */
    method Scan(from: nat)
      requires nal.Valid() && Quiet(nal.stream, limit) && nal.data <= limit
      requires 8 <= from && (nal.ValidBits() - from) % 8 == 0
    {
      hide Vlc.Valid, Vlc.PeekBits, Quiet;
      var i := from;
      while i <= nal.ValidBits()
        invariant 8 <= i && (nal.ValidBits() - i) % 8 == 0
        decreases nal.ValidBits() - i
      {
        Silent(i);
        if nal.PeekBits(i) % 0x100_0000 == 0x3 {
          assert false;
        }
        i := i + 8;
      }
    }

    /** vl_rbsp_u */
    method U(n: nat) returns (value: nat)
      requires Valid() && n <= 32 && ReadU(Stream(), nal.Pos(), n).Read?
      requires Covered(nal.Pos() + n)
      modifies this, nal
      ensures Valid() && Read(value, nal.Pos()) == ReadU(Stream(), old(nal.Pos()), n)
      ensures 0 < n < 32 ==> nal.ValidBits() > 0 || nal.data == nal.end
      ensures n == 0 ==> nal.ValidBits() == old(nal.ValidBits()) && nal.data == old(nal.data)
    {
      hide Val, DataBits;
      if n == 0 {
        ReadNothing(Stream(), nal.Pos());
        return 0;
      }
      FillBits();
      if n > 16 {
        FillBits();
      }
      value := nal.GetUimsbf(n);
    }

    /** vl_rbsp_ue */
    method UE() returns (value: nat)
      requires Valid() && ReadUE(Stream(), nal.Pos()).Read?
      requires Covered(ReadUE(Stream(), nal.Pos()).next)
      modifies this, nal
      ensures Valid() && Read(value, nal.Pos()) == ReadUE(Stream(), old(nal.Pos()))
      ensures nal.ValidBits() > 0 || nal.data == nal.end
    {
      hide Val, DataBits, Pow2;
      FillBits();
      var bits := CountZeros();
      var rest := U(bits);
      value := Pow2(bits) - 1 + rest;
    }

    /** The loop of ue that eats the zeros and the one after them. */
    method CountZeros() returns (bits: nat)
      requires Valid() && (nal.ValidBits() >= 32 || nal.data == nal.end)
      requires nal.Pos() + Zeros(Stream(), nal.Pos()) < 8 * nal.end && Zeros(Stream(), nal.Pos()) <= 30
      modifies nal
      ensures Valid() && bits == Zeros(Stream(), old(nal.Pos())) && nal.Pos() == old(nal.Pos()) + bits + 1
      ensures nal.data == old(nal.data) && (nal.ValidBits() > 0 || nal.data == nal.end)
    {
      hide Val, DataBits;
      ghost var stream, pos, z := Stream(), nal.Pos(), Zeros(Stream(), nal.Pos());
      ZerosAre(stream, pos);
      bits := 0;
      OneBitAt(stream, pos);
      var bit := nal.GetUimsbf(1);
      while bit == 0
        invariant Valid() && bits <= z && nal.Pos() == pos + bits + 1
        invariant nal.data == old(nal.data)
        invariant bit == if stream[pos + bits] then 1 else 0
        decreases z - bits
      {
        OneBitAt(stream, pos + bits + 1);
        bits := bits + 1;
        bit := nal.GetUimsbf(1);
      }
    }
  }

  lemma DataCovered(data: nat, valid: int, limit: nat)
    requires 8 * data - valid + 63 <= 8 * limit && valid <= 64 && valid % 8 == 0
    ensures data <= limit
  {}

  /** No byte before `limit` is an emulation prevention byte. */
  ghost predicate Quiet(stream: seq<Byte>, limit: nat) {
    forall j | 0 <= j < |stream| && j < limit :: stream[j] != 0x03
  }

  lemma LastByte(high: nat, byte: Byte)
    ensures ((high * 0x100 + byte) % TWO32) % 0x100_0000 % 0x100 == byte
  {}

  lemma ReadNothing(bits: seq<bool>, pos: nat)
    requires pos <= |bits|
    ensures ReadU(bits, pos, 0) == Read(0, pos)
  {}

  lemma OneBitAt(bits: seq<bool>, pos: nat)
    ensures pos < |bits| ==> ReadU(bits, pos, 1) == Read(if bits[pos] then 1 else 0, pos + 1)
  {
    if pos < |bits| {
      assert bits[pos..pos + 1] == [bits[pos]];
      OneBit(bits[pos]);
    }
  }
}
