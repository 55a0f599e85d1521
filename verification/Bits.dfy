/** Big-endian bit lists, the numbers they stand for, and the 64-bit shifts and masks of the bit reader. */
module Bits {
  import opened Octets
  import opened Powers

  /** The number a bit list stands for, most significant bit first. */
  function Val(bits: seq<bool>): (v: nat) {
    if bits == [] then 0 else 2 * Val(bits[..|bits| - 1]) + if bits[|bits| - 1] then 1 else 0
  }

  /** The n low bits of a number. */
  function BitsOf(v: nat, n: nat): (bits: seq<bool>)
    ensures |bits| == n
  {
    if n == 0 then [] else BitsOf(v / 2, n - 1) + [v % 2 == 1]
  }

  function DataBits(data: seq<Byte>): (bits: seq<bool>)
    ensures |bits| == 8 * |data|
  {
    if data == [] then [] else DataBits(data[..|data| - 1]) + BitsOf(data[|data| - 1], 8)
  }

  lemma {:induction false} ValBound(bits: seq<bool>)
    ensures Val(bits) < Pow2(|bits|)
  {
    if bits != [] { ValBound(bits[..|bits| - 1]); }
  }

  lemma {:induction false} ValConcat(a: seq<bool>, b: seq<bool>)
    ensures Val(a + b) == Val(a) * Pow2(|b|) + Val(b)
  {
    if b == [] {
      assert a + b == a;
    } else {
      var n := |b| - 1;
      ValConcat(a, b[..n]);
      assert (a + b)[..|a| + n] == a + b[..n];
      assert Val(a) * Pow2(|b|) == 2 * (Val(a) * Pow2(n));
    }
  }

  lemma {:induction false} ValBitsOf(v: nat, n: nat)
    requires v < Pow2(n)
    ensures Val(BitsOf(v, n)) == v
  {
    if n > 0 {
      ValBitsOf(v / 2, n - 1);
      assert BitsOf(v, n)[..n - 1] == BitsOf(v / 2, n - 1);
    }
  }

  lemma {:induction false} BitsOfVal(bits: seq<bool>)
    ensures BitsOf(Val(bits), |bits|) == bits
  {
    if bits != [] {
      BitsOfVal(bits[..|bits| - 1]);
      assert bits == bits[..|bits| - 1] + [bits[|bits| - 1]];
    }
  }

  /** The bits of byte j of some data. */
  lemma {:induction false} DataBitsAt(data: seq<Byte>, j: nat)
    requires j < |data|
    ensures DataBits(data)[8 * j..8 * j + 8] == BitsOf(data[j], 8)
    ensures DataBits(data)[..8 * j] == DataBits(data[..j])
  {
    hide BitsOf;
    var n := |data| - 1;
    if j < n {
      DataBitsAt(data[..n], j);
      assert data[..n][..j] == data[..j];
      assert DataBits(data)[..8 * n] == DataBits(data[..n]);
      assert DataBits(data)[8 * j..8 * j + 8] == DataBits(data)[..8 * n][8 * j..8 * j + 8];
      assert DataBits(data)[..8 * j] == DataBits(data)[..8 * n][..8 * j];
    }
  }

  /** Bitwise or of the n low bits. */
  function Or(a: nat, b: nat, n: nat): nat {
    if n == 0 then 0 else (if a % 2 == 1 || b % 2 == 1 then 1 else 0) + 2 * Or(a / 2, b / 2, n - 1)
  }

  /** A number with m low zero bits and one with no more than m bits do not overlap, so or is addition. */
  lemma {:induction false} OrDisjoint(a: nat, b: nat, m: nat, n: nat)
    requires m <= n && a % Pow2(m) == 0 && b < Pow2(m) && a < Pow2(n)
    ensures Or(a, b, n) == a + b
  {
    if n > 0 {
      if m == 0 {
        assert b == 0;
        OrDisjoint(a / 2, 0, 0, n - 1);
      } else {
        EvenHalf(a, Pow2(m - 1));
        OrDisjoint(a / 2, b / 2, m - 1, n - 1);
      }
    }
  }

  lemma EvenHalf(a: nat, p: nat)
    requires p > 0 && a % (2 * p) == 0
    ensures a % 2 == 0 && (a / 2) % p == 0
  {
    var q := a / (2 * p);
    assert a == 2 * (p * q);
    assert a / 2 == p * q;
    ModAddMultiple(0, p, q);
  }

  /** v << n on 64 bits */
  function Shl(v: nat, n: nat): (r: nat)
    ensures r < TWO64
  {
    (v * Pow2(n)) % TWO64
  }

  /** v >> n */
  function Shr(v: nat, n: nat): nat {
    DivNonNegative(v, Pow2(n));
    v / Pow2(n)
  }

  lemma DivNonNegative(v: nat, m: nat)
    requires m > 0
    ensures v / m >= 0
  {
    MulBounds(m, v / m);
  }

  /** A 64-bit buffer whose first bits are `bits`, followed by zeros. */
  function Packed(bits: seq<bool>): nat
    requires |bits| <= 64
  {
    Val(bits) * Pow2(64 - |bits|)
  }

  lemma MulLess(a: nat, b: nat, p: nat)
    requires a < b && p > 0
    ensures a * p < b * p
  {}

  lemma DivSum(q: nat, m: nat, r: nat)
    requires m > 0 && r < m
    ensures (q * m + r) / m == q && (q * m + r) % m == r
  {
    DivisionIs(q * m + r, m, q, r);
  }

  /** (v p + w) s, multiplied out, when p s = q. */
  lemma Spread(v: nat, w: nat, p: nat, s: nat, q: nat)
    requires p * s == q && w < p && s > 0
    ensures (v * p + w) * s == v * q + w * s && w * s < q
  {
    assert v * p * s == v * (p * s);
    MulLess(w, p, s);
  }

  lemma Multiple(v: nat, m: nat)
    requires m > 0
    ensures (v * m) % m == 0
  {
    ModAddMultiple(0, m, v);
  }

  lemma Pow2Split(n: nat, m: nat)
    requires m <= n <= 64
    ensures Pow2(m) * Pow2(n - m) == Pow2(n) <= TWO64
    ensures Pow2(n - m) * Pow2(m) == Pow2(n)
  {
    hide Pow2;
    Pow2Add(m, n - m);
    Pow2Monotone(n, 64);
    Pow2Values();
  }

  lemma PackedRange(bits: seq<bool>)
    requires |bits| <= 64
    ensures Packed(bits) < TWO64
  {
    hide Val, Pow2;
    ValBound(bits);
    Pow2Split(64, |bits|);
    MulLess(Val(bits), Pow2(|bits|), Pow2(64 - |bits|));
    Pow2Values();
  }

  /** Or-ing a value into the free part of the buffer appends its bits. */
  lemma AppendBits(bits: seq<bool>, more: seq<bool>)
    requires |bits| + |more| <= 64
    ensures Or(Packed(bits), Shl(Val(more), 64 - |bits| - |more|), 64) == Packed(bits + more)
  {
    hide Val, Or, Pow2;
    var free := 64 - |bits|;
    var shift := free - |more|;
    var v, w, p, s, q := Val(bits), Val(more), Pow2(|more|), Pow2(shift), Pow2(free);
    ValBound(more);
    ValConcat(bits, more);
    Pow2Split(free, |more|);
    Spread(v, w, p, s, q);
    assert Shl(w, shift) == w * s by { SmallMod(w * s, TWO64); }
    Multiple(v, q);
    PackedRange(bits);
    Pow2Values();
    OrDisjoint(Packed(bits), w * s, free, 64);
  }

  lemma SmallMod(a: nat, m: nat)
    requires a < m
    ensures a % m == a
  {}

  /** The top n bits of the buffer. */
  lemma TopBits(bits: seq<bool>, n: nat)
    requires n <= |bits| <= 64
    ensures Shr(Packed(bits), 64 - n) == Val(bits[..n])
  {
    hide Val, Pow2;
    var a, b := bits[..n], bits[n..];
    assert bits == a + b;
    ValConcat(a, b);
    ValBound(b);
    Pow2Split(64 - n, |b|);
    Spread(Val(a), Val(b), Pow2(|b|), Pow2(64 - |bits|), Pow2(64 - n));
    DivSum(Val(a), Pow2(64 - n), Val(b) * Pow2(64 - |bits|));
  }

  /** Shifting the buffer left removes its first bits. */
  lemma DropBits(bits: seq<bool>, n: nat)
    requires n <= |bits| <= 64
    ensures Shl(Packed(bits), n) == Packed(bits[n..])
  {
    hide Val, Pow2;
    var a, b := bits[..n], bits[n..];
    assert bits == a + b;
    ValConcat(a, b);
    ValBound(b);
    PackedRange(b);
    var p, r := Pow2(64 - |bits|), Pow2(n);
    Pow2Split(64 - |b|, n);
    Pow2Split(64, |b|);
    Pow2Values();
    var x := Val(a) * Pow2(|b|) + Val(b);
    assert x * p * r == x * (p * r);
    Spread(Val(a), Val(b), Pow2(|b|), Pow2(64 - |b|), TWO64);
    DivSum(Val(a), TWO64, Packed(b));
  }
}
