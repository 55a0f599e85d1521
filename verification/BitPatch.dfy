/** Setting and clearing one bit of a byte buffer through a 64-bit big-endian window, as
    lib/src/bitstream.c does it. */
module BitPatch {
  import opened Octets
  import opened Powers
  import opened Bits
  import opened BitReader

  /** Bitwise and of the n low bits. */
  function And(a: nat, b: nat, n: nat): nat {
    if n == 0 then 0 else (if a % 2 == 1 && b % 2 == 1 then 1 else 0) + 2 * And(a / 2, b / 2, n - 1)
  }

  lemma Snoc(bits: seq<bool>)
    requires bits != []
    ensures Val(bits) % 2 == (if bits[|bits| - 1] then 1 else 0)
    ensures Val(bits) / 2 == Val(bits[..|bits| - 1])
  {}

  /** Or with a one-bit mask sets that bit. */
  lemma {:induction false} OrSetsBit(bits: seq<bool>, m: nat)
    requires m < |bits|
    ensures Or(Val(bits), Pow2(m), |bits|) == Val(bits[|bits| - 1 - m := true])
  {
    var n := |bits| - 1;
    var raised := bits[n - m := true];
    Snoc(bits);
    Snoc(raised);
    if m == 0 {
      assert raised[..n] == bits[..n];
      ValBound(bits[..n]);
      OrDisjoint(Val(bits[..n]), 0, 0, n);
    } else {
      assert raised[..n] == bits[..n][n - m := true];
      OrSetsBit(bits[..n], m - 1);
    }
  }

  lemma {:induction false} AndOnes(a: nat, n: nat)
    requires a < Pow2(n)
    ensures And(a, Pow2(n) - 1, n) == a
  {
    if n > 0 { AndOnes(a / 2, n - 1); }
  }

  /** And with the complement of a one-bit mask clears that bit. */
  lemma {:induction false} AndClearsBit(bits: seq<bool>, m: nat)
    requires m < |bits|
    ensures Pow2(m) < Pow2(|bits|)
    ensures And(Val(bits), Pow2(|bits|) - 1 - Pow2(m), |bits|) == Val(bits[|bits| - 1 - m := false])
  {
    hide Val;
    var n := |bits| - 1;
    var cleared := bits[n - m := false];
    Pow2Monotone(m, n);
    Snoc(bits);
    Snoc(cleared);
    if m == 0 {
      assert cleared[..n] == bits[..n];
      ValBound(bits[..n]);
      AndOnes(Val(bits[..n]), n);
    } else {
      assert cleared[..n] == bits[..n][n - m := false];
      AndClearsBit(bits[..n], m - 1);
    }
  }

  /** The window of eight bytes read as two dwords. */
  lemma WindowValue(data: seq<Byte>, d: nat)
    requires 8 <= d <= |data|
    ensures Dword(data[d - 8], data[d - 7], data[d - 6], data[d - 5]) * TWO32
      + Dword(data[d - 4], data[d - 3], data[d - 2], data[d - 1]) == Val(Window(data, 8 * (d - 8), d))
  {
    hide Dword, Val, Window, DataBits, Pow2;
    WindowGrowsDword(data, 8 * (d - 8), d - 8);
    WindowGrowsDword(data, 8 * (d - 8), d - 4);
    NothingYet(data, d - 8);
    var hi, lo := Window(data, 8 * (d - 8), d - 4), Window(data, 8 * (d - 4), d);
    ValConcat(hi, lo);
    Pow2Values();
  }

  /** Byte k of n in network order */
  function ByteOf(v: nat, k: nat, n: nat): Byte
    requires k < n
  {
    (v / Pow2(8 * (n - 1 - k))) % 0x100
  }

  /** The bytes of a bit list's value are the bit list's bytes. */
  lemma ByteOfVal(bits: seq<bool>, k: nat, n: nat)
    requires |bits| == 8 * n && k < n
    ensures BitsOf(ByteOf(Val(bits), k, n), 8) == bits[8 * k..8 * k + 8]
  {
    hide Val, BitsOf, Pow2;
    var a, b, c := bits[..8 * k], bits[8 * k..8 * k + 8], bits[8 * k + 8..];
    assert bits == (a + b) + c;
    ValConcat(a + b, c);
    ValConcat(a, b);
    ValBound(b);
    ValBound(c);
    Pow2Values();
    DivSum(Val(a + b), Pow2(|c|), Val(c));
    DivSum(Val(a), 0x100, Val(b));
    assert |c| == 8 * (n - 1 - k);
    BitsOfVal(b);
  }

  lemma {:induction false} DataBitsConcat(a: seq<Byte>, b: seq<Byte>)
    ensures DataBits(a + b) == DataBits(a) + DataBits(b)
  {
    hide BitsOf;
    if b == [] {
      assert a + b == a;
    } else {
      var n := |b| - 1;
      assert (a + b)[..|a| + n] == a + b[..n];
      DataBitsConcat(a, b[..n]);
    }
  }

  lemma {:induction false} BytesOfWindow(bytes: seq<Byte>, window: seq<bool>)
    requires |window| == 8 * |bytes|
    requires forall k | 0 <= k < |bytes| :: BitsOf(bytes[k], 8) == window[8 * k..8 * k + 8]
    ensures DataBits(bytes) == window
  {
    hide BitsOf;
    if bytes != [] {
      var n := |bytes| - 1;
      forall k | 0 <= k < n ensures BitsOf(bytes[..n][k], 8) == window[..8 * n][8 * k..8 * k + 8] {
        assert window[..8 * n][8 * k..8 * k + 8] == window[8 * k..8 * k + 8];
      }
      BytesOfWindow(bytes[..n], window[..8 * n]);
      assert window == window[..8 * n] + window[8 * n..8 * n + 8];
    }
  }

  lemma DataBitsReplace(a: seq<Byte>, w: seq<Byte>, m: seq<Byte>, c: seq<Byte>)
    requires |w| == |m|
    ensures var bits := DataBits(a + w + c);
      DataBits(a + m + c) == bits[..8 * |a|] + DataBits(m) + bits[8 * |a + m|..]
  {
    hide BitsOf, DataBits;
    DataBitsConcat(a + w, c);
    DataBitsConcat(a, w);
    DataBitsConcat(a + m, c);
    DataBitsConcat(a, m);
  }

  /** The read-modify-write of one iteration: the bit `valid` places before the end of byte `d` - 1 becomes `on`. */
  method PatchBit(buf: array<Byte>, d: nat, valid: nat, on: bool)
    requires 8 <= d <= buf.Length && 0 < valid <= 64
    modifies buf
    ensures DataBits(buf[..]) == old(DataBits(buf[..]))[8 * d - valid := on]
    ensures buf[d..] == old(buf[d..])
  {
    hide Val, DataBits, Window, Or, And, BitsOf, Dword, Pow2;
    ghost var was := buf[..];
    ghost var w := Window(was, 8 * (d - 8), d);
    WindowSize(was, 8 * (d - 8), d);
    WindowValue(was, d);
    var hi := Dword(buf[d - 8], buf[d - 7], buf[d - 6], buf[d - 5]);
    var lo := Dword(buf[d - 4], buf[d - 3], buf[d - 2], buf[d - 1]);
    var buffer := lo + hi * TWO32;
    var mask := Pow2(valid - 1);
    OrSetsBit(w, valid - 1);
    AndClearsBit(w, valid - 1);
    Pow2Values();
    if on {
      buffer := Or(buffer, mask, 64);
    } else {
      buffer := And(buffer, TWO64 - 1 - mask, 64);
    }
    ghost var window := w[64 - valid := on];
    assert buffer == Val(window);
    WriteWindow(buf, d, buffer, window);
    assert DataBits(buf[..]) == DataBits(was)[8 * d - valid := on] by {
      WindowBits(was, d);
    }
  }

  lemma WindowBits(data: seq<Byte>, d: nat)
    requires 8 <= d <= |data|
    ensures Window(data, 8 * (d - 8), d) == DataBits(data)[8 * (d - 8)..8 * d]
  {}

  /** Writing the two dwords back in network order. */
  method WriteWindow(buf: array<Byte>, d: nat, buffer: nat, ghost window: seq<bool>)
    requires 8 <= d <= buf.Length && |window| == 64 && buffer == Val(window)
    modifies buf
    ensures DataBits(buf[..]) == old(DataBits(buf[..])[..8 * (d - 8)]) + window + old(DataBits(buf[..])[8 * d..])
    ensures buf[d..] == old(buf[d..])
  {
    hide Val, DataBits, BitsOf, ByteOf;
    ghost var was := buf[..];
    ghost var bytes: seq<Byte> := [];
    var k := 0;
    while k < 8
      invariant 0 <= k == |bytes| <= 8
      invariant buf[d - 8..d - 8 + k] == bytes
      invariant buf[..d - 8] == was[..d - 8] && buf[d..] == was[d..]
      invariant BytesAre(bytes, window, k)
    {
      ByteOfVal(window, k, 8);
      buf[d - 8 + k] := ByteOf(buffer, k, 8);
      bytes := bytes + [ByteOf(buffer, k, 8)];
      k := k + 1;
    }
    BytesOfWindow(bytes, window);
    Replaced(was, buf[..], d, bytes);
  }

  ghost predicate BytesAre(bytes: seq<Byte>, window: seq<bool>, k: nat) {
    |window| == 64 && k <= 8 && k == |bytes| && forall j | 0 <= j < k :: BitsOf(bytes[j], 8) == window[8 * j..8 * j + 8]
  }

  lemma Replaced(was: seq<Byte>, now: seq<Byte>, d: nat, bytes: seq<Byte>)
    requires 8 <= d <= |was| == |now| && |bytes| == 8
    requires now[d - 8..d] == bytes && now[..d - 8] == was[..d - 8] && now[d..] == was[d..]
    ensures DataBits(now) == DataBits(was)[..8 * (d - 8)] + DataBits(bytes) + DataBits(was)[8 * d..]
  {
    hide DataBits;
    assert now == was[..d - 8] + bytes + was[d..];
    assert was == was[..d - 8] + was[d - 8..d] + was[d..];
    DataBitsReplace(was[..d - 8], was[d - 8..d], bytes, was[d..]);
  }
}
