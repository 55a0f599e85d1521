/** lib/src/gkcrypt.c: counter-mode key stream generation and positional en/decryption. AES is any function
    from blocks to blocks. */
module KeyStream {
  import opened Octets
  import opened Powers

  const BLOCK_SIZE := 16
  const TWO128 := 0x1_0000_0000_0000_0000_0000_0000_0000_0000

  type Block = s: seq<Byte> | |s| == 16 witness [0, 0, 0, 0, 0, 0, 0, 0, 0, 0, 0, 0, 0, 0, 0, 0]
  type Cipher = Block -> Block

  /** The little-endian value of some bytes. */
  function Value(bytes: seq<Byte>): (v: nat) {
    if bytes == [] then 0 else bytes[0] + 0x100 * Value(bytes[1..])
  }

  /** The n low bytes of a number, in little-endian order. */
  function Bytes(v: nat, n: nat): (bytes: seq<Byte>)
    ensures |bytes| == n
  {
    if n == 0 then [] else [v % 0x100] + Bytes(v / 0x100, n - 1)
  }

  lemma {:induction false} BytesOfValue(bytes: seq<Byte>)
    ensures Bytes(Value(bytes), |bytes|) == bytes
  {
    if bytes != [] {
      BytesOfValue(bytes[1..]);
      DivisionIs(Value(bytes), 0x100, Value(bytes[1..]), bytes[0]);
      assert bytes == [bytes[0]] + bytes[1..];
    }
  }

  lemma {:induction false} ValueBound(bytes: seq<Byte>)
    ensures Value(bytes) < Pow2(8 * |bytes|)
  {
    if bytes != [] {
      ValueBound(bytes[1..]);
      Pow2Add(8, 8 * |bytes[1..]|);
      Pow2Values();
    }
  }

  lemma {:induction false} ValueConcat(a: seq<Byte>, b: seq<Byte>)
    ensures Value(a + b) == Value(a) + Pow2(8 * |a|) * Value(b)
  {
    if a == [] {
      assert a + b == b;
    } else {
      ValueConcat(a[1..], b);
      assert (a + b)[1..] == a[1..] + b;
      Pow2Add(8, 8 * |a[1..]|);
      Pow2Values();
      MulAssoc(0x100, Pow2(8 * |a[1..]|), Value(b));
    }
  }

  lemma BlockValue(b: Block)
    ensures Value(b) < TWO128
  {
    ValueBound(b);
    Pow2Values();
    Pow2Add(64, 64);
  }

  /** What counter_add computes: the sum modulo 2^128, except that its first 64-bit addition may wrap. */
  function CounterSum(base: Block, v: nat): nat
    requires v < TWO64
  {
    if base[0] + v < TWO64 then (Value(base) + v) % TWO128 else Value(base) + v - TWO64
  }

  function Counter(base: Block, v: nat): Block
    requires v < TWO64
  {
    Bytes(CounterSum(base, v), 16)
  }

  /** counter_add is addition modulo 2^128 exactly when its first 64-bit sum does not wrap, and so for every
      v <= 2^64 - 256. */
  lemma CounterAddIsAddition(base: Block, v: nat)
    requires v < TWO64
    ensures CounterSum(base, v) == (Value(base) + v) % TWO128 <==> base[0] + v < TWO64
    ensures v <= TWO64 - 0x100 ==> CounterSum(base, v) == (Value(base) + v) % TWO128
    ensures CounterSum(base, v) < TWO128
  {
    BlockValue(base);
  }

  lemma CarryArithmetic(p: nat, vDone: int, vBase: int, b: int, carry: int, goal: int, r: nat)
    requires vDone + p * carry == vBase + goal && r == b + carry
    ensures vDone + p * (r % 0x100) + p * 0x100 * (r / 0x100) == vBase + p * b + goal
  {
    var lo, hi := r % 0x100, r / 0x100;
    assert p * (lo + 0x100 * hi) == p * lo + p * 0x100 * hi;
    assert p * (b + carry) == p * b + p * carry;
  }

  /** One turn of counter_add: the carry moves from one byte to the next. */
  lemma CarryStep(done: seq<Byte>, base: seq<Byte>, carry: int, goal: int, r: nat)
    requires |done| < |base| && r == base[|done|] + carry
    requires Value(done) + Pow2(8 * |done|) * carry == Value(base[..|done|]) + goal
    ensures Value(done + [r % 0x100]) + Pow2(8 * (|done| + 1)) * (r / 0x100) == Value(base[..|done| + 1]) + goal
  {
    hide Value, Pow2;
    var i := |done|;
    ValueSnoc(done, r % 0x100);
    ValueSnoc(base[..i], base[i]);
    assert base[..i + 1] == base[..i] + [base[i]];
    CarryArithmetic(Pow2(8 * i), Value(done), Value(base[..i]), base[i], carry, goal, r);
  }

  lemma ValueSnoc(bytes: seq<Byte>, b: Byte)
    ensures Value(bytes + [b]) == Value(bytes) + Pow2(8 * |bytes|) * b
    ensures Pow2(8 * (|bytes| + 1)) == Pow2(8 * |bytes|) * 0x100
  {
    hide Pow2, Value;
    OneByte(b);
    ValueConcat(bytes, [b]);
    Pow2Byte(|bytes|);
  }

  lemma OneByte(b: Byte)
    ensures Value([b]) == b
  {}

  lemma Pow2Byte(n: nat)
    ensures Pow2(8 * (n + 1)) == Pow2(8 * n) * 0x100
  {
    hide Pow2;
    assert Pow2(8) == 0x100 by { Pow2Values(); }
    assert 8 * (n + 1) == 8 * n + 8;
    Pow2Add(8 * n, 8);
  }

  /** The bytes written and the untouched rest of the base make up the sum. */
  lemma CarryDone(done: seq<Byte>, base: Block, carry: int, v: nat)
    requires v < TWO64 && 0 < |done| <= BLOCK_SIZE && carry >= 0
    requires Value(done) + Pow2(8 * |done|) * carry
      == Value(base[..|done|]) + if base[0] + v < TWO64 then v else v - TWO64
    requires |done| < BLOCK_SIZE || base[0] + v >= TWO64 ==> carry == 0
    ensures done + base[|done|..] == Counter(base, v)
  {
    hide Pow2, Value, Bytes;
    var i, out := |done|, done + base[|done|..];
    BytesOfValue(out);
    if i == BLOCK_SIZE {
      assert base[..i] == base && out == done;
      AllCarried(done, base, carry, v);
    } else {
      SameRest(done, base, i, carry, if base[0] + v < TWO64 then v else v - TWO64);
      SumBound(out, base, v);
    }
  }

  lemma AllCarried(done: Block, base: Block, carry: nat, v: nat)
    requires v < TWO64 && (base[0] + v >= TWO64 ==> carry == 0)
    requires Value(done) + Pow2(8 * 16) * carry == Value(base) + if base[0] + v < TWO64 then v else v - TWO64
    ensures Value(done) == CounterSum(base, v)
  {
    hide Value, Pow2;
    AllBytes(done, carry);
    if carry == 0 { assert Pow2(8 * 16) * carry == 0; }
  }

  /** Without a carry out of all bytes the sum is less than 2^128. */
  lemma SumBound(out: Block, base: Block, v: nat)
    requires v < TWO64 && Value(out) == Value(base) + if base[0] + v < TWO64 then v else v - TWO64
    ensures Value(out) == CounterSum(base, v)
  {
    hide Value;
    BlockValue(out);
  }

  lemma AllBytes(done: Block, carry: nat)
    ensures Value(done) == (Value(done) + Pow2(8 * 16) * carry) % TWO128
  {
    hide Value;
    assert Pow2(8 * 16) == TWO128 by { Pow2Values(); Pow2Add(64, 64); }
    BlockValue(done);
    ModSum(Value(done), TWO128, carry);
  }

  lemma SameRest(done: seq<Byte>, base: seq<Byte>, i: nat, carry: int, goal: int)
    requires |done| == i <= |base| && carry == 0
    requires Value(done) + Pow2(8 * i) * carry == Value(base[..i]) + goal
    ensures Value(done + base[i..]) == Value(base) + goal
  {
    hide Pow2, Value;
    var rest := Pow2(8 * i) * Value(base[i..]);
    assert Pow2(8 * i) * carry == 0;
    assert Value(done + base[i..]) == Value(done) + rest by { ValueConcat(done, base[i..]); }
    assert Value(base) == Value(base[..i]) + rest by {
      ValueConcat(base[..i], base[i..]);
      assert base[..i] + base[i..] == base;
    }
  }

  lemma ModSum(r: nat, m: nat, k: nat)
    requires r < m
    ensures (r + m * k) % m == r
  {
    ModAddMultiple(r, m, k);
  }

  /** counter_add on the 16 bytes at `at`; `base` is the IV. It stops as soon as nothing is left to carry. */
  method CounterAdd(buf: array<Byte>, at: nat, base: Block, v: nat)
    requires at + BLOCK_SIZE <= buf.Length && v < TWO64
    modifies buf
    ensures buf[at..at + BLOCK_SIZE] == Counter(base, v)
    ensures buf[..at] == old(buf[..at]) && buf[at + BLOCK_SIZE..] == old(buf[at + BLOCK_SIZE..])
  {
    hide Value, Pow2, Counter;
    ghost var goal := if base[0] + v < TWO64 then v else v - TWO64;
    ghost var done: seq<Byte> := [];
    NoBytes(base, goal);
    var i, carry, more := 0, v, true;
    while more
      invariant 0 <= i == |done| <= BLOCK_SIZE && 0 <= carry < TWO64
      invariant i == 0 ==> carry == v && more
      invariant i > 0 ==> carry <= TWO64 / 0x100 && more == (i < BLOCK_SIZE && carry != 0)
      invariant i > 0 && base[0] + v >= TWO64 ==> carry == 0
      invariant Value(done) + Pow2(8 * i) * (if i == 0 then goal else carry) == Value(base[..i]) + goal
      invariant buf[at..at + i] == done
      invariant buf[..at] == old(buf[..at]) && buf[at + BLOCK_SIZE..] == old(buf[at + BLOCK_SIZE..])
      decreases BLOCK_SIZE - i, more
    {
      var r := (base[i] + carry) % TWO64;
      CarryStep(done, base, if i == 0 then goal else carry, goal, r);
      done := done + [r % 0x100];
      PutByte(buf, at, i, r % 0x100);
      carry := r / 0x100;
      i := i + 1;
      more := i < BLOCK_SIZE && carry != 0;
    }
    CarryDone(done, base, carry, v);
    CopyRest(buf, at, base, i);
  }

  /** The bytes that no carry reaches are those of the base. */
  method CopyRest(buf: array<Byte>, at: nat, base: Block, first: nat)
    requires at + BLOCK_SIZE <= buf.Length && first <= BLOCK_SIZE
    modifies buf
    ensures buf[at..at + BLOCK_SIZE] == old(buf[at..at + first]) + base[first..]
    ensures buf[..at] == old(buf[..at]) && buf[at + BLOCK_SIZE..] == old(buf[at + BLOCK_SIZE..])
  {
    var i := first;
    while i < BLOCK_SIZE
      invariant first <= i <= BLOCK_SIZE
      invariant buf[at..at + i] == old(buf[at..at + first]) + base[first..i]
      invariant buf[..at] == old(buf[..at]) && buf[at + BLOCK_SIZE..] == old(buf[at + BLOCK_SIZE..])
    {
      assert base[first..i + 1] == base[first..i] + [base[i]];
      PutByte(buf, at, i, base[i]);
      i := i + 1;
    }
  }

  /** Writes byte i of the block at `at`. */
  method PutByte(buf: array<Byte>, at: nat, i: nat, b: Byte)
    requires at + BLOCK_SIZE <= buf.Length && i < BLOCK_SIZE
    modifies buf
    ensures buf[at..at + i + 1] == old(buf[at..at + i]) + [b]
    ensures buf[..at] == old(buf[..at]) && buf[at + BLOCK_SIZE..] == old(buf[at + BLOCK_SIZE..])
  {
    buf[at + i] := b;
  }

  lemma NoBytes(base: seq<Byte>, goal: int)
    ensures Value([]) + Pow2(8 * 0) * goal == Value(base[..0]) + goal
  {}

  /** Byte `pos` of the key stream. */
  function KeyByte(cipher: Cipher, iv: Block, pos: nat): Byte
    requires pos < TWO64
  {
    cipher(Counter(iv, pos / BLOCK_SIZE))[pos % BLOCK_SIZE]
  }

  function StreamBytes(cipher: Cipher, iv: Block, pos: nat, n: nat): (r: seq<Byte>)
    requires pos + n <= TWO64
    ensures |r| == n
    ensures forall i | 0 <= i < n :: r[i] == KeyByte(cipher, iv, pos + i)
  {
    seq<Byte>(n, i requires 0 <= i < n => KeyByte(cipher, iv, pos + i))
  }

  /** On every 64-bit position the counter is the sum modulo 2^128. */
  lemma PositionCounter(iv: Block, pos: nat)
    requires pos < TWO64
    ensures Value(Counter(iv, pos / BLOCK_SIZE)) == (Value(iv) + pos / BLOCK_SIZE) % TWO128
  {
    CounterValue(iv, pos / BLOCK_SIZE);
  }

  /** A byte of the key stream is one of the cipher's output for the little-endian sum of the IV and the block number,
      at every 64-bit position. */
  lemma KeyByteIs(cipher: Cipher, iv: Block, pos: nat)
    requires pos < TWO64
    ensures KeyByte(cipher, iv, pos) == cipher(Bytes((Value(iv) + pos / 16) % TWO128, 16))[pos % 16]
  {
    hide Value, Bytes;
    CounterAddIsAddition(iv, pos / BLOCK_SIZE);
  }

  const GMAC_KEY_REFRESH_KEY_POS := 45000
  const GMAC_KEY_REFRESH_IV_OFFSET := 44910

  /** The index of the GMAC key at a key position */
  function GmacKeyIndex(keyPos: nat): nat {
    (if keyPos > 0 then keyPos - 1 else 0) / GMAC_KEY_REFRESH_KEY_POS
  }

  /** So it is for both counters that chiaki_gkcrypt_gmac needs at any 64-bit position, that of the position itself and
      that of the GMAC key, whose offset does not wrap either. */
  lemma GmacCounters(iv: Block, keyPos: nat)
    requires keyPos < TWO64
    ensures Value(Counter(iv, keyPos / 0x10)) == (Value(iv) + keyPos / 0x10) % TWO128
    ensures var offset := GmacKeyIndex(keyPos) * GMAC_KEY_REFRESH_IV_OFFSET;
      offset <= TWO64 - 0x100 && Value(Counter(iv, offset)) == (Value(iv) + offset) % TWO128
  {
    hide Counter, CounterSum, Value;
    PositionCounter(iv, keyPos);
    var offset := GmacKeyIndex(keyPos) * GMAC_KEY_REFRESH_IV_OFFSET;
    CounterValue(iv, offset);
  }

  lemma CounterValue(iv: Block, v: nat)
    requires v <= TWO64 - 0x100
    ensures Value(Counter(iv, v)) == (Value(iv) + v) % TWO128
  {
    hide Value, CounterSum;
    CounterAddIsAddition(iv, v);
    assert Pow2(8 * 16) == TWO128 by { Pow2Values(); Pow2Add(64, 64); }
    ValueOfBytes(CounterSum(iv, v), 16);
  }

  lemma {:induction false} ValueOfBytes(v: nat, n: nat)
    requires v < Pow2(8 * n)
    ensures Value(Bytes(v, n)) == v
  {
    hide Pow2;
    if n > 0 {
      Pow2Byte(n - 1);
      ValueOfBytes(v / 0x100, n - 1);
      assert Bytes(v, n)[1..] == Bytes(v / 0x100, n - 1);
    } else {
      assert Pow2(0) == 1 by { Pow2Values(); }
    }
  }

  /** `n` consecutive counters. */
  ghost function CounterBytes(iv: Block, first: nat, n: nat): (r: seq<Byte>)
    requires first + n <= TWO64
    ensures |r| == BLOCK_SIZE * n
  {
    if n == 0 then [] else CounterBytes(iv, first, n - 1) + Counter(iv, first + n - 1)
  }

  lemma {:induction false} CounterBlock(iv: Block, first: nat, n: nat, k: nat)
    requires first + n <= TWO64 && k < n
    ensures CounterBytes(iv, first, n)[BLOCK_SIZE * k..BLOCK_SIZE * (k + 1)] == Counter(iv, first + k)
  {
    hide Counter;
    if k < n - 1 {
      CounterBlock(iv, first, n - 1, k);
      assert CounterBytes(iv, first, n)[BLOCK_SIZE * k..BLOCK_SIZE * (k + 1)]
        == CounterBytes(iv, first, n - 1)[BLOCK_SIZE * k..BLOCK_SIZE * (k + 1)];
    }
  }

  lemma KeyStreamBlock(cipher: Cipher, iv: Block, keyPos: nat, k: nat)
    requires keyPos % BLOCK_SIZE == 0 && keyPos + BLOCK_SIZE * (k + 1) <= TWO64
    ensures StreamBytes(cipher, iv, keyPos, BLOCK_SIZE * (k + 1))
      == StreamBytes(cipher, iv, keyPos, BLOCK_SIZE * k) + cipher(Counter(iv, keyPos / BLOCK_SIZE + k))
  {
    hide Counter;
    var block := cipher(Counter(iv, keyPos / BLOCK_SIZE + k));
    var i0 := BLOCK_SIZE * k;
    forall j | 0 <= j < BLOCK_SIZE ensures KeyByte(cipher, iv, keyPos + i0 + j) == block[j] {
      assert (keyPos + i0 + j) / BLOCK_SIZE == keyPos / BLOCK_SIZE + k && (keyPos + i0 + j) % BLOCK_SIZE == j;
    }
  }

  /** chiaki_gkcrypt_gen_key_stream into `size` bytes at `at`: the counters first, then AES on each block in place. */
  method GenKeyStream(cipher: Cipher, iv: Block, keyPos: nat, buf: array<Byte>, at: nat, size: nat)
    requires keyPos % BLOCK_SIZE == 0 && size % BLOCK_SIZE == 0
    requires keyPos + size <= TWO64 && at + size <= buf.Length
    modifies buf
    ensures buf[at..at + size] == StreamBytes(cipher, iv, keyPos, size)
    ensures buf[..at] == old(buf[..at]) && buf[at + size..] == old(buf[at + size..])
  {
    hide Counter, CounterBytes, StreamBytes;
    WriteCounters(iv, keyPos, buf, at, size);
    ghost var first, n := keyPos / BLOCK_SIZE, size / BLOCK_SIZE;
    ghost var k: nat := 0;
    var i := 0;
    assert size == BLOCK_SIZE * n;
    NoKeyStream(cipher, iv, keyPos);
    while i < size
      invariant i == BLOCK_SIZE * k && k <= n
      invariant buf[at..at + i] == StreamBytes(cipher, iv, keyPos, i)
      invariant buf[at + i..at + size] == CounterBytes(iv, first, n)[i..]
      invariant buf[..at] == old(buf[..at]) && buf[at + size..] == old(buf[at + size..])
    {
      EncryptNext(cipher, iv, keyPos, buf, at, size, i, k);
      i := i + BLOCK_SIZE;
      k := k + 1;
    }
  }

  /** One turn of its second loop */
  method EncryptNext(cipher: Cipher, iv: Block, keyPos: nat, buf: array<Byte>, at: nat, size: nat, i: nat, ghost k: nat)
    requires keyPos % BLOCK_SIZE == 0 && size % BLOCK_SIZE == 0 && i == BLOCK_SIZE * k < size
    requires keyPos + size <= TWO64 && at + size <= buf.Length
    requires buf[at..at + i] == StreamBytes(cipher, iv, keyPos, i)
    requires buf[at + i..at + size] == CounterBytes(iv, keyPos / BLOCK_SIZE, size / BLOCK_SIZE)[i..]
    modifies buf
    ensures buf[at..at + i + BLOCK_SIZE] == StreamBytes(cipher, iv, keyPos, i + BLOCK_SIZE)
    ensures buf[at + i + BLOCK_SIZE..at + size]
         == CounterBytes(iv, keyPos / BLOCK_SIZE, size / BLOCK_SIZE)[i + BLOCK_SIZE..]
    ensures buf[..at] == old(buf[..at]) && buf[at + size..] == old(buf[at + size..])
  {
    hide Counter, CounterBytes, StreamBytes, KeyByte;
    ghost var first, n := keyPos / BLOCK_SIZE, size / BLOCK_SIZE;
    CounterBlock(iv, first, n, k);
    KeyStreamBlock(cipher, iv, keyPos, k);
    assert buf[at + i..at + i + BLOCK_SIZE] == buf[at + i..at + size][..BLOCK_SIZE] == Counter(iv, first + k);
    EncryptBlockIn(cipher, buf, at, i, size);
    assert CounterBytes(iv, first, n)[i + BLOCK_SIZE..] == CounterBytes(iv, first, n)[i..][BLOCK_SIZE..];
  }

  lemma NoKeyStream(cipher: Cipher, iv: Block, keyPos: nat)
    requires keyPos <= TWO64
    ensures StreamBytes(cipher, iv, keyPos, 0) == []
  {}

  /** The loop that fills the area with counters. */
  method WriteCounters(iv: Block, keyPos: nat, buf: array<Byte>, at: nat, size: nat)
    requires keyPos % BLOCK_SIZE == 0 && size % BLOCK_SIZE == 0
    requires keyPos + size <= TWO64 && at + size <= buf.Length
    modifies buf
    ensures buf[at..at + size] == CounterBytes(iv, keyPos / BLOCK_SIZE, size / BLOCK_SIZE)
    ensures buf[..at] == old(buf[..at]) && buf[at + size..] == old(buf[at + size..])
  {
    hide Counter, CounterBytes;
    NoCounterBytes(iv, keyPos / BLOCK_SIZE);
    var counterOffset := keyPos / BLOCK_SIZE;
    ghost var k: nat := 0;
    var cur := 0;
    while cur < size
      invariant cur == BLOCK_SIZE * k && k <= size / BLOCK_SIZE && counterOffset == keyPos / BLOCK_SIZE + k
      invariant buf[at..at + cur] == CounterBytes(iv, keyPos / BLOCK_SIZE, k)
      invariant buf[..at] == old(buf[..at]) && buf[at + size..] == old(buf[at + size..])
    {
      ghost var before := buf[..];
      CounterAdd(buf, at + cur, iv, counterOffset);
      BlockReplaced(before, buf[..], at, cur, size);
      NextCounterBytes(iv, keyPos / BLOCK_SIZE, k);
      counterOffset := counterOffset + 1;
      cur := cur + BLOCK_SIZE;
      k := k + 1;
    }
  }

  lemma NoCounterBytes(iv: Block, first: nat)
    requires first <= TWO64
    ensures CounterBytes(iv, first, 0) == []
  {}

  lemma NextCounterBytes(iv: Block, first: nat, n: nat)
    requires first + n < TWO64
    ensures CounterBytes(iv, first, n + 1) == CounterBytes(iv, first, n) + Counter(iv, first + n)
  {}

  /** One block of an area changes: what is in front of it in the area, and outside, stays. */
  lemma BlockReplaced(was: seq<Byte>, now: seq<Byte>, at: nat, cur: nat, size: nat)
    requires cur + BLOCK_SIZE <= size && at + size <= |was| == |now|
    requires now[..at + cur] == was[..at + cur] && now[at + cur + BLOCK_SIZE..] == was[at + cur + BLOCK_SIZE..]
    ensures now[at..at + cur + BLOCK_SIZE] == was[at..at + cur] + now[at + cur..at + cur + BLOCK_SIZE]
    ensures now[at + cur + BLOCK_SIZE..at + size] == was[at + cur..at + size][BLOCK_SIZE..]
    ensures now[..at] == was[..at] && now[at + size..] == was[at + size..]
  {
    assert now[..at] == now[..at + cur][..at] && was[..at] == was[..at + cur][..at];
    assert now[at..at + cur] == now[..at + cur][at..] && was[at..at + cur] == was[..at + cur][at..];
    var d := size - cur - BLOCK_SIZE;
    assert now[at + size..] == now[at + cur + BLOCK_SIZE..][d..];
    assert was[at + size..] == was[at + cur + BLOCK_SIZE..][d..];
    assert now[at + cur + BLOCK_SIZE..at + size] == now[at + cur + BLOCK_SIZE..][..d];
    assert was[at + cur + BLOCK_SIZE..at + size] == was[at + cur + BLOCK_SIZE..][..d];
  }

  /** AES on the block `i` bytes into an area. */
  method EncryptBlockIn(cipher: Cipher, buf: array<Byte>, at: nat, i: nat, size: nat)
    requires i + BLOCK_SIZE <= size && at + size <= buf.Length
    modifies buf
    ensures buf[at..at + i + BLOCK_SIZE]
      == old(buf[at..at + i]) + cipher(old(buf[at + i..at + i + BLOCK_SIZE]))
    ensures buf[at + i + BLOCK_SIZE..at + size] == old(buf[at + i..at + size][BLOCK_SIZE..])
    ensures buf[..at] == old(buf[..at]) && buf[at + size..] == old(buf[at + size..])
  {
    ghost var was := buf[..];
    EncryptBlock(cipher, buf, at + i);
    BlockReplaced(was, buf[..], at, i, size);
  }

  /** AES on one block in place. */
  method EncryptBlock(cipher: Cipher, buf: array<Byte>, at: nat)
    requires at + BLOCK_SIZE <= buf.Length
    modifies buf
    ensures buf[at..at + BLOCK_SIZE] == cipher(old(buf[at..at + BLOCK_SIZE]))
    ensures buf[..at] == old(buf[..at]) && buf[at + BLOCK_SIZE..] == old(buf[at + BLOCK_SIZE..])
  {
    var block := cipher(buf[at..at + BLOCK_SIZE]);
    var i := 0;
    while i < BLOCK_SIZE
      invariant 0 <= i <= BLOCK_SIZE
      invariant buf[at..at + i] == block[..i]
      invariant buf[..at] == old(buf[..at]) && buf[at + BLOCK_SIZE..] == old(buf[at + BLOCK_SIZE..])
    {
      buf[at + i] := block[i];
      i := i + 1;
    }
  }

  /** Exclusive or of the n low bits. */
  function Xor(a: nat, b: nat, n: nat): (r: nat)
    ensures r < Pow2(n)
  {
    if n == 0 then 0 else (a + b) % 2 + 2 * Xor(a / 2, b / 2, n - 1)
  }

  lemma {:induction false} XorTwice(a: nat, b: nat, n: nat)
    requires a < Pow2(n)
    ensures Xor(Xor(a, b, n), b, n) == a
  {
    if n > 0 {
      var x, rest := Xor(a, b, n), Xor(a / 2, b / 2, n - 1);
      XorTwice(a / 2, b / 2, n - 1);
      Halves((a + b) % 2, rest);
      assert x / 2 == rest && x % 2 == (a + b) % 2;
      assert Xor(x, b, n) == (x + b) % 2 + 2 * Xor(rest, b / 2, n - 1);
      Parity(a, b);
    }
  }

  lemma Halves(bit: nat, rest: nat)
    requires bit < 2
    ensures (bit + 2 * rest) / 2 == rest && (bit + 2 * rest) % 2 == bit
  {}

  lemma Parity(a: nat, b: nat)
    ensures forall x: nat | x % 2 == (a + b) % 2 :: (x + b) % 2 == a % 2
  {}

  /** Bit j of a number */
  predicate Bit(v: nat, j: nat) {
    v / Pow2(j) % 2 == 1
  }

  lemma NextBit(v: nat, j: nat)
    ensures Bit(v, 0) <==> v % 2 == 1
    ensures Bit(v, j + 1) <==> Bit(v / 2, j)
  {
    var p := Pow2(j);
    var q, r := v / 2 / p, v / 2 % p;
    assert v == (2 * p) * q + (2 * r + v % 2) by { assert v / 2 == p * q + r; }
    DivisionIs(v, 2 * p, q, 2 * r + v % 2);
    assert Pow2(0) == 1;
  }

  lemma {:induction false} XorBit(a: nat, b: nat, n: nat, j: nat)
    requires j < n
    ensures Bit(Xor(a, b, n), j) <==> Bit(a, j) != Bit(b, j)
    decreases j
  {
    hide Bit, Pow2;
    var rest := Xor(a / 2, b / 2, n - 1);
    Halves((a + b) % 2, rest);
    assert Xor(a, b, n) / 2 == rest && Xor(a, b, n) % 2 == (a + b) % 2;
    hide Xor;
    var i := if j == 0 then 0 else j - 1;
    NextBit(a, i);
    NextBit(b, i);
    NextBit(Xor(a, b, n), i);
    if j > 0 { XorBit(a / 2, b / 2, n - 1, j - 1); }
  }

  /** Bit by bit, `out` is the exclusive or of `data` and `key`. */
  ghost predicate IsXor(out: seq<Byte>, data: seq<Byte>, key: seq<Byte>) {
    && |out| == |data| == |key|
    && forall i, j: nat | 0 <= i < |out| && j < 8 :: Bit(out[i], j) <==> Bit(data[i], j) != Bit(key[i], j)
  }

  function XorByte(a: Byte, b: Byte): Byte {
    assert Pow2(8) == 0x100 by { Pow2Values(); }
    Xor(a, b, 8)
  }

  /** What chiaki_gkcrypt_decrypt, which is also encrypt, makes of `data` at a key position. */
  function Decrypted(cipher: Cipher, iv: Block, pos: nat, data: seq<Byte>): (r: seq<Byte>)
    requires pos + |data| <= TWO64
    ensures |r| == |data|
  {
    seq<Byte>(|data|, (i: nat) requires i < |data| => XorByte(data[i], KeyByte(cipher, iv, pos + i)))
  }

  lemma DecryptedNext(cipher: Cipher, iv: Block, pos: nat, data: seq<Byte>, i: nat)
    requires i < |data| && pos + |data| <= TWO64
    ensures Decrypted(cipher, iv, pos, data[..i + 1])
         == Decrypted(cipher, iv, pos, data[..i]) + [XorByte(data[i], KeyByte(cipher, iv, pos + i))]
  {
    hide XorByte, KeyByte;
  }

  lemma NothingDecrypted(cipher: Cipher, iv: Block, pos: nat)
    requires pos <= TWO64
    ensures Decrypted(cipher, iv, pos, []) == []
  {}

  /** It is exclusive or with the key stream, so of zeros it makes the key stream itself. */
  lemma DecryptedIsXor(cipher: Cipher, iv: Block, pos: nat, data: seq<Byte>)
    requires pos + |data| <= TWO64
    ensures IsXor(Decrypted(cipher, iv, pos, data), data, StreamBytes(cipher, iv, pos, |data|))
    ensures (forall b <- data :: b == 0) ==> Decrypted(cipher, iv, pos, data) == StreamBytes(cipher, iv, pos, |data|)
  {
    hide Xor, Bit, KeyByte;
    var r, key := Decrypted(cipher, iv, pos, data), StreamBytes(cipher, iv, pos, |data|);
    forall i, j: nat | 0 <= i < |data| && j < 8 ensures Bit(r[i], j) <==> Bit(data[i], j) != Bit(key[i], j) {
      XorBit(data[i], key[i], 8, j);
    }
    if forall b <- data :: b == 0 {
      forall i | 0 <= i < |data| ensures r[i] == key[i] {
        assert data[i] in data;
        Pow2Values();
        XorZero(key[i], 8);
      }
    }
  }

  lemma {:induction false} XorZero(b: nat, n: nat)
    requires b < Pow2(n)
    ensures Xor(0, b, n) == b
  {
    if n > 0 { XorZero(b / 2, n - 1); }
  }

  /** Decryption is its own inverse. */
  lemma DecryptInvolution(cipher: Cipher, iv: Block, pos: nat, data: seq<Byte>)
    requires pos + |data| <= TWO64
    ensures Decrypted(cipher, iv, pos, Decrypted(cipher, iv, pos, data)) == data
  {
    hide Xor;
    var r := Decrypted(cipher, iv, pos, Decrypted(cipher, iv, pos, data));
    forall i | 0 <= i < |data| ensures r[i] == data[i] {
      Pow2Values();
      XorTwice(data[i], KeyByte(cipher, iv, pos + i), 8);
    }
  }

  /** Decrypting the pieces of a buffer, split anywhere, is decrypting the whole. */
  lemma DecryptSplit(cipher: Cipher, iv: Block, pos: nat, a: seq<Byte>, b: seq<Byte>)
    requires pos + |a| + |b| <= TWO64
    ensures Decrypted(cipher, iv, pos, a + b) == Decrypted(cipher, iv, pos, a) + Decrypted(cipher, iv, pos + |a|, b)
  {
    hide XorByte, KeyByte;
  }
}
