/** The key stream cache of lib/src/gkcrypt.c: a ring of key stream bytes that a background thread extends
    chunk by chunk, writing each chunk with the lock released. A step is what happens under one hold of the
    lock, or one unlocked write; readers and the generator interleave in any way. */
module KeyCache {
  import opened Octets
  import opened Memory
  import opened Powers
  import opened KeyStream

  const CHUNK := 0x1000

  /** What the generator thread is doing: waiting for the lock or for work, writing the chunk for key position
      `keyPos` at `offset` without the lock, or gone. */
  datatype Job = Idle | Writing(offset: nat, keyPos: nat) | Stopped

  datatype Cache = Cache(buf: seq<Byte>, populated: nat, keyPosMin: nat, startOffset: nat, lastKeyPos: nat, job: Job) {
    function Size(): nat { |buf| }

    /** gkcrypt_key_buf_should_generate */
    predicate ShouldGenerate() {
      lastKeyPos > keyPosMin + populated / 2
    }

    /** key_buf_mutex_pred, while the session runs */
    predicate HasWork() {
      populated < Size() || ShouldGenerate()
    }
  }

  function Init(buf: seq<Byte>): Cache {
    Cache(buf, 0, 0, 0, 0, Idle)
  }

  /** The bytes a reader copies out of the ring: from the offset of `pos`, wrapping around its end. */
  function RingBytes(c: Cache, pos: nat, n: nat): seq<Byte>
    requires c.keyPosMin <= pos && n <= c.Size() && c.Size() > 0
  {
    var offset := (pos - c.keyPosMin + c.startOffset) % c.Size();
    if offset + n > c.Size() then
      c.buf[offset..] + c.buf[..offset + n - c.Size()]
    else
      c.buf[offset..offset + n]
  }

  predicate InBuffer(c: Cache, pos: nat, n: nat) {
    !(pos < c.keyPosMin || pos + n >= c.keyPosMin + c.populated)
  }

  /** The chunk-sized window [offset, offset + CHUNK) replaced. */
  function WithChunk(buf: seq<Byte>, offset: nat, chunk: seq<Byte>): (r: seq<Byte>)
    requires |chunk| == CHUNK && offset + CHUNK <= |buf|
    ensures |r| == |buf|
  {
    buf[..offset] + chunk + buf[offset + CHUNK..]
  }

  /** The generator's bookkeeping before a chunk: skip ahead past what was requested, or evict the oldest chunk. */
  function Prepare(c: Cache): Cache
    requires c.Size() > 0
  {
    if c.lastKeyPos > c.keyPosMin + c.populated then
      c.(keyPosMin := (c.lastKeyPos / CHUNK) * CHUNK, startOffset := 0, populated := 0)
    else if c.populated == c.Size() && c.populated >= CHUNK then
      c.(startOffset := (c.startOffset + CHUNK) % c.Size(), keyPosMin := c.keyPosMin + CHUNK,
         populated := c.populated - CHUNK)
    else
      c
  }

  function BeginChunk(c: Cache): Cache
    requires c.Size() > 0
  {
    var p := Prepare(c);
    p.(job := Writing((p.startOffset + p.populated) % p.Size(), p.keyPosMin + p.populated))
  }

  datatype Step =
    | Read(pos: nat, n: nat)        // get_key_stream, the part under the lock
    | Begin                         // the generator wakes up and prepares a chunk
    | Scribble(chunk: seq<Byte>)    // the unlocked area holds counters or anything else
    | Finish                        // the chunk is complete and the lock is taken again
    | Fail                          // generating failed, the thread leaves

  /** Positions are 64-bit: requests end below 2^64 by more than the cache can run ahead. */
  predicate InRange(c: Cache, pos: nat, n: nat) {
    pos + n + 2 * CHUNK + c.Size() <= TWO64
  }

  predicate Enabled(c: Cache, step: Step) {
    match step
    case Read(pos, n) => InRange(c, pos, n)
    case Begin => c.job == Idle && c.HasWork()
    case Scribble(chunk) => c.job.Writing? && |chunk| == CHUNK && c.job.offset + CHUNK <= c.Size()
    case Finish => c.job.Writing? && c.job.offset + CHUNK <= c.Size() && c.job.keyPos + CHUNK <= TWO64
    case Fail => c.job.Writing?
  }

  function Apply(c: Cache, cipher: Cipher, iv: Block, step: Step): Cache
    requires c.Size() > 0 && Enabled(c, step)
  {
    match step
    case Read(pos, n) => c.(lastKeyPos := if pos + n > c.lastKeyPos then pos + n else c.lastKeyPos)
    case Begin => BeginChunk(c)
    case Scribble(chunk) => c.(buf := WithChunk(c.buf, c.job.offset, chunk))
    case Finish =>
      c.(buf := WithChunk(c.buf, c.job.offset, StreamBytes(cipher, iv, c.job.keyPos, CHUNK)),
         populated := c.populated + CHUNK, job := Idle)
    case Fail => c.(job := Stopped)
  }

  /** Ring slot of the i-th byte after `start`. */
  function Slot(start: nat, size: nat, i: nat): (k: nat)
    requires size > 0
    ensures k < size
  {
    (start + i) % size
  }

  ghost predicate Aligned(n: nat) {
    n % CHUNK == 0
  }

  ghost predicate Shape(c: Cache) {
    && c.Size() > 0 && Aligned(c.Size())
    && Aligned(c.startOffset) && c.startOffset < c.Size()
    && Aligned(c.populated) && c.populated <= c.Size()
    && Aligned(c.keyPosMin)
    && c.keyPosMin <= c.lastKeyPos + CHUNK
    && c.lastKeyPos + 2 * CHUNK + c.Size() <= TWO64
  }

  /** Every populated byte is the key stream byte of its position. */
  ghost predicate Agrees(c: Cache, cipher: Cipher, iv: Block)
    requires Shape(c)
  {
    forall i | 0 <= i < c.populated ::
      c.buf[Slot(c.startOffset, c.Size(), i)] == KeyByte(cipher, iv, c.keyPosMin + i)
  }

  /** The chunk being written lies right behind the populated part, which leaves room for it. */
  ghost predicate JobInv(c: Cache)
    requires Shape(c)
  {
    c.job.Writing? ==>
      && c.populated + CHUNK <= c.Size()
      && c.job.offset == Slot(c.startOffset, c.Size(), c.populated) && c.job.offset + CHUNK <= c.Size()
      && c.job.keyPos == c.keyPosMin + c.populated
  }

  ghost predicate Inv(c: Cache, cipher: Cipher, iv: Block) {
    Shape(c) && Agrees(c, cipher, iv) && JobInv(c)
  }

  lemma WrapOnce(a: nat, n: nat)
    requires n > 0 && a < 2 * n
    ensures a % n == if a < n then a else a - n
  {
    if a >= n { assert (a - n) % n == a - n; assert a == n * 1 + (a - n); }
  }

  lemma SlotCases(start: nat, size: nat, i: nat)
    requires start < size && i <= size
    ensures Slot(start, size, i) == if start + i < size then start + i else start + i - size
  {
    WrapOnce(start + i, size);
  }

  lemma AlignedFacts(a: nat, b: nat)
    requires Aligned(a) && Aligned(b)
    ensures Aligned(a + b) && Aligned(a + CHUNK) && (a >= b ==> Aligned(a - b))
    ensures a < b ==> a + CHUNK <= b
    ensures Aligned(0) && Aligned(CHUNK)
  {}

  lemma AlignedDown(n: nat)
    ensures Aligned(n / CHUNK * CHUNK) && n / CHUNK * CHUNK <= n
  {}

  /** The chunk behind the populated part does not wrap and holds none of the populated bytes. */
  lemma ChunkSlots(start: nat, size: nat, populated: nat)
    requires start < size && populated + CHUNK <= size && Aligned(start) && Aligned(size) && Aligned(populated)
    ensures Slot(start, size, populated) + CHUNK <= size
    ensures forall j | populated <= j < populated + CHUNK ::
      Slot(start, size, j) == Slot(start, size, populated) + (j - populated)
    ensures forall i | 0 <= i < populated ::
      !(Slot(start, size, populated) <= Slot(start, size, i) < Slot(start, size, populated) + CHUNK)
  {
    hide Slot, Aligned;
    SlotCases(start, size, populated);
    AlignedFacts(start, populated);
    AlignedFacts(start + populated, size);
    assert Slot(start, size, populated) + CHUNK <= size by {
      AlignedFacts(Slot(start, size, populated), size);
    }
    forall j | populated <= j < populated + CHUNK
      ensures Slot(start, size, j) == Slot(start, size, populated) + (j - populated)
    {
      SlotCases(start, size, j);
    }
    forall i | 0 <= i < populated
      ensures !(Slot(start, size, populated) <= Slot(start, size, i) < Slot(start, size, populated) + CHUNK)
    {
      SlotCases(start, size, i);
    }
  }

  lemma InitInv(buf: seq<Byte>, cipher: Cipher, iv: Block)
    requires |buf| > 0 && |buf| % CHUNK == 0 && |buf| + 2 * CHUNK <= TWO64
    ensures Inv(Init(buf), cipher, iv)
  {}

  /** The assertion in gkcrypt_generate_next_chunk never fails: after the bookkeeping there is room for a chunk. */
  lemma RoomForChunk(c: Cache)
    requires Shape(c) && c.HasWork()
    ensures Shape(Prepare(c)) && Prepare(c).populated + CHUNK <= c.Size()
  {
    hide Aligned;
    AlignedFacts(c.populated, c.Size());
    AlignedFacts(c.Size(), c.populated);
    AlignedFacts(0, c.Size());
    if c.lastKeyPos > c.keyPosMin + c.populated {
      AlignedDown(c.lastKeyPos);
    } else if c.populated == c.Size() {
      WrapOnce(c.startOffset + CHUNK, c.Size());
      AlignedFacts(c.startOffset, c.Size());
      AlignedFacts(c.startOffset + CHUNK, c.Size());
      AlignedFacts(c.populated, CHUNK);
      AlignedFacts(c.keyPosMin, CHUNK);
    }
  }

  lemma BeginInv(c: Cache, cipher: Cipher, iv: Block)
    requires Inv(c, cipher, iv) && Enabled(c, Begin)
    ensures Inv(Apply(c, cipher, iv, Begin), cipher, iv)
  {
    hide Slot, KeyByte, Aligned;
    var p := Prepare(c);
    RoomForChunk(c);
    ChunkSlots(p.startOffset, p.Size(), p.populated);
    if p.populated > 0 && p != c {
      forall i | 0 <= i < p.populated
        ensures p.buf[Slot(p.startOffset, p.Size(), i)] == KeyByte(cipher, iv, p.keyPosMin + i)
      {
        WrapOnce(c.startOffset + CHUNK, c.Size());
        SlotCases(p.startOffset, p.Size(), i);
        SlotCases(c.startOffset, c.Size(), i + CHUNK);
        assert p.buf[Slot(p.startOffset, p.Size(), i)] == c.buf[Slot(c.startOffset, c.Size(), i + CHUNK)];
      }
    }
    assert (p.startOffset + p.populated) % p.Size() == Slot(p.startOffset, p.Size(), p.populated) by { SlotIsMod(p); }
  }

  lemma SlotIsMod(c: Cache)
    requires c.Size() > 0
    ensures (c.startOffset + c.populated) % c.Size() == Slot(c.startOffset, c.Size(), c.populated)
  {}

  lemma ScribbleInv(c: Cache, cipher: Cipher, iv: Block, chunk: seq<Byte>)
    requires Inv(c, cipher, iv) && Enabled(c, Scribble(chunk))
    ensures Inv(Apply(c, cipher, iv, Scribble(chunk)), cipher, iv)
  {
    hide KeyByte, Slot, Aligned;
    ChunkSlots(c.startOffset, c.Size(), c.populated);
  }

  lemma FinishInv(c: Cache, cipher: Cipher, iv: Block)
    requires Inv(c, cipher, iv) && c.job.Writing?
    ensures Enabled(c, Finish) && Inv(Apply(c, cipher, iv, Finish), cipher, iv)
  {
    hide KeyByte, Slot, Aligned;
    ChunkSlots(c.startOffset, c.Size(), c.populated);
    AlignedFacts(c.populated, c.populated);
    assert Enabled(c, Finish);
    var t := Apply(c, cipher, iv, Finish);
    forall i | 0 <= i < t.populated
      ensures t.buf[Slot(t.startOffset, t.Size(), i)] == KeyByte(cipher, iv, t.keyPosMin + i)
    {
      if i >= c.populated {
        assert Slot(c.startOffset, c.Size(), i) == c.job.offset + (i - c.populated);
        assert c.keyPosMin + i == c.job.keyPos + (i - c.populated);
      }
    }
  }

  /** What get_key_stream returns in state `c`: the cached bytes, or a direct computation. */
  function Answer(c: Cache, cipher: Cipher, iv: Block, pos: nat, n: nat): seq<Byte>
    requires c.Size() > 0 && c.populated <= c.Size() && pos + n <= TWO64
  {
    if InBuffer(c, pos, n) then RingBytes(c, pos, n) else StreamBytes(cipher, iv, pos, n)
  }

  /** Byte `k` of the copy comes from the ring slot of its position. */
  lemma RingByteAt(c: Cache, pos: nat, n: nat, k: nat)
    requires Shape(c) && InBuffer(c, pos, n) && k < n
    ensures |RingBytes(c, pos, n)| == n
    ensures RingBytes(c, pos, n)[k] == c.buf[Slot(c.startOffset, c.Size(), pos - c.keyPosMin + k)]
  {
    hide Aligned, RingBytes, Slot;
    RingBytesAre(c, pos, n);
    SlotCases(c.startOffset, c.Size(), pos - c.keyPosMin);
    SlotCases(c.startOffset, c.Size(), pos - c.keyPosMin + k);
  }

  lemma RingBytesAre(c: Cache, pos: nat, n: nat)
    requires Shape(c) && InBuffer(c, pos, n)
    ensures var offset := Slot(c.startOffset, c.Size(), pos - c.keyPosMin);
      RingBytes(c, pos, n) == if offset + n > c.Size() then c.buf[offset..] + c.buf[..offset + n - c.Size()]
                              else c.buf[offset..offset + n]
  {
    hide Aligned;
  }

  /** Cached or not, a reader gets exactly the bytes that direct generation would give. */
  lemma AnswerAgrees(c: Cache, cipher: Cipher, iv: Block, pos: nat, n: nat)
    requires Inv(c, cipher, iv) && pos + n <= TWO64
    ensures Answer(c, cipher, iv, pos, n) == StreamBytes(cipher, iv, pos, n)
  {
    hide Aligned, Slot, RingBytes, KeyByte;
    if InBuffer(c, pos, n) {
      assert |RingBytes(c, pos, n)| == n by { RingLength(c, pos, n); }
      forall k | 0 <= k < n ensures RingBytes(c, pos, n)[k] == StreamBytes(cipher, iv, pos, n)[k] {
        RingByteAt(c, pos, n, k);
        assert c.keyPosMin + (pos - c.keyPosMin + k) == pos + k;
      }
    }
  }

  lemma RingLength(c: Cache, pos: nat, n: nat)
    requires Shape(c) && InBuffer(c, pos, n)
    ensures |RingBytes(c, pos, n)| == n
  {}

  /** While a chunk is being written, no reader touches its area. */
  lemma ReaderAvoidsChunk(c: Cache, cipher: Cipher, iv: Block, pos: nat, n: nat, k: nat)
    requires Inv(c, cipher, iv) && c.job.Writing? && InBuffer(c, pos, n) && k < n
    ensures var slot := Slot(c.startOffset, c.Size(), pos - c.keyPosMin + k);
      !(c.job.offset <= slot < c.job.offset + CHUNK)
  {
    hide Aligned, Slot;
    ChunkSlots(c.startOffset, c.Size(), c.populated);
  }

  lemma StepInv(c: Cache, cipher: Cipher, iv: Block, step: Step)
    requires Inv(c, cipher, iv) && Enabled(c, step)
    ensures Inv(Apply(c, cipher, iv, step), cipher, iv)
  {
    match step
    case Begin => BeginInv(c, cipher, iv);
    case Scribble(chunk) => ScribbleInv(c, cipher, iv, chunk);
    case Finish => FinishInv(c, cipher, iv);
    case Read(_, _) =>
    case Fail =>
  }

  /** A run: any interleaving of readers with the generator, which may also fail at any time. */
  ghost predicate IsRun(cipher: Cipher, iv: Block, run: seq<Cache>, steps: seq<Step>) {
    && |run| == |steps| + 1
    && |run[0].buf| > 0 && |run[0].buf| % CHUNK == 0 && |run[0].buf| + 2 * CHUNK <= TWO64
    && run[0] == Init(run[0].buf)
    && forall n | 0 <= n < |steps| ::
         run[n].Size() > 0 && Enabled(run[n], steps[n]) && run[n + 1] == Apply(run[n], cipher, iv, steps[n])
  }

  /** Main result: at every moment of every run, any request that 64-bit positions allow is answered with the key
      stream itself; and whenever the generator has work there is room for the chunk it is about to write. */
  lemma {:induction false} CacheAgrees(cipher: Cipher, iv: Block, run: seq<Cache>, steps: seq<Step>, n: nat)
    requires IsRun(cipher, iv, run, steps) && n < |run|
    ensures Inv(run[n], cipher, iv)
    ensures forall pos: nat, m: nat | pos + m <= TWO64 ::
      Answer(run[n], cipher, iv, pos, m) == StreamBytes(cipher, iv, pos, m)
    ensures run[n].HasWork() ==> Prepare(run[n]).populated + CHUNK <= run[n].Size()
  {
    hide Inv, Answer, Prepare;
    if n == 0 {
      InitInv(run[0].buf, cipher, iv);
    } else {
      CacheAgrees(cipher, iv, run, steps, n - 1);
      StepInv(run[n - 1], cipher, iv, steps[n - 1]);
    }
    InvShape(run[n], cipher, iv);
    forall pos: nat, m: nat | pos + m <= TWO64
      ensures Answer(run[n], cipher, iv, pos, m) == StreamBytes(cipher, iv, pos, m)
    {
      AnswerAgrees(run[n], cipher, iv, pos, m);
    }
    if run[n].HasWork() { RoomForChunk(run[n]); }
  }

  /** One turn of the generator: with the last request ahead of the ring, the ring then holds one chunk that it ends in;
      otherwise one more chunk behind those it had, at the price of the oldest one only if it was full. */
  lemma TurnExtends(c: Cache, cipher: Cipher, iv: Block)
    requires Inv(c, cipher, iv) && c.job == Idle && c.HasWork()
    ensures var b := Apply(c, cipher, iv, Begin);
      && Enabled(b, Finish)
      && var t := Apply(b, cipher, iv, Finish);
         if c.lastKeyPos > c.keyPosMin + c.populated then
           t.populated == 0x1000 && t.keyPosMin <= c.lastKeyPos < t.keyPosMin + 0x1000 && t.keyPosMin % 0x1000 == 0
         else
           && t.keyPosMin + t.populated == c.keyPosMin + c.populated + 0x1000
           && t.keyPosMin == if c.populated == c.Size() then c.keyPosMin + 0x1000 else c.keyPosMin
  {
    hide Agrees, Slot, Aligned;
    BeginInv(c, cipher, iv);
    RoomForChunk(c);
    FinishInv(Apply(c, cipher, iv, Begin), cipher, iv);
    AlignedFacts(c.populated, c.Size());
    ChunkOf(c.lastKeyPos);
  }

  lemma ChunkOf(n: nat)
    ensures n / CHUNK * CHUNK <= n < n / CHUNK * CHUNK + 0x1000 && n / CHUNK * CHUNK % 0x1000 == 0
  {}

  /** It rests exactly when the ring is full and the last request ended in its first half, or before. */
  lemma RestsWhenAhead(c: Cache)
    requires Shape(c)
    ensures !c.HasWork() <==> c.populated == c.Size() && 2 * (c.lastKeyPos - c.keyPosMin) <= c.Size()
  {
    EvenSize(c.Size());
  }

  lemma EvenSize(n: nat)
    requires Aligned(n)
    ensures n == 2 * (n / 2)
  {
    assert n == CHUNK * (n / CHUNK);
  }

  lemma InvShape(c: Cache, cipher: Cipher, iv: Block)
    requires Inv(c, cipher, iv)
    ensures Shape(c)
  {}

  /** struct chiaki_gkcrypt_t, as far as the key stream is concerned. */
  class GkCrypt {
    const cipher: Cipher
    const iv: Block
    const keyBuf: array<Byte>
    const hasKeyBuf: bool
    var keyBufPopulated: nat
    var keyBufKeyPosMin: nat
    var keyBufStartOffset: nat
    var lastKeyPos: nat
    var job: Job

    ghost function View(): Cache
      reads this, keyBuf
    {
      Cache(keyBuf[..], keyBufPopulated, keyBufKeyPosMin, keyBufStartOffset, lastKeyPos, job)
    }

    ghost predicate Valid()
      reads this, keyBuf
    {
      hasKeyBuf ==> Inv(View(), cipher, iv)
    }

    /** chiaki_gkcrypt_init, with `chunks` == 0 for no cache. */
    constructor (cipher: Cipher, iv: Block, chunks: nat)
      requires chunks * CHUNK + 2 * CHUNK <= TWO64
      ensures Valid() && fresh(keyBuf) && hasKeyBuf == (chunks > 0)
    {
      this.cipher, this.iv := cipher, iv;
      hasKeyBuf := chunks > 0;
      keyBuf := new Byte[chunks * CHUNK](_ => 0);
      keyBufPopulated, keyBufKeyPosMin, keyBufStartOffset, lastKeyPos, job := 0, 0, 0, 0, Idle;
      new;
      if chunks > 0 { InitInv(keyBuf[..], cipher, iv); }
    }

    /** chiaki_gkcrypt_get_key_stream into the whole of `buf`: whether it signals the generator, and `cached` if the
        bytes come from the ring */
    method GetKeyStream(keyPos: nat, buf: array<Byte>) returns (signal: bool, ghost cached: bool)
      requires Valid() && buf != keyBuf
      requires keyPos % BLOCK_SIZE == 0 && buf.Length % BLOCK_SIZE == 0
      requires keyPos + buf.Length + 2 * CHUNK + keyBuf.Length <= TWO64
      modifies this`lastKeyPos, buf
      ensures Valid()
      ensures buf[..] == StreamBytes(cipher, iv, keyPos, buf.Length)
      ensures hasKeyBuf ==> View() == Apply(old(View()), cipher, iv, Read(keyPos, buf.Length))
      ensures signal == (hasKeyBuf && lastKeyPos > keyBufKeyPosMin + keyBufPopulated / 2)
      ensures hasKeyBuf && !old(View()).HasWork() ==> signal == View().HasWork()
      ensures cached ==
        (hasKeyBuf && keyBufKeyPosMin <= keyPos && keyPos + buf.Length < keyBufKeyPosMin + keyBufPopulated)
    {
      hide Inv, StreamBytes, RingBytes;
      signal, cached := false, false;
      if !hasKeyBuf {
        GenKeyStream(cipher, iv, keyPos, buf, 0, buf.Length);
        assert buf[0..buf.Length] == buf[..];
        return;
      }
      InvShape(View(), cipher, iv);
      StepInv(View(), cipher, iv, Read(keyPos, buf.Length));
      if keyPos + buf.Length > lastKeyPos {
        lastKeyPos := keyPos + buf.Length;
      }
      signal := lastKeyPos > keyBufKeyPosMin + keyBufPopulated / 2;
      AnswerAgrees(View(), cipher, iv, keyPos, buf.Length);
      if keyPos < keyBufKeyPosMin || keyPos + buf.Length >= keyBufKeyPosMin + keyBufPopulated {
        GenKeyStream(cipher, iv, keyPos, buf, 0, buf.Length);
        assert buf[0..buf.Length] == buf[..];
      } else {
        cached := true;
        CopyFromRing(keyPos, buf);
      }
    }

    /** The copy out of the ring. */
    method CopyFromRing(keyPos: nat, buf: array<Byte>)
      requires Shape(View()) && InBuffer(View(), keyPos, buf.Length) && buf != keyBuf
      modifies buf
      ensures View() == old(View()) && buf[..] == RingBytes(View(), keyPos, buf.Length)
    {
      hide Aligned;
      ghost var ring := keyBuf[..];
      var offsetInBuf := (keyPos - keyBufKeyPosMin + keyBufStartOffset) % keyBuf.Length;
      var end := offsetInBuf + buf.Length;
      ghost var c := View();
      assert RingBytes(c, keyPos, buf.Length)
          == if end > |ring| then ring[offsetInBuf..] + ring[..end - |ring|] else ring[offsetInBuf..end];
      CopyWrapping(offsetInBuf, buf);
    }

    method CopyWrapping(offsetInBuf: nat, buf: array<Byte>)
      requires offsetInBuf < keyBuf.Length && buf.Length <= keyBuf.Length && buf != keyBuf
      modifies buf
      ensures var ring, end := keyBuf[..], offsetInBuf + buf.Length;
        buf[..] == if end > |ring| then ring[offsetInBuf..] + ring[..end - |ring|] else ring[offsetInBuf..end]
    {
      var end := offsetInBuf + buf.Length;
      if end > keyBuf.Length {
        var excess := end - keyBuf.Length;
        Memcpy(buf, 0, keyBuf[offsetInBuf..]);
        Memcpy(buf, buf.Length - excess, keyBuf[..excess]);
      } else {
        Memcpy(buf, 0, keyBuf[offsetInBuf..end]);
      }
    }

    /** chiaki_gkcrypt_decrypt (and encrypt): fetches whole blocks around an unaligned position and XORs. */
    method Decrypt(keyPos: nat, buf: array<Byte>)
      requires Valid() && buf != keyBuf
      requires keyPos + buf.Length + BLOCK_SIZE + 2 * CHUNK + keyBuf.Length <= TWO64
      modifies this`lastKeyPos, buf
      ensures Valid()
      ensures buf[..] == Decrypted(cipher, iv, keyPos, old(buf[..]))
      ensures IsXor(buf[..], old(buf[..]), StreamBytes(cipher, iv, keyPos, buf.Length))
      ensures old(forall b <- buf[..] :: b == 0) ==> buf[..] == StreamBytes(cipher, iv, keyPos, buf.Length)
    {
      hide Inv, KeyByte, XorByte, IsXor, Decrypted, StreamBytes;
      DecryptedIsXor(cipher, iv, keyPos, buf[..]);
      ghost var was := buf[..];
      var paddingPre := keyPos % BLOCK_SIZE;
      var fullSize := ((paddingPre + buf.Length + BLOCK_SIZE - 1) / BLOCK_SIZE) * BLOCK_SIZE;
      assert (keyPos - paddingPre) % BLOCK_SIZE == 0;
      assert paddingPre + buf.Length <= fullSize < paddingPre + buf.Length + BLOCK_SIZE;
      var keyStream := new Byte[fullSize](_ => 0);
      var _, _ := GetKeyStream(keyPos - paddingPre, keyStream);
      NothingDecrypted(cipher, iv, keyPos);
      var i := 0;
      while i < buf.Length
        invariant 0 <= i <= buf.Length && Valid()
        invariant keyStream[..] == StreamBytes(cipher, iv, keyPos - paddingPre, fullSize)
        invariant buf[i..] == was[i..]
        invariant buf[..i] == Decrypted(cipher, iv, keyPos, was[..i])
      {
        assert keyStream[paddingPre + i] == keyStream[..][paddingPre + i] == KeyByte(cipher, iv, keyPos + i);
        assert buf[i] == buf[i..][0] == was[i];
        assert buf[i + 1..] == buf[i..][1..] == was[i..][1..] == was[i + 1..];
        DecryptedNext(cipher, iv, keyPos, was, i);
        buf[i] := XorByte(buf[i], keyStream[paddingPre + i]);
        assert buf[..i + 1] == buf[..i] + [buf[i]];
        i := i + 1;
      }
      assert was[..i] == was && buf[..i] == buf[..];
    }

    /** The generator's bookkeeping under the lock, up to where generate_next_chunk releases it. */
    method BeginChunk()
      requires Valid() && hasKeyBuf && job == Idle && View().HasWork()
      modifies this
      ensures Valid() && View() == Apply(old(View()), cipher, iv, Begin)
    {
      hide Inv, Shape, Prepare;
      InvShape(View(), cipher, iv);
      RoomForChunk(View());
      StepInv(View(), cipher, iv, Begin);
      PrepareChunk();
      assert keyBufPopulated + CHUNK <= keyBuf.Length;
      job := Writing((keyBufStartOffset + keyBufPopulated) % keyBuf.Length, keyBufKeyPosMin + keyBufPopulated);
    }

    /** The bookkeeping before a chunk: skipping ahead, or dropping the oldest one */
    method PrepareChunk()
      requires Shape(View())
      modifies this`keyBufKeyPosMin, this`keyBufStartOffset, this`keyBufPopulated
      ensures View() == Prepare(old(View()))
    {
      hide Aligned;
      AlignedFacts(keyBuf.Length, keyBuf.Length);
      AlignedFacts(0, keyBuf.Length);
      if lastKeyPos > keyBufKeyPosMin + keyBufPopulated {
        var keyPos := (lastKeyPos / CHUNK) * CHUNK;
        keyBufKeyPosMin, keyBufStartOffset, keyBufPopulated := keyPos, 0, 0;
      } else if keyBufPopulated == keyBuf.Length {
        keyBufStartOffset := (keyBufStartOffset + CHUNK) % keyBuf.Length;
        keyBufKeyPosMin := keyBufKeyPosMin + CHUNK;
        keyBufPopulated := keyBufPopulated - CHUNK;
      }
    }

    /** The unlocked generation of the chunk, and taking the lock again. */
    method FinishChunk()
      requires hasKeyBuf && job.Writing? && Valid()
      modifies this, keyBuf
      ensures Valid() && View() == Apply(old(View()), cipher, iv, Finish)
    {
      hide Inv, StreamBytes;
      FinishInv(View(), cipher, iv);
      JobFacts(View(), cipher, iv);
      ghost var was := keyBuf[..];
      GenKeyStream(cipher, iv, job.keyPos, keyBuf, job.offset, CHUNK);
      assert keyBuf[..] == keyBuf[..job.offset] + keyBuf[job.offset..job.offset + CHUNK] + keyBuf[job.offset + CHUNK..];
      keyBufPopulated := keyBufPopulated + CHUNK;
      job := Idle;
    }
  }

  lemma JobFacts(c: Cache, cipher: Cipher, iv: Block)
    requires Inv(c, cipher, iv) && c.job.Writing?
    ensures c.Size() > 0 && c.job.keyPos % BLOCK_SIZE == 0
    ensures c.job.offset + CHUNK <= c.Size() && c.job.keyPos + CHUNK <= TWO64
  {
    hide Agrees, Slot, Aligned;
    AlignedFacts(c.keyPosMin, c.populated);
    AlignedToBlocks(c.keyPosMin + c.populated);
  }

  lemma AlignedToBlocks(n: nat)
    requires Aligned(n)
    ensures n % BLOCK_SIZE == 0
  {
    assert n == CHUNK * (n / CHUNK);
    assert n == BLOCK_SIZE * (0x100 * (n / CHUNK));
  }
}
