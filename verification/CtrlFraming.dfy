/** The receive buffer of lib/src/ctrl.c: 512 bytes that recv fills and the thread cuts into messages with
    memmove. The specification frames the byte stream as a whole. */
module CtrlFraming {
  import opened Octets
  import opened Sequences
  import opened Memory
  import opened Powers

  const RECV_BUF_SIZE := 512
  const HEADER_SIZE := 8

  datatype Message = Message(msgType: nat, payload: seq<Byte>)

  datatype Framed = Framed(messages: seq<Message>, rest: seq<Byte>, overflow: bool)

  function Word(a: Byte, b: Byte): nat {
    (a as int) * 0x100 + b
  }

  /** The payload size in the header, in network order. */
  function PayloadSize(bytes: seq<Byte>): (n: nat)
    requires |bytes| >= HEADER_SIZE
    ensures n < TWO32
  {
    Word(bytes[0], bytes[1]) * 0x1_0000 + Word(bytes[2], bytes[3])
  }

  function MessageType(bytes: seq<Byte>): nat
    requires |bytes| >= HEADER_SIZE
  {
    Word(bytes[4], bytes[5])
  }

  /** The framing of a stream: complete messages up to the first one that the buffer could never hold. */
  function Frames(bytes: seq<Byte>): Framed {
    if |bytes| < HEADER_SIZE then
      Framed([], bytes, false)
    else
      var total := HEADER_SIZE + PayloadSize(bytes);
      if total > RECV_BUF_SIZE then
        Framed([], bytes, true)
      else if |bytes| < total then
        Framed([], bytes, false)
      else
        var f := Frames(bytes[total..]);
        Framed([Message(MessageType(bytes), bytes[HEADER_SIZE..total])] + f.messages, f.rest, f.overflow)
  }

  /** No length field looked at is so large that adding the header size to it wraps in 32 bits. */
  ghost predicate LengthsFit(bytes: seq<Byte>) {
    |bytes| >= HEADER_SIZE ==>
      var total := HEADER_SIZE + PayloadSize(bytes);
      && total < TWO32
      && (total <= RECV_BUF_SIZE && total <= |bytes| ==> LengthsFit(bytes[total..]))
  }

  /** How ctrl_message_send writes a message: payload size, type, two zero bytes, payload. */
  function Encode(m: Message): (bytes: seq<Byte>)
    requires Sendable(m)
    ensures |bytes| == HEADER_SIZE + |m.payload|
  {
    var n := |m.payload|;
    [0, 0, n / 0x100, n % 0x100, m.msgType / 0x100, m.msgType % 0x100, 0, 0] + m.payload
  }

  predicate Sendable(m: Message) {
    m.msgType < 0x1_0000 && HEADER_SIZE + |m.payload| <= RECV_BUF_SIZE
  }

  function EncodeAll(messages: seq<Message>): seq<Byte>
    requires forall m | m in messages :: Sendable(m)
  {
    if messages == [] then [] else Encode(messages[0]) + EncodeAll(messages[1..])
  }

  /** The size of the message that starts here, once its header is complete. */
  function Total(bytes: seq<Byte>): nat
    requires |bytes| >= HEADER_SIZE
  {
    HEADER_SIZE + PayloadSize(bytes)
  }

  predicate Complete(bytes: seq<Byte>) {
    |bytes| >= HEADER_SIZE && Total(bytes) <= RECV_BUF_SIZE && Total(bytes) <= |bytes|
  }

  function First(bytes: seq<Byte>): Message
    requires Complete(bytes)
  {
    Message(MessageType(bytes), bytes[HEADER_SIZE..Total(bytes)])
  }

  lemma FramesUnfolds(bytes: seq<Byte>)
    ensures Complete(bytes) ==>
      var f := Frames(bytes[Total(bytes)..]); Frames(bytes) == Framed([First(bytes)] + f.messages, f.rest, f.overflow)
    ensures !Complete(bytes) ==>
      Frames(bytes) == Framed([], bytes, |bytes| >= HEADER_SIZE && Total(bytes) > RECV_BUF_SIZE)
  {
    hide PayloadSize, MessageType;
  }

  /** Byte by byte: what the first message is, when it is complete, and when the buffer overflows. */
  lemma FramesAre(bytes: seq<Byte>)
    ensures |bytes| < 8 ==> Frames(bytes) == Framed([], bytes, false)
    ensures |bytes| >= 8 ==>
      var total := 8 + ((bytes[0] as int * 0x100 + bytes[1]) * 0x100 + bytes[2]) * 0x100 + bytes[3];
      if total <= 512 && total <= |bytes| then
        var f := Frames(bytes[total..]);
        Frames(bytes)
        == Framed([Message(bytes[4] as int * 0x100 + bytes[5], bytes[8..total])] + f.messages, f.rest, f.overflow)
      else Frames(bytes) == Framed([], bytes, total > 512)
  {
    hide Frames;
    FramesUnfolds(bytes);
    if |bytes| >= 8 {
      var a, b, c, d: int := bytes[0], bytes[1], bytes[2], bytes[3];
      assert Total(bytes) == 8 + ((a * 0x100 + b) * 0x100 + c) * 0x100 + d;
      assert MessageType(bytes) == bytes[4] as int * 0x100 + bytes[5];
      hide Total, MessageType;
    }
  }

  lemma HeaderOfPrefix(a: seq<Byte>, b: seq<Byte>)
    requires |a| >= HEADER_SIZE
    ensures Total(a + b) == Total(a)
    ensures Complete(a) ==> Complete(a + b) && First(a + b) == First(a) && (a + b)[Total(a)..] == a[Total(a)..] + b
  {
    assert forall i | 0 <= i < HEADER_SIZE :: (a + b)[i] == a[i];
    if Complete(a) {
      assert (a + b)[HEADER_SIZE..Total(a)] == a[HEADER_SIZE..Total(a)];
    }
  }

  lemma EncodedHeader(m: Message, b: seq<Byte>)
    requires Sendable(m)
    ensures var bytes := Encode(m) + b;
      Complete(bytes) && First(bytes) == m && bytes[Total(bytes)..] == b
  {
    var a, n := Encode(m), |m.payload|;
    assert a[0] == 0 && a[1] == 0 && a[2] == n / 0x100 && a[3] == n % 0x100;
    assert a[4] == m.msgType / 0x100 && a[5] == m.msgType % 0x100;
    assert PayloadSize(a) == n && MessageType(a) == m.msgType;
    assert a[HEADER_SIZE..] == m.payload;
    HeaderOfPrefix(a, b);
  }

  lemma HeaderFields(bytes: seq<Byte>)
    requires |bytes| >= HEADER_SIZE
    ensures PayloadSize(bytes) == Word(bytes[0], bytes[1]) * 0x1_0000 + Word(bytes[2], bytes[3])
    ensures MessageType(bytes) == Word(bytes[4], bytes[5])
  {}

  /** Framing inverts encoding, whatever follows the encoded messages. */
  lemma {:induction false} FramesOfEncoded(messages: seq<Message>, rest: seq<Byte>)
    requires forall m | m in messages :: Sendable(m)
    ensures var f := Frames(rest);
      Frames(EncodeAll(messages) + rest) == Framed(messages + f.messages, f.rest, f.overflow)
  {
    hide Frames, First, Total, Encode, Complete;
    FramesUnfolds(EncodeAll(messages) + rest);
    if messages == [] {
      assert EncodeAll(messages) + rest == rest;
    } else {
      var tail := EncodeAll(messages[1..]) + rest;
      FramesOfEncoded(messages[1..], rest);
      EncodedHeader(messages[0], tail);
      assert EncodeAll(messages) + rest == Encode(messages[0]) + tail;
      var later := Frames(rest).messages;
      assert [messages[0]] + (messages[1..] + later) == messages + later;
    }
  }

  /** More bytes only extend what was framed before. */
  lemma {:induction false} FramesAppend(a: seq<Byte>, b: seq<Byte>)
    ensures var f, g := Frames(a), Frames(a + b);
      if f.overflow then g.overflow && g.messages == f.messages
      else var h := Frames(f.rest + b); g == Framed(f.messages + h.messages, h.rest, h.overflow)
    decreases |a|
  {
    hide Frames, First, Total;
    FramesUnfolds(a);
    FramesUnfolds(a + b);
    if |a| >= HEADER_SIZE {
      HeaderOfPrefix(a, b);
      if Complete(a) {
        TotalPositive(a);
        FramesAppend(a[Total(a)..], b);
      }
    }
  }

  lemma TotalPositive(bytes: seq<Byte>)
    requires |bytes| >= HEADER_SIZE
    ensures Total(bytes) >= HEADER_SIZE
  {}

  lemma {:induction false} FitAppend(a: seq<Byte>, b: seq<Byte>)
    requires LengthsFit(a + b)
    ensures LengthsFit(a) && (!Frames(a).overflow ==> LengthsFit(Frames(a).rest + b))
    decreases |a|
  {
    if |a| >= HEADER_SIZE {
      var total := HEADER_SIZE + PayloadSize(a);
      assert PayloadSize(a + b) == PayloadSize(a);
      if total <= RECV_BUF_SIZE && total <= |a| {
        assert (a + b)[total..] == a[total..] + b;
        FitAppend(a[total..], b);
      }
    }
  }

  /** After a parse pass either overflow is flagged or at least one byte of the buffer is free. */
  lemma {:induction false} RoomAfterPass(bytes: seq<Byte>)
    ensures !Frames(bytes).overflow ==> |Frames(bytes).rest| < RECV_BUF_SIZE
    ensures |Frames(bytes).rest| <= |bytes|
    decreases |bytes|
  {
    if |bytes| >= HEADER_SIZE {
      var total := HEADER_SIZE + PayloadSize(bytes);
      if total <= RECV_BUF_SIZE && total <= |bytes| { RoomAfterPass(bytes[total..]); }
    }
  }

  /** What a parse pass finds at the front of the buffer */
  lemma FrontOf(bytes: seq<Byte>)
    requires HEADER_SIZE <= |bytes| <= RECV_BUF_SIZE && LengthsFit(bytes)
    ensures var total := HEADER_SIZE + Word(bytes[0], bytes[1]) * 0x1_0000 + Word(bytes[2], bytes[3]);
      && total % TWO32 == total == Total(bytes) && total > 0
      && if |bytes| < total then Frames(bytes) == Framed([], bytes, total > RECV_BUF_SIZE)
         else
           && Complete(bytes) && LengthsFit(bytes[total..])
           && var g := Frames(bytes[total..]); Frames(bytes) == Framed([First(bytes)] + g.messages, g.rest, g.overflow)
  {
    hide Frames, First, MessageType, Word;
    FramesUnfolds(bytes);
    HeaderFields(bytes);
  }

  /** The receiving side of struct chiaki_ctrl_t; `received` records what ctrl_message_received is given. */
  class Incoming {
    const recvBuf: array<Byte>
    var recvBufSize: nat
    var received: seq<Message>
    var failed: bool

    ghost predicate Valid()
      reads this
    {
      recvBuf.Length == RECV_BUF_SIZE && recvBufSize <= RECV_BUF_SIZE
    }

    ghost function Buffered(): seq<Byte>
      reads this, recvBuf
      requires Valid()
    {
      recvBuf[..recvBufSize]
    }

    /** The end of ctrl_connect: what was received beyond the HTTP header goes to the buffer. */
    constructor (beyondHeader: seq<Byte>)
      requires |beyondHeader| <= RECV_BUF_SIZE
      ensures Valid() && fresh(recvBuf) && Buffered() == beyondHeader && received == [] && !failed
    {
      recvBuf := new Byte[RECV_BUF_SIZE](i requires i >= 0 => if i < |beyondHeader| then beyondHeader[i] else 0);
      recvBufSize := |beyondHeader|;
      received, failed := [], false;
    }

    /** The parse pass of ctrl_thread_func, with its 32-bit sum. */
    method ParsePass()
      requires Valid() && LengthsFit(Buffered())
      modifies this, recvBuf
      ensures Valid()
      ensures var f := Frames(old(Buffered()));
        && received == old(received) + f.messages
        && Buffered() == f.rest
        && failed == (old(failed) || f.overflow)
    {
      hide Frames, PayloadSize, MessageType, Word, First, LengthsFit, Complete, Total;
      ghost var f := Frames(Buffered());
      assert [] + f.messages == f.messages;
      while recvBufSize >= HEADER_SIZE
        invariant Valid() && LengthsFit(Buffered()) && failed == old(failed)
        invariant var g := Frames(Buffered());
          old(received) + f.messages == received + g.messages && f.rest == g.rest && f.overflow == g.overflow
      {
        FrontOf(Buffered());
        var payloadSize := Word(recvBuf[0], recvBuf[1]) * 0x1_0000 + Word(recvBuf[2], recvBuf[3]);
        var total := (HEADER_SIZE + payloadSize) % TWO32;
        if recvBufSize < total {
          if total > RECV_BUF_SIZE {
            failed := true;
          }
          assert received + [] == received;
          return;
        }
        ghost var first, later := First(Buffered()), Frames(Buffered()[total..]).messages;
        assert received + ([first] + later) == (received + [first]) + later;
        TakeMessage(total);
      }
      FramesAre(Buffered());
      assert received + [] == received;
    }

    /** Hands over the message at the front and closes the gap. */
    method TakeMessage(total: nat)
      requires Valid() && Complete(Buffered()) && total == Total(Buffered())
      modifies this`received, this`recvBufSize, recvBuf
      ensures Valid() && Buffered() == old(Buffered())[total..]
      ensures received == old(received) + [First(old(Buffered()))]
    {
      ghost var bytes := Buffered();
      HeaderFields(bytes);
      var msgType := Word(recvBuf[4], recvBuf[5]);
      assert recvBuf[HEADER_SIZE..total] == bytes[HEADER_SIZE..total];
      received := received + [Message(msgType, recvBuf[HEADER_SIZE..total])];
      recvBufSize := recvBufSize - total;
      if recvBufSize > 0 {
        Memmove(recvBuf, 0, total, recvBufSize);
      }
      assert Buffered() == bytes[total..];
    }

    /** recv on the TCP path: some bytes arrive, no more than there is room for. */
    method Receive(chunk: seq<Byte>)
      requires Valid() && recvBufSize + |chunk| <= RECV_BUF_SIZE
      modifies this`recvBufSize, recvBuf
      ensures Valid() && Buffered() == old(Buffered()) + chunk
    {
      ghost var was := recvBuf[..];
      Memcpy(recvBuf, recvBufSize, chunk);
      assert recvBuf[..recvBufSize + |chunk|] == was[..recvBufSize] + chunk;
      recvBufSize := recvBufSize + |chunk|;
    }
  }

  /** The thread between two parse passes. */
  datatype Progress = Progress(buffered: seq<Byte>, received: seq<Message>, failed: bool)

  function Pass(p: Progress): Progress {
    var f := Frames(p.buffered);
    Progress(f.rest, p.received + f.messages, p.failed || f.overflow)
  }

  /** The loop of the thread over the chunks that recv returns, each followed by a parse pass; it ends at an
      overflow. */
  function Run(initial: seq<Byte>, chunks: seq<seq<Byte>>): Progress {
    if chunks == [] then
      Pass(Progress(initial, [], false))
    else
      var p := Run(initial, chunks[..|chunks| - 1]);
      if p.failed then p else Pass(p.(buffered := p.buffered + chunks[|chunks| - 1]))
  }

  lemma FlatNothing()
    ensures Flat<Byte>([]) == []
  {}

  lemma FlatLast(initial: seq<Byte>, chunks: seq<seq<Byte>>)
    requires chunks != []
    ensures var n := |chunks| - 1; initial + Flat(chunks) == (initial + Flat(chunks[..n])) + chunks[n]
  {
    hide Flat;
    var n := |chunks| - 1;
    FlatAppend(chunks[..n], chunks[n]);
    assert chunks[..n] + [chunks[n]] == chunks;
  }

  /** Main result: however recv splits the stream, the messages handed over are the framing of the concatenated
      bytes, and the thread fails exactly if that framing overflows. */
  lemma {:induction false} ChunkingIrrelevant(initial: seq<Byte>, chunks: seq<seq<Byte>>)
    ensures var r, f := Run(initial, chunks), Frames(initial + Flat(chunks));
      r.received == f.messages && r.failed == f.overflow && (!r.failed ==> r.buffered == f.rest)
  {
    hide Frames, Flat;
    if chunks == [] {
      FlatNothing();
      assert initial + [] == initial;
    } else {
      var n := |chunks| - 1;
      ChunkingIrrelevant(initial, chunks[..n]);
      FlatLast(initial, chunks);
      FramesAppend(initial + Flat(chunks[..n]), chunks[n]);
    }
  }

  /** While the thread runs there is room for recv to deliver at least one byte; and the next pass is one the
      code can make if the stream's lengths fit. */
  lemma RoomToReceive(initial: seq<Byte>, chunks: seq<seq<Byte>>, more: seq<Byte>)
    ensures var r := Run(initial, chunks);
      !r.failed ==> |r.buffered| < RECV_BUF_SIZE
    ensures !Run(initial, chunks).failed && LengthsFit(initial + Flat(chunks) + more) ==>
      LengthsFit(Run(initial, chunks).buffered + more)
  {
    ChunkingIrrelevant(initial, chunks);
    RoomAfterPass(initial + Flat(chunks));
    if LengthsFit(initial + Flat(chunks) + more) {
      FitAppend(initial + Flat(chunks), more);
    }
  }
}
