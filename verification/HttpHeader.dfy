/** lib/src/http.c: recognizing the end of a header in a stream, and cutting a header apart in place. */
module HttpHeader {
  import opened Sequences
  import opened Memory

  // ---------------------------------------------------------------- the end of the header

  const END := "\r\n\r\n"

  /** What the four-state table says, 4 being final. */
  function Next(state: nat, c: char): nat
    requires state <= 4
  {
    if state == 4 then 4
    else if c == '\r' then [1, 1, 3, 1][state]
    else if c == '\n' then [0, 2, 0, 4][state]
    else 0
  }

  function StateAfter(s: string): (state: nat)
    ensures state <= 4
  {
    if s == "" then 0 else Next(StateAfter(s[..|s| - 1]), s[|s| - 1])
  }

  /** The text ends with the first k characters of the end mark. */
  predicate EndsWith(s: string, k: nat) {
    k <= |s| && k <= 4 && s[|s| - k..] == END[..k]
  }

  /** The first position at which a text has an end mark behind it */
  predicate IsHeaderEnd(s: string, e: nat) {
    e <= |s| && EndsWith(s[..e], 4) && forall f: nat | f < e :: !EndsWith(s[..f], 4)
  }

  predicate NoHeaderEnd(s: string) {
    forall f: nat | f <= |s| :: !EndsWith(s[..f], 4)
  }

  lemma EndsWithStep(s: string, k: nat)
    requires s != "" && 1 <= k <= 4
    ensures EndsWith(s, k) <==> EndsWith(s[..|s| - 1], k - 1) && s[|s| - 1] == END[k - 1]
  {
    var n := |s| - 1;
    if k <= |s| {
      assert s[|s| - k..] == s[..n][n - (k - 1)..] + [s[n]];
      assert END[..k] == END[..k - 1] + [END[k - 1]];
    }
  }

  lemma NoEndPrefix(s: string, n: nat)
    requires n <= |s| && NoHeaderEnd(s)
    ensures NoHeaderEnd(s[..n])
  {
    forall f: nat | f <= n ensures !EndsWith(s[..n][..f], 4) {
      assert s[..n][..f] == s[..f];
    }
  }

  /** As long as no end mark is complete, the state is the length of the longest beginning of one that the text ends
      with. */
  lemma {:induction false} StateIsLongestMatch(s: string)
    requires s != "" ==> NoHeaderEnd(s[..|s| - 1])
    ensures EndsWith(s, StateAfter(s))
    ensures forall k: nat | StateAfter(s) < k <= 4 :: !EndsWith(s, k)
  {
    hide NoHeaderEnd, EndsWith;
    if s != "" {
      var n := |s| - 1;
      var front := s[..n];
      if front != "" {
        NoEndPrefix(front, n - 1);
        assert s[..n - 1] == front[..n - 1];
      }
      StateIsLongestMatch(front);
      NotFinal(front);
      EndsWithZero(s);
      EndsWithZero(front);
      forall k: nat | 1 <= k <= 4
        ensures EndsWith(s, k) <==> EndsWith(front, k - 1) && s[n] == END[k - 1]
      {
        EndsWithStep(s, k);
      }
      BeginningsExclude(front);
    } else {
      EndsWithZero(s);
      EndsWithEmpty();
    }
  }

  lemma NotFinal(s: string)
    requires NoHeaderEnd(s)
    ensures !EndsWith(s, 4)
  {
    assert s[..|s|] == s;
  }

  lemma EndsWithZero(s: string)
    ensures EndsWith(s, 0)
  {}

  lemma EndsWithEmpty()
    ensures forall k: nat | 0 < k :: !EndsWith("", k)
  {}

  /** Which beginnings of the end mark can end a text together */
  lemma BeginningsExclude(s: string)
    ensures EndsWith(s, 1) ==> !EndsWith(s, 2)
    ensures EndsWith(s, 3) ==> EndsWith(s, 1)
    ensures EndsWith(s, 2) ==> !EndsWith(s, 1) && !EndsWith(s, 3)
  {
    if s != "" {
      EndsWithStep(s, 1);
      EndsWithStep(s, 2);
      EndsWithStep(s, 3);
      EndsWithZero(s[..|s| - 1]);
    }
  }

  // ---------------------------------------------------------------- how much is received

  /** The calls of recv from the n-th on: none once the header is complete or the peer has closed the connection. */
  ghost function CallsFrom(chunks: seq<string>, n: nat): (calls: nat)
    requires n <= |chunks|
    ensures n <= calls <= |chunks|
    decreases |chunks| - n
  {
    if n == |chunks| || !NoHeaderEnd(Flat(chunks[..n])) then n else CallsFrom(chunks, n + 1)
  }

  ghost function Calls(chunks: seq<string>): (calls: nat)
    ensures calls <= |chunks|
  {
    CallsFrom(chunks, 0)
  }

  /** What is received, call by call behind each other, stays within a buffer of this size. */
  ghost predicate StaysInside(chunks: seq<string>, size: nat) {
    |Flat(chunks[..Calls(chunks)])| <= size
  }

  /** What recv can make of a stream: it always delivers something, and no more than the size it is given, which the
      code does not reduce from one call to the next. */
  ghost predicate IsSplit(chunks: seq<string>, stream: string, size: nat) {
    Flat(chunks) == stream && forall i | 0 <= i < |chunks| :: 0 < |chunks[i]| <= size
  }

  /** Main result about the buffer: however recv splits the stream it stays inside, if and only if the whole stream
      fits, the bytes behind the header included. */
  lemma StaysInsideExactly(stream: string, size: nat)
    requires size > 0
    ensures (forall chunks :: IsSplit(chunks, stream, size) ==> StaysInside(chunks, size)) <==> |stream| <= size
  {
    hide IsSplit, StaysInside;
    if |stream| <= size {
      forall chunks | IsSplit(chunks, stream, size) ensures StaysInside(chunks, size) {
        SmallStreamInside(chunks, stream, size);
      }
    } else {
      LargeStreamLeaves(stream, size);
    }
  }

  lemma SmallStreamInside(chunks: seq<string>, stream: string, size: nat)
    requires |stream| <= size && IsSplit(chunks, stream, size)
    ensures StaysInside(chunks, size)
  {
    hide Flat, CallsFrom;
    FlatPrefix(chunks, Calls(chunks));
  }

  function Pieces(s: string, size: nat): (pieces: seq<string>)
    requires size > 0
    decreases |s|
  {
    if |s| == 0 then [] else if |s| <= size then [s] else [s[..size]] + Pieces(s[size..], size)
  }

  lemma {:induction false} PiecesSplit(s: string, size: nat)
    requires size > 0
    ensures IsSplit(Pieces(s, size), s, size)
    decreases |s|
  {
    if 0 < |s| <= size {
      assert [s][1..] == [];
    } else if |s| > size {
      PiecesSplit(s[size..], size);
      var rest := Pieces(s[size..], size);
      assert ([s[..size]] + rest)[1..] == rest;
      assert s == s[..size] + s[size..];
    }
  }

  /** A split of a larger stream that leaves the buffer: one byte, and then a call that delivers all it is asked for. */
  lemma LargeStreamLeaves(stream: string, size: nat)
    requires 0 < size < |stream|
    ensures var chunks := [stream[..1], stream[1..1 + size]] + Pieces(stream[1 + size..], size);
      IsSplit(chunks, stream, size) && !StaysInside(chunks, size)
  {
    hide NoHeaderEnd, Flat;
    var a, b, rest := stream[..1], stream[1..1 + size], Pieces(stream[1 + size..], size);
    var chunks := [a, b] + rest;
    PiecesSplit(stream[1 + size..], size);
    FlatTwo(a, b, rest);
    assert stream == a + (b + stream[1 + size..]);
    assert forall i | 2 <= i < |chunks| :: chunks[i] == rest[i - 2];
    assert chunks[..0] == [] && chunks[..1] == [a] && chunks[..2] == [a, b];
    TooShort("");
    TooShort(a);
    var calls := CallsFrom(chunks, 2);
    assert CallsFrom(chunks, 1) == calls;
    assert Calls(chunks) == calls;
    assert chunks[..calls][..2] == [a, b];
    FlatPrefix(chunks[..calls], 2);
  }

  lemma FlatTwo(a: string, b: string, rest: seq<string>)
    ensures Flat([a, b] + rest) == a + (b + Flat(rest))
    ensures Flat([a, b]) == a + b && Flat([a]) == a && Flat<char>([]) == ""
  {
    assert ([a, b] + rest)[1..] == [b] + rest && ([b] + rest)[1..] == rest;
    assert [a, b][1..] == [b] && [b][1..] == [] && [a][1..] == [];
    assert Flat([b]) == b + "" == b && Flat([a]) == a + "" == a;
    assert Flat([a, b]) == a + Flat([b]);
  }

  lemma TooShort(s: string)
    requires |s| < 4
    ensures NoHeaderEnd(s)
  {}

  /** A header that comes in one call stays inside whatever follows it. */
  lemma OneCallStaysInside(chunks: seq<string>, size: nat)
    requires chunks != [] && |chunks[0]| <= size && !NoHeaderEnd(chunks[0])
    ensures StaysInside(chunks, size)
  {
    hide NoHeaderEnd;
    TooShort("");
    assert chunks[..0] == [] && chunks[..1] == [chunks[0]] && [chunks[0]][1..] == [];
    assert Flat(chunks[..1]) == chunks[0];
    assert CallsFrom(chunks, 1) == 1;
  }

  // ---------------------------------------------------------------- receiving

  datatype Received = Disconnected | Header(headerSize: nat, receivedSize: nat)

  /** The inner loop of chiaki_recv_http_header, over the bytes just received: how many are left behind the header */
  method Scan(buf: array<char>, start: nat, received: nat, state: nat, ghost stream: string)
      returns (newState: nat, left: nat)
    requires start + received <= |stream| && start + received <= buf.Length
    requires forall k | start <= k < start + received :: buf[k] == stream[k]
    requires state == StateAfter(stream[..start]) < 4 && NoHeaderEnd(stream[..start])
    ensures newState <= 4 && left <= received
    ensures newState == 4 ==> left < received && IsHeaderEnd(stream, start + received - left) && !NoHeaderEnd(stream)
    ensures newState < 4 ==> left == 0 && NoHeaderEnd(stream[..start + received])
    ensures newState < 4 ==> newState == StateAfter(stream[..start + received])
  {
    hide NoHeaderEnd, IsHeaderEnd, StateAfter, Next;
    newState, left := state, received;
    var at := start;
    while left > 0
      invariant left <= received && at == start + received - left
      invariant newState == StateAfter(stream[..at]) < 4 && NoHeaderEnd(stream[..at])
    {
      newState := Next(newState, buf[at]);
      StateStep(stream, at);
      left, at := left - 1, at + 1;
      if newState == 4 {
        return;
      }
    }
  }

  /** chiaki_recv_http_header: `chunks` is what recv returns, call by call, before the peer closes the connection;
      `memory` is the memory from the start of the buffer on, as far as the stream could reach; `taken` the number of
      calls. Where the header ends does not depend on the chunks but only on their concatenation. */
  method RecvHttpHeader(chunks: seq<string>, memory: array<char>) returns (r: Received, ghost taken: nat)
    requires |Flat(chunks)| <= memory.Length
    modifies memory
    ensures taken == Calls(chunks)
    ensures r.Disconnected? <==> NoHeaderEnd(Flat(chunks))
    ensures r.Header? ==> IsHeaderEnd(Flat(chunks), r.headerSize)
    ensures r.Header? ==> r.receivedSize == |Flat(chunks[..taken])|
    ensures r.Header? ==> taken > 0 && |Flat(chunks[..taken - 1])| < r.headerSize <= r.receivedSize
    ensures |Flat(chunks[..taken])| <= memory.Length
    ensures memory[..] == Flat(chunks[..taken]) + old(memory[..])[|Flat(chunks[..taken])|..]
  {
    hide Reading, Complete, Flat, IsHeaderEnd, NoHeaderEnd, CallsFrom;
    ghost var was := memory[..];
    var state, receivedSize: nat, call := 0, 0, 0;
    NothingRead(chunks, was);
    while call < |chunks|
      invariant 0 <= call <= |chunks| && Reading(chunks, memory[..], was, call, receivedSize, state)
    {
      var received: nat;
      state, received := ReceiveAndScan(chunks, call, memory, receivedSize, state, was);
      call, receivedSize := call + 1, receivedSize + |chunks[call]|;
      if state == 4 {
        HeaderRead(chunks, memory[..], was, call, receivedSize, received);
        return Header(receivedSize - received, receivedSize), call;
      }
    }
    AllRead(chunks, memory[..], was, receivedSize, state);
    return Disconnected, call;
  }

  /** Between two calls: what has been received is in the memory, and the header is not complete. */
  ghost predicate Reading(chunks: seq<string>, content: string, was: string, call: nat, n: nat, state: nat) {
    && call <= |chunks| && n == |Flat(chunks[..call])| <= |was|
    && content == Flat(chunks[..call]) + was[n..]
    && state == StateAfter(Flat(chunks[..call])) < 4 && NoHeaderEnd(Flat(chunks[..call]))
    && CallsFrom(chunks, call) == Calls(chunks)
  }

  /** After the call that completes the header, `left` bytes ahead of the end of what it delivered */
  ghost predicate Complete(chunks: seq<string>, content: string, was: string, call: nat, n: nat, left: nat) {
    && 0 < call <= |chunks| && n == |Flat(chunks[..call])| <= |was| && left < |chunks[call - 1]| <= n
    && |Flat(chunks[..call - 1])| + |chunks[call - 1]| == n
    && content == Flat(chunks[..call]) + was[n..]
    && IsHeaderEnd(Flat(chunks), n - left) && CallsFrom(chunks, call) == Calls(chunks)
  }

  lemma NothingRead(chunks: seq<string>, was: string)
    ensures Reading(chunks, was, was, 0, 0, 0)
  {
    assert chunks[..0] == [];
  }

  lemma AllRead(chunks: seq<string>, content: string, was: string, n: nat, state: nat)
    requires Reading(chunks, content, was, |chunks|, n, state)
    ensures n == |Flat(chunks[..|chunks|])| <= |was| && content == Flat(chunks[..|chunks|]) + was[n..]
    ensures Calls(chunks) == |chunks| && NoHeaderEnd(Flat(chunks))
  {
    hide NoHeaderEnd;
    assert chunks[..|chunks|] == chunks;
  }

  lemma HeaderRead(chunks: seq<string>, content: string, was: string, call: nat, n: nat, left: nat)
    requires Complete(chunks, content, was, call, n, left)
    ensures 0 < call <= |chunks| && n == |Flat(chunks[..call])| <= |was| && content == Flat(chunks[..call]) + was[n..]
    ensures left < n && IsHeaderEnd(Flat(chunks), n - left) && |Flat(chunks[..call - 1])| < n - left
    ensures !NoHeaderEnd(Flat(chunks)) && Calls(chunks) == call
  {
    hide IsHeaderEnd, NoHeaderEnd;
    FlatPrefix(chunks, call);
    assert Flat(chunks[..call])[..n - left] == Flat(chunks)[..n - left];
    EndStays(Flat(chunks), Flat(chunks[..call]), n - left);
    EndStays(Flat(chunks), Flat(chunks), n - left);
  }

  lemma EndStays(s: string, t: string, e: nat)
    requires IsHeaderEnd(s, e) && e <= |t| && t[..e] == s[..e]
    ensures !NoHeaderEnd(t)
  {
    hide EndsWith;
  }

  lemma NextChunk(chunks: seq<string>, call: nat)
    requires call < |chunks|
    ensures var stream, n, m := Flat(chunks), |Flat(chunks[..call])|, |Flat(chunks[..call])| + |chunks[call]|;
      && |Flat(chunks[..call + 1])| == m <= |stream|
      && stream[..m] == Flat(chunks[..call + 1]) && stream[n..m] == chunks[call]
  {
    hide Flat;
    assert chunks[..call + 1] == chunks[..call] + [chunks[call]];
    FlatAppend(chunks[..call], chunks[call]);
    FlatPrefix(chunks, call + 1);
  }

  lemma EarlierEnds(stream: string, at: nat)
    requires at <= |stream| && NoHeaderEnd(stream[..at])
    ensures forall f: nat | f <= at :: !EndsWith(stream[..f], 4)
  {
    hide EndsWith;
    forall f: nat | f <= at ensures !EndsWith(stream[..f], 4) { assert stream[..at][..f] == stream[..f]; }
  }

  lemma EndAt(stream: string, at: nat)
    requires at < |stream| && NoHeaderEnd(stream[..at])
    ensures EndsWith(stream[..at + 1], 4) ==> IsHeaderEnd(stream, at + 1) && !NoHeaderEnd(stream)
    ensures !EndsWith(stream[..at + 1], 4) ==> NoHeaderEnd(stream[..at + 1])
  {
    hide EndsWith;
    EarlierEnds(stream, at);
    if !EndsWith(stream[..at + 1], 4) {
      var s := stream[..at + 1];
      forall f: nat | f <= at + 1 ensures !EndsWith(s[..f], 4) {
        assert s[..f] == stream[..f];
      }
    }
  }

  lemma StateStep(stream: string, at: nat)
    requires at < |stream| && NoHeaderEnd(stream[..at])
    ensures var state := StateAfter(stream[..at + 1]);
      && state == Next(StateAfter(stream[..at]), stream[at])
      && (state == 4 ==> IsHeaderEnd(stream, at + 1) && !NoHeaderEnd(stream))
      && (state < 4 ==> NoHeaderEnd(stream[..at + 1]))
  {
    hide EndsWith, IsHeaderEnd, NoHeaderEnd, Next;
    var s := stream[..at + 1];
    assert s[..at] == stream[..at];
    StateIsLongestMatch(s);
    EndAt(stream, at);
  }

  /** One call of recv, and the loop over what it delivered */
  method ReceiveAndScan(chunks: seq<string>, call: nat, memory: array<char>, n: nat, state: nat, ghost was: string)
      returns (newState: nat, left: nat)
    requires Reading(chunks, memory[..], was, call, n, state) && |was| == memory.Length
    requires call < |chunks| && |Flat(chunks)| <= memory.Length
    modifies memory
    ensures newState <= 4
    ensures newState < 4 ==> Reading(chunks, memory[..], was, call + 1, n + |chunks[call]|, newState)
    ensures newState == 4 ==> Complete(chunks, memory[..], was, call + 1, n + |chunks[call]|, left)
  {
    hide NoHeaderEnd, IsHeaderEnd, StateAfter, Flat;
    ghost var stream := Flat(chunks);
    NextChunk(chunks, call);
    assert stream[..n] == Flat(chunks[..call]) by { FlatPrefix(chunks, call); }
    Receive(memory, n, chunks[call], stream, was);
    newState, left := Scan(memory, n, |chunks[call]|, state, stream);
  }

  /** One call of recv: the memory goes on being the stream so far, in front of what it was. */
  method Receive(buf: array<char>, at: nat, chunk: string, ghost stream: string, ghost was: string)
    requires at + |chunk| <= |stream| && at + |chunk| <= |was| == buf.Length
    requires stream[at..at + |chunk|] == chunk && buf[..] == stream[..at] + was[at..]
    modifies buf
    ensures buf[..] == stream[..at + |chunk|] + was[at + |chunk|..]
    ensures forall k | at <= k < at + |chunk| :: buf[k] == stream[k]
  {
    ghost var before := buf[..];
    Memcpy(buf, at, chunk);
    ChunkStored(was, stream, at, chunk, before, buf[..]);
    assert forall k | at <= k < at + |chunk| :: buf[k] == buf[..][k];
  }

  lemma ChunkStored(was: string, stream: string, at: nat, chunk: string, before: string, after: string)
    requires at + |chunk| <= |stream| && at + |chunk| <= |was| && stream[at..at + |chunk|] == chunk
    requires before == stream[..at] + was[at..] && after == before[..at] + chunk + before[at + |chunk|..]
    ensures after == stream[..at + |chunk|] + was[at + |chunk|..]
  {}
}
