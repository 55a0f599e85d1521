/** lib/src/videoreceiver.c: which frames are handed over, in which order, and the window of reference frames.
    The frame processor, the bitstream parser and the sample callback are the environment: each flush gets any
    outcome from them. */
module VideoReceiver {
  import opened SeqNum
  import opened SliceHeader
  import opened FrameProcessor

  const REFS := 16

  /** The environment of one flush: the processor's result, the parsed slice header if there is one, the reference
      frames the header can be rewritten to, whether there is a callback, and whether it accepts the frame. */
  datatype Flush = Flush(result: FlushResult, parsed: Parsed, rewritable: set<nat>, hasCallback: bool, accepted: bool)

  datatype Packet = Packet(frameIndex: SeqNum16, adaptiveStreamIndex: nat, unitIndex: nat, unitsInFrameTotal: nat)

  /** The environment of one packet: a flush of the frame before, whether the new unit makes a flush possible, and
      that flush. */
  datatype Environment = Environment(last: Flush, flushPossible: bool, current: Flush)

  /** A frame as the callback got it; `at` is its unwrapped index, `asked` and `parsed` the header before and after any
      rewriting, and `acceptedBefore` how many frames the callback had accepted by then. */
  datatype Sample = Sample(at: int, frameIndex: SeqNum16, framesLost: int, recovered: bool, asked: Parsed,
                           parsed: Parsed, acceptedBefore: nat)

  /** The receiver with its history: the unwrapped index of the current frame, the samples handed over, the frames
      the callback accepted and their unwrapped indices, the profile headers sent and the corrupt ranges reported.
      Indices are -1 before the first frame. */
  datatype Receiver = Receiver(
    profilesCount: nat, profileCur: int,
    cur: int, prev: int, prevComplete: int, framesLost: int, refs: seq<int>,
    curAt: int, samples: seq<Sample>, accepted: seq<SeqNum16>, acceptedAt: seq<int>,
    headers: seq<nat>, corrupt: seq<(SeqNum16, SeqNum16)>)

  function Init(profilesCount: nat): Receiver {
    Receiver(profilesCount, -1, -1, -1, 0, 0, seq(REFS, _ => -1), -1, [], [], [], [], [])
  }

  /** add_ref_frame: fills the window from its end, then shifts. */
  function AddRef(refs: seq<int>, frame: int): (r: seq<int>)
    requires |refs| == REFS
    ensures |r| == REFS
  {
    if refs[0] != -1 then [frame] + refs[..REFS - 1]
    else
      var k := LastFree(refs, REFS);
      if k < 0 then refs else refs[k := frame]
  }

  /** The highest free slot below n, or -1. */
  function LastFree(refs: seq<int>, n: nat): (k: int)
    requires n <= |refs|
    ensures -1 <= k < n
    ensures k >= 0 ==> refs[k] == -1
    ensures forall i | k < i < n :: refs[i] != -1
  {
    if n == 0 then -1 else if refs[n - 1] == -1 then n - 1 else LastFree(refs, n - 1)
  }

  /** have_ref_frame */
  predicate HaveRef(refs: seq<int>, frame: int) {
    exists i | 0 <= i < |refs| :: refs[i] == frame
  }

  /** The index of the frame that reference number `ref` means, seen from frame `cur`. */
  function RefIndex(cur: int, ref: nat): SeqNum16 {
    Wrap16(cur - ref - 1)
  }

  /** The first reference from i on that is in the window, or REFS. */
  function NextRef(refs: seq<int>, cur: int, i: nat): (k: nat)
    ensures k <= REFS && (k < REFS ==> i <= k && HaveRef(refs, RefIndex(cur, k)))
    ensures forall j: nat | i <= j < k :: !HaveRef(refs, RefIndex(cur, j))
    decreases REFS - i
  {
    if i >= REFS then REFS
    else if HaveRef(refs, RefIndex(cur, i)) then i
    else NextRef(refs, cur, i + 1)
  }

  /** The frame that reference j means, seen from frame `cur`, is in the window. */
  predicate InWindow(refs: seq<int>, cur: int, j: int) {
    (cur - j - 1) % 0x1_0000 in refs
  }

  lemma NextRefStep(refs: seq<int>, cur: int, k: nat)
    ensures NextRef(refs, cur, k)
         == if k >= REFS then REFS else if HaveRef(refs, RefIndex(cur, k)) then k else NextRef(refs, cur, k + 1)
    ensures HaveRef(refs, RefIndex(cur, k)) <==> InWindow(refs, cur, k)
  {}

  /** Whether the frame's reference is missing: only a P slice with a known reference can miss it. */
  predicate RefMissing(r: Receiver, parsed: Parsed) {
    && parsed.Accepted? && parsed.slice.sliceType == P && parsed.slice.referenceFrame != NO_REFERENCE
    && !HaveRef(r.refs, RefIndex(r.cur, parsed.slice.referenceFrame))
  }

  /** chiaki_video_receiver_flush_frame */
  function FlushFrame(r: Receiver, e: Flush): (t: Receiver)
    requires |r.refs| == REFS
    ensures |t.refs| == REFS
  {
    if e.result == FlushFailed then r
    else if e.result == FecFailed then
      var next := Wrap16(r.prevComplete + 1);
      r.(corrupt := r.corrupt + [(next, Wrap16(r.cur))], framesLost := r.framesLost + r.cur - next + 1, prev := r.cur)
    else
      var missing := RefMissing(r, e.parsed);
      var k := if missing then NextRef(r.refs, r.cur, e.parsed.slice.referenceFrame + 1) else REFS;
      var recovered := missing && k < REFS && k in e.rewritable;
      if missing && !recovered then
        r.(framesLost := r.framesLost + 1, prev := r.cur)
      else
        HandOver(r, e, recovered, if recovered then Accepted(e.parsed.slice.(referenceFrame := k)) else e.parsed)
  }

  /** Its end, for a frame whose reference is not missing: the callback, if there is one, gets the frame. */
  function HandOver(r: Receiver, e: Flush, recovered: bool, final: Parsed): (t: Receiver)
    requires |r.refs| == REFS
    ensures |t.refs| == REFS
  {
    if !e.hasCallback then
      r.(prev := r.cur, prevComplete := r.cur)
    else
      var sample := Sample(r.curAt, Wrap16(r.cur), r.framesLost, recovered, e.parsed, final, |r.accepted|);
      var s := r.(samples := r.samples + [sample], framesLost := 0, prev := r.cur);
      if e.accepted then
        s.(refs := AddRef(r.refs, r.cur), accepted := r.accepted + [Wrap16(r.cur)],
           acceptedAt := r.acceptedAt + [r.curAt], prevComplete := r.cur)
      else
        s
  }

  /** The profile switch at the head of av_packet. */
  function SwitchProfile(r: Receiver, p: Packet): Receiver {
    if r.profileCur < 0 || r.profileCur != p.adaptiveStreamIndex then
      r.(profileCur := p.adaptiveStreamIndex, headers := r.headers + [p.adaptiveStreamIndex])
    else r
  }

  predicate IsOld(r: Receiver, p: Packet) {
    r.cur >= 0 && Lt16(p.frameIndex, Wrap16(r.cur))
  }

  predicate BadProfile(r: Receiver, p: Packet) {
    (r.profileCur < 0 || r.profileCur != p.adaptiveStreamIndex) && p.adaptiveStreamIndex >= r.profilesCount
  }

  predicate IsNext(r: Receiver, p: Packet) {
    r.cur < 0 || Gt16(p.frameIndex, Wrap16(r.cur))
  }

  /** What happens when a packet opens a new frame. */
  function NextFrame(r: Receiver, p: Packet, e: Flush): (t: Receiver)
    requires |r.refs| == REFS
    ensures |t.refs| == REFS
  {
    var s := if r.cur >= 0 && r.prev != r.cur then FlushFrame(r, e) else r;
    var expected := Wrap16(s.prevComplete + 1);
    var t := if Gt16(p.frameIndex, expected) && !(p.frameIndex == 1 && s.cur < 0)
             then s.(corrupt := s.corrupt + [(expected, Wrap16(p.frameIndex - 1))]) else s;
    t.(cur := p.frameIndex, curAt := if r.cur < 0 then p.frameIndex else Unwrap(TWO16, r.curAt, p.frameIndex))
  }

  /** chiaki_video_receiver_av_packet */
  function AvPacket(r: Receiver, p: Packet, e: Environment): (t: Receiver)
    requires |r.refs| == REFS
    ensures |t.refs| == REFS
  {
    if IsOld(r, p) || BadProfile(r, p) then r
    else
      var s := SwitchProfile(r, p);
      var t := if IsNext(s, p) then NextFrame(s, p, e.last) else s;
      if t.cur != t.prev && (e.flushPossible || p.unitIndex == p.unitsInFrameTotal - 1) then
        FlushFrame(t, e.current)
      else t
  }

  /** The last n of a list, or all of it. */
  function Last(xs: seq<SeqNum16>, n: nat): seq<SeqNum16> {
    if |xs| <= n then xs else xs[|xs| - n..]
  }

  /** The window holds the last 16 accepted frames, newest first, behind the slots not used yet. */
  ghost predicate WindowInv(refs: seq<int>, accepted: seq<SeqNum16>) {
    var recent := Last(accepted, REFS);
    && |refs| == REFS
    && forall i | 0 <= i < REFS ::
         refs[i] == if i < REFS - |recent| then -1 else recent[REFS - 1 - i]
  }

  lemma AddRefInv(refs: seq<int>, accepted: seq<SeqNum16>, frame: SeqNum16)
    requires WindowInv(refs, accepted)
    ensures WindowInv(AddRef(refs, frame), accepted + [frame])
  {
    var recent := Last(accepted, REFS);
    var next := Last(accepted + [frame], REFS);
    if |accepted| < REFS {
      assert next == recent + [frame];
      var k := LastFree(refs, REFS);
      assert refs[REFS - |recent| - 1] == -1;
      assert k == REFS - |recent| - 1;
    } else {
      assert refs[0] != -1;
      assert next == recent[1..] + [frame];
    }
  }

  /** have_ref_frame holds exactly for the last 16 frames the callback accepted. */
  lemma HaveRefIsRecent(refs: seq<int>, accepted: seq<SeqNum16>, frame: SeqNum16)
    requires WindowInv(refs, accepted)
    ensures HaveRef(refs, frame) <==> frame in Last(accepted, REFS)
  {
    var recent := Last(accepted, REFS);
    if frame in recent {
      var j :| 0 <= j < |recent| && recent[j] == frame;
      assert refs[REFS - 1 - j] == frame;
    }
  }

  /** A P slice with a known reference was handed over only if that reference was one of the last 16 accepted. */
  ghost predicate RefersToAccepted(s: Sample, accepted: seq<SeqNum16>) {
    && s.acceptedBefore <= |accepted|
    && (s.parsed.Accepted? && s.parsed.slice.sliceType == P && s.parsed.slice.referenceFrame != NO_REFERENCE ==>
          RefIndex(s.frameIndex, s.parsed.slice.referenceFrame) in Last(accepted[..s.acceptedBefore], REFS))
  }

  ghost predicate Inv(r: Receiver) {
    && |r.refs| == REFS && WindowInv(r.refs, r.accepted)
    && -1 <= r.cur < TWO16 && -1 <= r.prev < TWO16 && 0 <= r.prevComplete < TWO16
    && (if r.cur < 0 then r.samples == [] && r.prev == -1 else r.cur == Wrap16(r.curAt))
    && (forall i, j | 0 <= i < j < |r.samples| :: r.samples[i].at < r.samples[j].at)
    && (forall s | s in r.samples :: s.at <= r.curAt && s.frameIndex == Wrap16(s.at))
    && (r.samples != [] && r.samples[|r.samples| - 1].at == r.curAt ==> r.prev == r.cur)
    && (forall s | s in r.samples :: RefersToAccepted(s, r.accepted))
    && AcceptedInv(r)
  }

  /** The accepted frames by their unwrapped indices: ascending, and those before a sample older than it. */
  ghost predicate AcceptedInv(r: Receiver) {
    && |r.acceptedAt| == |r.accepted|
    && (forall i | 0 <= i < |r.acceptedAt| :: r.accepted[i] == Wrap16(r.acceptedAt[i]) && r.acceptedAt[i] <= r.curAt)
    && (forall i, j | 0 <= i < j < |r.acceptedAt| :: r.acceptedAt[i] < r.acceptedAt[j])
    && (r.cur < 0 ==> r.acceptedAt == [])
    && (r.acceptedAt != [] && r.acceptedAt[|r.acceptedAt| - 1] == r.curAt ==> r.prev == r.cur)
    && (forall s | s in r.samples :: s.acceptedBefore <= |r.acceptedAt|)
    && (forall s, i | s in r.samples && 0 <= i < |r.acceptedAt| && i < s.acceptedBefore :: r.acceptedAt[i] < s.at)
  }

  lemma AcceptedGrows(samples: seq<Sample>, accepted: seq<SeqNum16>, frame: SeqNum16)
    requires forall s | s in samples :: RefersToAccepted(s, accepted)
    ensures forall s | s in samples :: RefersToAccepted(s, accepted + [frame])
  {
    forall s | s in samples ensures RefersToAccepted(s, accepted + [frame]) {
      assert RefersToAccepted(s, accepted);
      assert (accepted + [frame])[..s.acceptedBefore] == accepted[..s.acceptedBefore];
    }
  }

  lemma FlushAccepted(r: Receiver, e: Flush)
    requires |r.refs| == REFS && r.cur >= 0 && r.prev != r.cur && Wrap16(r.cur) == Wrap16(r.curAt) && AcceptedInv(r)
    ensures AcceptedInv(FlushFrame(r, e))
  {
    hide Wrap16, HaveRef, AddRef, NextRef;
    var t, n := FlushFrame(r, e), |r.acceptedAt|;
    assert forall i | 0 <= i < n :: r.acceptedAt[i] < r.curAt by {
      if n > 0 { assert r.acceptedAt[n - 1] < r.curAt; }
    }
    if t.samples != r.samples {
      var s := t.samples[|r.samples|];
      assert t.samples == r.samples + [s] && s.at == r.curAt;
    }
  }

  /** A newer frame is current now. */
  lemma LaterAccepted(r: Receiver, t: Receiver)
    requires AcceptedInv(r) && t.curAt > r.curAt && t.cur >= 0
    requires t.acceptedAt == r.acceptedAt && t.accepted == r.accepted && t.samples == r.samples
    ensures AcceptedInv(t)
  {}

  lemma NothingAccepted(r: Receiver, t: Receiver)
    requires AcceptedInv(r) && r.cur < 0 && r.samples == [] && t.cur >= 0
    requires t.acceptedAt == r.acceptedAt && t.accepted == r.accepted && t.samples == r.samples
    ensures AcceptedInv(t)
  {}

  lemma FlushInv(r: Receiver, e: Flush)
    requires Inv(r) && r.cur >= 0 && r.prev != r.cur
    ensures Inv(FlushFrame(r, e))
    ensures FlushFrame(r, e).cur == r.cur && FlushFrame(r, e).curAt == r.curAt
  {
    hide Wrap16, HaveRef, AddRef, Last, WindowInv, AcceptedInv;
    var t := FlushFrame(r, e);
    AddRefInv(r.refs, r.accepted, Wrap16(r.cur));
    AcceptedGrows(r.samples, r.accepted, Wrap16(r.cur));
    assert Wrap16(r.cur) == r.cur by { Wrap16Small(r.cur); }
    FlushAccepted(r, e);
    if |t.samples| > |r.samples| {
      var s := t.samples[|r.samples|];
      assert t.samples == r.samples + [s];
      assert r.accepted[..|r.accepted|] == r.accepted;
      if s.parsed.Accepted? && s.parsed.slice.sliceType == P && s.parsed.slice.referenceFrame != NO_REFERENCE {
        HaveRefIsRecent(r.refs, r.accepted, RefIndex(r.cur, s.parsed.slice.referenceFrame));
      }
      assert RefersToAccepted(s, r.accepted);
      AcceptedGrows([s], r.accepted, Wrap16(r.cur));
    }
  }

  lemma Wrap16Small(n: int)
    requires 0 <= n < TWO16
    ensures Wrap16(n) == n
  {}

  lemma NextFrameInv(r: Receiver, p: Packet, e: Flush)
    requires Inv(r) && IsNext(r, p)
    ensures Inv(NextFrame(r, p, e))
    ensures r.cur >= 0 ==> NextFrame(r, p, e).curAt > r.curAt
  {
    hide FlushFrame, WindowInv, RefersToAccepted, Wrap16, Gt, Lt, AcceptedInv;
    var s := if r.cur >= 0 && r.prev != r.cur then FlushFrame(r, e) else r;
    if r.cur >= 0 && r.prev != r.cur { FlushInv(r, e); }
    if r.cur >= 0 {
      Wrap16Small(r.cur);
      UnwrappedLater(r.curAt, p.frameIndex);
      LaterAccepted(s, NextFrame(r, p, e));
    } else {
      Wrap16Small(p.frameIndex);
      NothingAccepted(r, NextFrame(r, p, e));
    }
  }

  lemma UnwrappedLater(at: int, frameIndex: SeqNum16)
    ensures Gt16(frameIndex, Wrap16(at)) ==> Unwrap(TWO16, at, frameIndex) > at
    ensures Wrap16(Unwrap(TWO16, at, frameIndex)) == frameIndex
  {
    CompareUnwrapped(TWO15, at, frameIndex);
  }

  lemma SameAccepted(r: Receiver, t: Receiver)
    requires AcceptedInv(r) && t == r.(profileCur := t.profileCur, headers := t.headers)
    ensures AcceptedInv(t)
  {}

  lemma PacketInv(r: Receiver, p: Packet, e: Environment)
    requires Inv(r)
    ensures Inv(AvPacket(r, p, e))
  {
    hide FlushFrame, NextFrame, WindowInv, RefersToAccepted, Wrap16, Gt, Lt, AcceptedInv;
    if !IsOld(r, p) && !BadProfile(r, p) {
      var s := SwitchProfile(r, p);
      assert AcceptedInv(s) by { SameAccepted(r, s); }
      assert Inv(s);
      var t := if IsNext(s, p) then NextFrame(s, p, e.last) else s;
      if IsNext(s, p) { NextFrameInv(s, p, e.last); NextFrameStarted(s, p, e.last); }
      if t.cur != t.prev { FlushInv(t, e.current); }
    }
  }

  lemma NextFrameStarted(r: Receiver, p: Packet, e: Flush)
    requires |r.refs| == REFS
    ensures NextFrame(r, p, e).cur >= 0
  {}

  /** Any sequence of packets, with any behaviour of the environment. */
  function Run(profilesCount: nat, packets: seq<(Packet, Environment)>): (r: Receiver)
    ensures Inv(r)
  {
    if packets == [] then
      InitInv(profilesCount);
      Init(profilesCount)
    else
      var n := |packets| - 1;
      PacketInv(Run(profilesCount, packets[..n]), packets[n].0, packets[n].1);
      AvPacket(Run(profilesCount, packets[..n]), packets[n].0, packets[n].1)
  }

  lemma InitInv(profilesCount: nat)
    ensures Inv(Init(profilesCount))
  {}

  /** Main result: over every run the window is the last 16 accepted frames; frames are handed over in strictly
      increasing order of their unwrapped indices, so each at most once; and every P slice handed over with a known
      reference refers, after rewriting, to one of the last 16 frames accepted before it. */
  lemma FramesHandedOver(profilesCount: nat, packets: seq<(Packet, Environment)>, i: nat, j: nat, frame: SeqNum16)
    ensures var r := Run(profilesCount, packets);
      && (HaveRef(r.refs, frame) <==> frame in Last(r.accepted, REFS))
      && (i < j < |r.samples| ==> r.samples[i].at < r.samples[j].at)
      && (i < |r.samples| ==>
            r.samples[i].frameIndex == Wrap16(r.samples[i].at) && RefersToAccepted(r.samples[i], r.accepted))
  {
    var r := Run(profilesCount, packets);
    HaveRefIsRecent(r.refs, r.accepted, frame);
  }

  /** References match on 16-bit numbers: the frame matched is the one meant, by unwrapped indices, if and only if it is
      no more than 2^16 + k frames back. */
  lemma ReferenceIsExact(profilesCount: nat, packets: seq<(Packet, Environment)>, s: Sample, j: nat)
    ensures var r := Run(profilesCount, packets);
      && |r.acceptedAt| == |r.accepted|
      && (s in r.samples && j < |r.accepted| && j < s.acceptedBefore && MatchedBy(s, r.accepted[j]) ==>
            var k := s.parsed.slice.referenceFrame;
            && r.accepted[j] == Wrap16(r.acceptedAt[j])
            && (r.acceptedAt[j] == s.at - k - 1 <==> s.at - r.acceptedAt[j] <= TWO16 + k))
  {
    hide Wrap16, RefIndex;
    var r := Run(profilesCount, packets);
    if s in r.samples && j < |r.accepted| && j < s.acceptedBefore && MatchedBy(s, r.accepted[j]) {
      SameFrame(s.at, s.parsed.slice.referenceFrame, r.acceptedAt[j]);
    }
  }

  /** The sample's reference matches an accepted frame. */
  predicate MatchedBy(s: Sample, accepted: SeqNum16) {
    && s.parsed.Accepted? && s.parsed.slice.referenceFrame < TWO16
    && accepted == RefIndex(s.frameIndex, s.parsed.slice.referenceFrame)
  }

  const INTRA := Accepted(Slice(I, NO_REFERENCE))
  const REFERS_TO_PREVIOUS := Accepted(Slice(P, 0))

  function Unit(frameIndex: SeqNum16): Packet {
    Packet.Packet(frameIndex, 0, 0, 1)
  }

  /** A frame of one unit, flushed at once with this outcome, as is the one before if it still needs it. */
  function FlushedAtOnce(result: FlushResult, parsed: Parsed): Environment {
    var e := Flush(result, parsed, {}, true, true);
    Environment(Flush(FlushFailed, parsed, {}, true, true), true, e)
  }

  /** Frame 0 is accepted; the frames 20000, 40000 and 60000 fail; then comes frame 1, more than 2^16 after the first
      one, and refers to the frame before it. */
  function LongGap(): seq<(Packet, Environment)> {
    [(Unit(0), FlushedAtOnce(FlushSuccess, INTRA)),
     (Unit(20000), FlushedAtOnce(FlushFailed, INTRA)),
     (Unit(40000), FlushedAtOnce(FlushFailed, INTRA)),
     (Unit(60000), FlushedAtOnce(FlushFailed, INTRA)),
     (Unit(1), FlushedAtOnce(FlushSuccess, REFERS_TO_PREVIOUS))]
  }

  lemma RunStep(profilesCount: nat, packets: seq<(Packet, Environment)>, last: (Packet, Environment))
    ensures Run(profilesCount, packets + [last]) == AvPacket(Run(profilesCount, packets), last.0, last.1)
  {
    hide AvPacket;
    assert (packets + [last])[..|packets|] == packets;
  }

  lemma FirstAccepted()
    ensures var e := FlushedAtOnce(FlushSuccess, INTRA);
      var r := AvPacket(Init(1), Unit(0), e);
      && r.cur == r.prev == r.prevComplete == r.curAt == 0 && r.profileCur == 0 && r.profilesCount == 1
      && r.refs == Init(1).refs[REFS - 1 := 0] && r.accepted == [0] && r.acceptedAt == [0] && |r.samples| == 1
  {
    var refs := Init(1).refs;
    assert LastFree(refs, REFS) == REFS - 1;
  }

  /** A frame that fails, 20000 behind the current one, leaves all but the current index as it is. */
  lemma FailedFrame(r: Receiver, frameIndex: SeqNum16)
    requires |r.refs| == REFS && r.profileCur == 0 && 0 <= r.cur && r.cur == Wrap16(r.curAt)
    requires frameIndex == r.cur + 20000
    ensures var t := AvPacket(r, Unit(frameIndex), FlushedAtOnce(FlushFailed, INTRA));
      t == r.(cur := frameIndex, curAt := r.curAt + 20000, corrupt := t.corrupt)
  {
    hide HaveRef, AddRef, NextRef, RefMissing;
    LaterFrame(r.curAt, r.cur, frameIndex);
    hide Unwrap, Wrap16, Gt, Lt;
    var p, e := Unit(frameIndex), FlushedAtOnce(FlushFailed, INTRA);
    var t := NextFrame(r, p, e.last);
    assert FlushFrame(r, e.last) == r && FlushFrame(t, e.current) == t;
    assert t == r.(cur := frameIndex, curAt := r.curAt + 20000, corrupt := t.corrupt);
  }

  lemma LaterFrame(at: int, cur: nat, frameIndex: SeqNum16)
    requires cur == Wrap16(at) && frameIndex == cur + 20000
    ensures Wrap16(cur) == cur && Gt16(frameIndex, Wrap16(cur)) && !Lt16(frameIndex, Wrap16(cur))
    ensures Unwrap(TWO16, at, frameIndex) == at + 20000
  {
    Wrap16Small(cur);
    assert Wrap16(at + 20000) == frameIndex by { WrapMinus(at + 20000, 20000); }
    UnwrapNear(TWO16, at, at + 20000);
  }

  lemma LastFrame(r: Receiver)
    requires |r.refs| == REFS && r.profileCur == 0 && r.cur == 60000 && r.curAt == 60000 && r.prev == 0
    requires HaveRef(r.refs, 0)
    ensures var t := AvPacket(r, Unit(1), FlushedAtOnce(FlushSuccess, REFERS_TO_PREVIOUS));
      && t.accepted == r.accepted + [1] && t.acceptedAt == r.acceptedAt + [TWO16 + 1]
      && t.samples == r.samples
           + [Sample(TWO16 + 1, 1, r.framesLost, false, REFERS_TO_PREVIOUS, REFERS_TO_PREVIOUS, |r.accepted|)]
  {
    hide AddRef, HaveRef;
    UnwrapNear(TWO16, 60000, TWO16 + 1);
    assert RefIndex(1, 0) == 0;
  }

  /** An instance of a wrong match: after that run the last sample refers to the frame before it, which was never
      accepted; the number it matches is that of a frame 2^16 older. */
  lemma WrongMatch()
    ensures var r := Run(1, LongGap());
      && |r.samples| == 2 && r.acceptedAt == [0, TWO16 + 1]
      && var s := r.samples[1];
         && s.at == TWO16 + 1 && s.parsed == REFERS_TO_PREVIOUS && !s.recovered && s.acceptedBefore == 1
         && MatchedBy(s, r.accepted[0]) && r.acceptedAt[0] == 0 && s.at - 1 !in r.acceptedAt
  {
    hide AvPacket, Run, Inv, HaveRef;
    var ps := LongGap();
    RunOfFive(ps[0], ps[1], ps[2], ps[3], ps[4]);
    assert ps == [ps[0], ps[1], ps[2], ps[3], ps[4]];
    var r1 := AvPacket(Init(1), ps[0].0, ps[0].1);
    FirstAccepted();
    FailedFrame(r1, 20000);
    var r2 := AvPacket(r1, ps[1].0, ps[1].1);
    FailedFrame(r2, 40000);
    var r3 := AvPacket(r2, ps[2].0, ps[2].1);
    FailedFrame(r3, 60000);
    var r4 := AvPacket(r3, ps[3].0, ps[3].1);
    assert HaveRef(r4.refs, 0) by { HaveAt(r4.refs, REFS - 1); }
    LastFrame(r4);
  }

  lemma HaveAt(refs: seq<int>, i: nat)
    requires i < |refs|
    ensures HaveRef(refs, refs[i])
  {}

  lemma RunOfFive(a: (Packet, Environment), b: (Packet, Environment), c: (Packet, Environment),
                  d: (Packet, Environment), e: (Packet, Environment))
    ensures var r := AvPacket(Init(1), a.0, a.1);
      Run(1, [a, b, c, d, e]) == AvPacket(AvPacket(AvPacket(AvPacket(r, b.0, b.1), c.0, c.1), d.0, d.1), e.0, e.1)
  {
    hide AvPacket, Inv;
    RunStep(1, [], a);
    assert [] + [a] == [a];
    hide Run;
    RunStep(1, [a], b);
    RunStep(1, [a, b], c);
    RunStep(1, [a, b, c], d);
    RunStep(1, [a, b, c, d], e);
    assert [a] + [b] == [a, b] && [a, b] + [c] == [a, b, c];
    assert [a, b, c] + [d] == [a, b, c, d] && [a, b, c, d] + [e] == [a, b, c, d, e];
  }

  lemma SameFrame(at: int, k: nat, other: int)
    requires other < at && k < TWO16 && Wrap16(other) == RefIndex(Wrap16(at), k)
    ensures other == at - k - 1 <==> at - other <= TWO16 + k
  {
    if at - other <= TWO16 + k {
      assert Wrap16(at - k - 1) == RefIndex(Wrap16(at), k) by { WrapMinus(at, k + 1); }
      SameResidue(TWO16, other, at - k - 1);
    }
  }

  lemma WrapMinus(n: int, k: nat)
    ensures Wrap16(Wrap16(n) - k) == Wrap16(n - k)
  {}

  /** With the parser and the rewriter of SliceHeader on the bits of the frame, `final` is what the parser says of the
      bits that the callback gets. */
  lemma HandedOverAsParsed(r: Receiver, e: Flush, bits: seq<bool>, pocBits: nat, given: Slice)
    requires |r.refs| == REFS
    ensures var t := FlushFrame(r, e);
      IsEnvironment(e, bits, pocBits, given) && |t.samples| > |r.samples| ==>
        var s := t.samples[|r.samples|];
        if s.recovered then
          && s.parsed.Accepted?
          && var k := s.parsed.slice.referenceFrame;
             && k < REFS && Rewrite(bits, pocBits, k).Read?
             && var after := Parse(WithFlags(bits, Rewrite(bits, pocBits, k).value.flags, 0, k), pocBits, given);
             after.Read? && after.value == s.parsed
        else s.parsed == Parse(bits, pocBits, given).value
  {
    hide Parse, Rewrite, WithFlags, HaveRef, AddRef, Wrap16;
    var t := FlushFrame(r, e);
    if IsEnvironment(e, bits, pocBits, given) && |t.samples| > |r.samples| && t.samples[|r.samples|].recovered {
      PatchThenParse(bits, pocBits, t.samples[|r.samples|].parsed.slice.referenceFrame, given);
    }
  }

  /** What the parser and the rewriter make of the bits of the frame */
  ghost predicate IsEnvironment(e: Flush, bits: seq<bool>, pocBits: nat, given: Slice) {
    && Parse(bits, pocBits, given).Read? && e.parsed == Parse(bits, pocBits, given).value
    && forall k: nat | k < REFS ::
         k in e.rewritable <==> Rewrite(bits, pocBits, k).Read? && Rewrite(bits, pocBits, k).value.done
  }

  /** struct chiaki_video_receiver_t; samples, headers, corrupt, curAt, accepted and acceptedAt are its history. */
  class VideoReceiver {
    const profilesCount: nat
    var profileCur: int
    var frameIndexCur: int
    var frameIndexPrev: int
    var frameIndexPrevComplete: int
    var framesLost: int
    const referenceFrames: array<int>
    var samples: seq<Sample>
    var headers: seq<nat>
    var corrupt: seq<(SeqNum16, SeqNum16)>
    var curAt: int
    var accepted: seq<SeqNum16>
    var acceptedAt: seq<int>

    ghost function View(): Receiver
      reads this, referenceFrames
    {
      Receiver(profilesCount, profileCur, frameIndexCur, frameIndexPrev, frameIndexPrevComplete, framesLost,
               referenceFrames[..], curAt, samples, accepted, acceptedAt, headers, corrupt)
    }

    /** chiaki_video_receiver_init, with the profiles of the stream info */
    constructor (profilesCount: nat)
      ensures fresh(referenceFrames) && View() == Init(profilesCount)
    {
      this.profilesCount := profilesCount;
      profileCur, frameIndexCur, frameIndexPrev, frameIndexPrevComplete, framesLost := -1, -1, -1, 0, 0;
      referenceFrames := new int[REFS](_ => -1);
      samples, headers, corrupt, curAt, accepted, acceptedAt := [], [], [], -1, [], [];
    }

    /** add_ref_frame */
    method AddRefFrame(frame: int)
      requires referenceFrames.Length == REFS
      modifies referenceFrames
      ensures referenceFrames[..] == AddRef(old(referenceFrames[..]), frame)
    {
      ghost var was := referenceFrames[..];
      if referenceFrames[0] != -1 {
        var i := REFS - 1;
        while i > 0
          invariant 0 <= i < REFS
          invariant forall k | 0 <= k <= i :: referenceFrames[k] == was[k]
          invariant forall k | i < k < REFS :: referenceFrames[k] == was[k - 1]
        {
          referenceFrames[i] := referenceFrames[i - 1];
          i := i - 1;
        }
        referenceFrames[0] := frame;
        return;
      }
      var i := REFS - 1;
      while i >= 0
        invariant -1 <= i < REFS && referenceFrames[..] == was
        invariant LastFree(was, REFS) == LastFree(was, i + 1)
      {
        if referenceFrames[i] == -1 {
          referenceFrames[i] := frame;
          return;
        }
        i := i - 1;
      }
    }

    /** have_ref_frame */
    method HaveRefFrame(frame: int) returns (found: bool)
      requires referenceFrames.Length == REFS
      ensures found == HaveRef(referenceFrames[..], frame)
    {
      var i := 0;
      while i < REFS
        invariant 0 <= i <= REFS
        invariant forall k | 0 <= k < i :: referenceFrames[k] != frame
      {
        if referenceFrames[i] == frame {
          assert referenceFrames[..][i] == frame;
          return true;
        }
        i := i + 1;
      }
      return false;
    }

    /** chiaki_video_receiver_flush_frame */
    method FlushCurrent(e: Flush)
      requires referenceFrames.Length == REFS
      modifies this, referenceFrames
      ensures View() == FlushFrame(old(View()), e)
    {
      hide Wrap16, HandOver, HaveRef, NextRef, RefMissing;
      if e.result == FlushFailed || e.result == FecFailed {
        if e.result == FecFailed {
          var nextFrameExpected := Wrap16(frameIndexPrevComplete + 1);
          corrupt := corrupt + [(nextFrameExpected, Wrap16(frameIndexCur))];
          framesLost := framesLost + frameIndexCur - nextFrameExpected + 1;
          frameIndexPrev := frameIndexCur;
        }
        return;
      }
      var missing, recovered, parsed := CheckReference(e);
      if missing && !recovered {
        framesLost := framesLost + 1;
        frameIndexPrev := frameIndexCur;
        return;
      }
      HandOverFrame(e, recovered, parsed);
    }

    /** The middle of flush_frame: a P slice whose reference frame is missing gets another one, if possible. */
    method CheckReference(e: Flush) returns (missing: bool, recovered: bool, parsed: Parsed)
      requires referenceFrames.Length == REFS
      ensures missing == RefMissing(View(), e.parsed)
      ensures var k := if missing then NextRef(referenceFrames[..], frameIndexCur, e.parsed.slice.referenceFrame + 1)
                       else REFS;
        && recovered == (missing && k < REFS && k in e.rewritable)
        && parsed == if recovered then Accepted(e.parsed.slice.(referenceFrame := k)) else e.parsed
    {
      hide Wrap16, HaveRef, NextRef;
      missing, recovered, parsed := false, false, e.parsed;
      if parsed.Accepted? && parsed.slice.sliceType == P {
        var have := HaveRefFrame(RefIndex(frameIndexCur, parsed.slice.referenceFrame));
        if parsed.slice.referenceFrame != NO_REFERENCE && !have {
          missing := true;
          var k := FindReference(parsed.slice.referenceFrame + 1);
          if k < REFS && k in e.rewritable {
            recovered := true;
            parsed := Accepted(parsed.slice.(referenceFrame := k));
          }
        }
      }
    }

    /** The end of flush_frame, unless the reference is missing. */
    method HandOverFrame(e: Flush, recovered: bool, parsed: Parsed)
      requires referenceFrames.Length == REFS
      modifies this, referenceFrames
      ensures View() == HandOver(old(View()), e, recovered, parsed)
    {
      hide Wrap16, AddRef;
      var succ := true;
      if e.hasCallback {
        samples := samples
          + [Sample(curAt, Wrap16(frameIndexCur), framesLost, recovered, e.parsed, parsed, |accepted|)];
        framesLost := 0;
        if e.accepted {
          AddRefFrame(frameIndexCur);
          accepted := accepted + [Wrap16(frameIndexCur)];
          acceptedAt := acceptedAt + [curAt];
        } else {
          succ := false;
        }
      }
      frameIndexPrev := frameIndexCur;
      if succ {
        frameIndexPrevComplete := frameIndexCur;
      }
    }

    /** The search for a frame to refer to instead. */
    method FindReference(from: nat) returns (k: nat)
      requires referenceFrames.Length == REFS
      ensures k == NextRef(referenceFrames[..], frameIndexCur, from)
      ensures k < 16 ==> from <= k && InWindow(referenceFrames[..], frameIndexCur, k)
      ensures forall j | from <= j < k :: !InWindow(referenceFrames[..], frameIndexCur, j)
    {
      hide HaveRef, Wrap16, NextRef;
      k := from;
      while k < REFS
        invariant NextRef(referenceFrames[..], frameIndexCur, k) == NextRef(referenceFrames[..], frameIndexCur, from)
        invariant forall j | from <= j < k :: !InWindow(referenceFrames[..], frameIndexCur, j)
        invariant from <= k
      {
        NextRefStep(referenceFrames[..], frameIndexCur, k);
        var have := HaveRefFrame(RefIndex(frameIndexCur, k));
        if have {
          return;
        }
        k := k + 1;
      }
      NextRefStep(referenceFrames[..], frameIndexCur, k);
      k := REFS;
    }

    /** chiaki_video_receiver_av_packet */
    method HandleAvPacket(p: Packet, e: Environment)
      requires referenceFrames.Length == REFS
      modifies this, referenceFrames
      ensures View() == AvPacket(old(View()), p, e)
    {
      hide Wrap16, FlushFrame, NextFrame, Lt, Gt;
      if frameIndexCur >= 0 && Lt16(p.frameIndex, Wrap16(frameIndexCur)) {
        return;
      }
      if profileCur < 0 || profileCur != p.adaptiveStreamIndex {
        if p.adaptiveStreamIndex >= profilesCount {
          return;
        }
        profileCur := p.adaptiveStreamIndex;
        headers := headers + [profileCur];
      }
      if frameIndexCur < 0 || Gt16(p.frameIndex, Wrap16(frameIndexCur)) {
        BeginFrame(p, e.last);
      }
      if frameIndexCur != frameIndexPrev && (e.flushPossible || p.unitIndex == p.unitsInFrameTotal - 1) {
        FlushCurrent(e.current);
      }
    }

    /** The part of av_packet that opens a new frame. */
    method BeginFrame(p: Packet, e: Flush)
      requires referenceFrames.Length == REFS
      modifies this, referenceFrames
      ensures View() == NextFrame(old(View()), p, e)
    {
      hide Wrap16, Lt, Gt;
      if frameIndexCur >= 0 && frameIndexPrev != frameIndexCur {
        FlushCurrent(e);
      }
      var nextFrameExpected := Wrap16(frameIndexPrevComplete + 1);
      if Gt16(p.frameIndex, nextFrameExpected) && !(p.frameIndex == 1 && frameIndexCur < 0) {
        corrupt := corrupt + [(nextFrameExpected, Wrap16(p.frameIndex - 1))];
      }
      curAt := if frameIndexCur < 0 then p.frameIndex else Unwrap(TWO16, curAt, p.frameIndex);
      frameIndexCur := p.frameIndex;
    }
  }
}
