/** What becomes of each frame of lib/src/videoreceiver.c, in terms of the frames that the callback accepted: which are
    handed over, which are rewritten and to what, and what is reported as lost or corrupt. */
module VideoOutcomes {
  import opened SeqNum
  import opened SliceHeader
  import FrameProcessor
  import opened VideoReceiver

  // ---------------------------------------------------------------- one frame

  /** The frame that reference j means, seen from a frame, was one of the last 16 accepted. */
  ghost predicate Known(accepted: seq<SeqNum16>, frame: int, j: int) {
    (frame - j - 1) % 0x1_0000 in Last(accepted, 16)
  }

  /** A P slice that refers to a frame, and to one that is not known */
  ghost predicate Misses(r: Receiver, parsed: Parsed) {
    && parsed.Accepted? && parsed.slice.sliceType == P && parsed.slice.referenceFrame != 0xff
    && !Known(r.accepted, r.cur, parsed.slice.referenceFrame)
  }

  /** The nearest known frame further back than reference `ref`, among the 16 that a slice can refer to */
  ghost predicate Nearest(accepted: seq<SeqNum16>, frame: int, ref: nat, k: nat) {
    ref < k < 16 && Known(accepted, frame, k) && forall j: nat | ref < j < k :: !Known(accepted, frame, j)
  }

  /** The frame is complete: the callback, if there is one, gets it with this header, and with the number of frames lost
      since the last one; if it accepts the frame, later frames can refer to it. */
  ghost predicate HandedOver(r: Receiver, t: Receiver, e: Flush, recovered: bool, parsed: Parsed) {
    if e.hasCallback then
      && t.samples == r.samples + [Sample(r.curAt, r.cur % 0x1_0000, r.framesLost, recovered, e.parsed, parsed,
                                          |r.accepted|)]
      && t.framesLost == 0
      && t.accepted == r.accepted + (if e.accepted then [r.cur % 0x1_0000] else [])
      && t.acceptedAt == r.acceptedAt + (if e.accepted then [r.curAt] else [])
      && t.prevComplete == (if e.accepted then r.cur else r.prevComplete)
      && WindowInv(t.refs, t.accepted)
      && t == r.(prev := r.cur, samples := t.samples, framesLost := 0, accepted := t.accepted,
                 acceptedAt := t.acceptedAt, prevComplete := t.prevComplete, refs := t.refs)
    else
      t == r.(prev := r.cur, prevComplete := r.cur)
  }

  lemma KnownIsReference(r: Receiver, j: nat)
    requires WindowInv(r.refs, r.accepted)
    ensures HaveRef(r.refs, RefIndex(r.cur, j)) <==> Known(r.accepted, r.cur, j)
  {
    hide WindowInv;
    HaveRefIsRecent(r.refs, r.accepted, RefIndex(r.cur, j));
  }

  lemma NextIsNearest(r: Receiver, ref: nat)
    requires WindowInv(r.refs, r.accepted)
    ensures var k := NextRef(r.refs, r.cur, ref + 1);
      if k < 16 then Nearest(r.accepted, r.cur, ref, k)
      else forall j: nat | ref < j < 16 :: !Known(r.accepted, r.cur, j)
  {
    hide WindowInv, HaveRef, Known, Wrap16;
    var k := NextRef(r.refs, r.cur, ref + 1);
    forall j: nat ensures HaveRef(r.refs, RefIndex(r.cur, j)) <==> Known(r.accepted, r.cur, j) {
      KnownIsReference(r, j);
    }
  }

  lemma MissesReference(r: Receiver, parsed: Parsed)
    requires WindowInv(r.refs, r.accepted)
    ensures RefMissing(r, parsed) <==> Misses(r, parsed)
  {
    hide WindowInv, HaveRef, Known, Wrap16;
    if parsed.Accepted? { KnownIsReference(r, parsed.slice.referenceFrame); }
  }

  /** Main result: what a flush does in any reachable state. A complete frame is handed over as it is if it refers to
      no frame or to a known one. Otherwise it is handed over rewritten to the nearest known frame further back, if
      there is one and it can be rewritten to that; if not, it is lost, and counted. */
  lemma FlushOutcome(r: Receiver, e: Flush)
    requires Inv(r) && r.cur >= 0
    ensures var t := FlushFrame(r, e);
      match e.result
      case FlushFailed => t == r
      case FecFailed =>
        var first := (r.prevComplete + 1) % 0x1_0000;
        t == r.(corrupt := r.corrupt + [(first, r.cur)], framesLost := r.framesLost + r.cur - first + 1, prev := r.cur)
      case _ =>
        if !Misses(r, e.parsed) then HandedOver(r, t, e, false, e.parsed)
        else if exists k :: Nearest(r.accepted, r.cur, e.parsed.slice.referenceFrame, k) && k in e.rewritable then
          var k :| Nearest(r.accepted, r.cur, e.parsed.slice.referenceFrame, k) && k in e.rewritable;
          HandedOver(r, t, e, true, Accepted(e.parsed.slice.(referenceFrame := k)))
        else t == r.(framesLost := r.framesLost + 1, prev := r.cur)
  {
    hide WindowInv, HaveRef, Known, HandedOver, HandOver, RefMissing, Wrap16;
    InvWindow(r);
    if e.result.FlushFailed? || e.result.FecFailed? {
      FailedOutcome(r, e);
    } else {
      MissesReference(r, e.parsed);
      HandOverOutcome(r, e, false, e.parsed);
      if Misses(r, e.parsed) {
        var ref := e.parsed.slice.referenceFrame;
        NextIsNearest(r, ref);
        var k := NextRef(r.refs, r.cur, ref + 1);
        if k < 16 {
          HandOverOutcome(r, e, true, Accepted(e.parsed.slice.(referenceFrame := k)));
          forall j | Nearest(r.accepted, r.cur, ref, j) ensures j == k {
            OneNearest(r.accepted, r.cur, ref, j, k);
          }
        }
      }
    }
  }

  lemma OneNearest(accepted: seq<SeqNum16>, frame: int, ref: nat, j: nat, k: nat)
    requires Nearest(accepted, frame, ref, j) && Nearest(accepted, frame, ref, k)
    ensures j == k
  {
    hide Known;
  }

  lemma InvWindow(r: Receiver)
    requires Inv(r)
    ensures |r.refs| == REFS && WindowInv(r.refs, r.accepted) && -1 <= r.cur < TWO16
  {
    hide WindowInv;
  }

  lemma FailedOutcome(r: Receiver, e: Flush)
    requires |r.refs| == REFS && 0 <= r.cur < TWO16 && (e.result.FlushFailed? || e.result.FecFailed?)
    ensures var t, first := FlushFrame(r, e), (r.prevComplete + 1) % 0x1_0000;
      t == if e.result.FlushFailed? then r
           else r.(corrupt := r.corrupt + [(first, r.cur)], framesLost := r.framesLost + r.cur - first + 1,
                   prev := r.cur)
  {}

  lemma HandOverOutcome(r: Receiver, e: Flush, recovered: bool, parsed: Parsed)
    requires |r.refs| == REFS && WindowInv(r.refs, r.accepted) && 0 <= r.cur < TWO16
    ensures HandedOver(r, HandOver(r, e, recovered, parsed), e, recovered, parsed)
  {
    hide WindowInv, AddRef;
    AddRefInv(r.refs, r.accepted, Wrap16(r.cur));
    assert Wrap16(r.cur) == r.cur;
    assert r.accepted + [] == r.accepted && r.acceptedAt + [] == r.acceptedAt;
  }

  // ---------------------------------------------------------------- whole runs

  /** A sample that was recovered asked for an unknown frame, and refers to the nearest known one further back; any
      other is what the callback should get, as it is. */
  ghost predicate RightlyRecovered(s: Sample, accepted: seq<SeqNum16>) {
    && s.acceptedBefore <= |accepted|
    && if s.recovered then
         && s.asked.Accepted? && s.asked.slice.sliceType == P && s.asked.slice.referenceFrame != 0xff
         && var ref, before := s.asked.slice.referenceFrame, accepted[..s.acceptedBefore];
            !Known(before, s.frameIndex, ref)
            && exists k :: Nearest(before, s.frameIndex, ref, k)
                           && s.parsed == Accepted(s.asked.slice.(referenceFrame := k))
       else s.parsed == s.asked
  }

  lemma StillRightly(s: Sample, accepted: seq<SeqNum16>, more: seq<SeqNum16>)
    requires RightlyRecovered(s, accepted)
    ensures RightlyRecovered(s, accepted + more)
  {
    hide Nearest, Known;
    assert (accepted + more)[..s.acceptedBefore] == accepted[..s.acceptedBefore];
  }

  lemma FlushRecovers(r: Receiver, e: Flush)
    requires Inv(r) && r.cur >= 0 && forall s <- r.samples :: RightlyRecovered(s, r.accepted)
    ensures forall s <- FlushFrame(r, e).samples :: RightlyRecovered(s, FlushFrame(r, e).accepted)
  {
    InvWindow(r);
    hide RightlyRecovered, Inv, FlushFrame, Nearest, Misses;
    var t := FlushFrame(r, e);
    FlushOutcome(r, e);
    var more := t.accepted[|r.accepted|..];
    assert t.accepted == r.accepted + more;
    forall s <- t.samples ensures RightlyRecovered(s, t.accepted) {
      if s in r.samples {
        StillRightly(s, r.accepted, more);
      } else {
        NewRightly(r, e, s);
        StillRightly(s, r.accepted, more);
      }
    }
  }

  lemma NewRightly(r: Receiver, e: Flush, s: Sample)
    requires Inv(r) && r.cur >= 0 && s in FlushFrame(r, e).samples && s !in r.samples
    ensures RightlyRecovered(s, r.accepted)
  {
    InvWindow(r);
    hide Inv, FlushFrame;
    FlushOutcome(r, e);
    var t := FlushFrame(r, e);
    assert r.accepted[..|r.accepted|] == r.accepted && r.cur % 0x1_0000 == r.cur;
  }

  ghost predicate AllRightly(r: Receiver) {
    forall s <- r.samples :: RightlyRecovered(s, r.accepted)
  }

  lemma NextFrameRecovers(r: Receiver, p: Packet, e: Flush)
    requires Inv(r) && AllRightly(r)
    ensures AllRightly(NextFrame(r, p, e))
  {
    hide RightlyRecovered, FlushFrame, Wrap16, Gt;
    if r.cur >= 0 && r.prev != r.cur { FlushRecovers(r, e); }
  }

  lemma PacketRecovers(r: Receiver, p: Packet, e: Environment)
    requires Inv(r) && AllRightly(r)
    ensures AllRightly(AvPacket(r, p, e))
  {
    hide RightlyRecovered, FlushFrame, NextFrame, Wrap16, Gt, Lt, WindowInv, AcceptedInv, RefersToAccepted;
    if !IsOld(r, p) && !BadProfile(r, p) {
      var s := SwitchProfile(r, p);
      SwitchInv(r, p);
      var t := if IsNext(s, p) then NextFrame(s, p, e.last) else s;
      if IsNext(s, p) {
        NextFrameInv(s, p, e.last);
        NextFrameRecovers(s, p, e.last);
        NextFrameStarted(s, p, e.last);
      }
      if t.cur != t.prev { FlushRecovers(t, e.current); }
    }
  }

  lemma SwitchInv(r: Receiver, p: Packet)
    requires Inv(r)
    ensures Inv(SwitchProfile(r, p))
  {
    hide WindowInv, RefersToAccepted, Wrap16, AcceptedInv;
    SameAccepted(r, SwitchProfile(r, p)) by { hide *; }
  }

  /** Main result over whole runs: every frame handed over as recovered asked for a frame that the callback had not
      accepted among the last 16, and refers to the nearest one further back that it had; every other frame is handed
      over with its own header. */
  lemma {:induction false} RecoveredToNearest(profilesCount: nat, packets: seq<(Packet, Environment)>, i: nat)
    ensures var r := Run(profilesCount, packets); i < |r.samples| ==> RightlyRecovered(r.samples[i], r.accepted)
  {
    hide AvPacket, RightlyRecovered, Inv;
    AllRecovered(profilesCount, packets);
  }

  lemma {:induction false} AllRecovered(profilesCount: nat, packets: seq<(Packet, Environment)>)
    ensures AllRightly(Run(profilesCount, packets))
  {
    hide AvPacket, RightlyRecovered, Inv;
    if packets != [] {
      var n := |packets| - 1;
      AllRecovered(profilesCount, packets[..n]);
      PacketRecovers(Run(profilesCount, packets[..n]), packets[n].0, packets[n].1);
    }
  }

  // ---------------------------------------------------------------- what is reported

  /** How many frames there are from one 16-bit index to another */
  function FramesFrom(first: int, last: int): nat {
    (last - first) % 0x1_0000 + 1
  }

  /** A frame that error correction could not complete counts all frames of the range reported with it as lost, if and
      only if the index does not start again from zero in that range. */
  lemma LostIsCounted(r: Receiver, e: Flush)
    requires Inv(r) && r.cur >= 0 && e.result.FecFailed?
    ensures var t, first := FlushFrame(r, e), (r.prevComplete + 1) % 0x1_0000;
      && t.corrupt == r.corrupt + [(first, r.cur)]
      && (t.framesLost - r.framesLost == FramesFrom(first, r.cur) <==> first <= r.cur)
  {
    hide Inv;
    FlushOutcome(r, e);
    InvWindow(r);
  }

  /** 16-bit index `a` lies less than half the index space before `b`. */
  predicate Precedes(a: int, b: int) {
    0 < (b - a) % 0x1_0000 < 0x8000
  }

  /** The report about frames missing in front of a new one: from the frame behind the last complete one up to it, if it
      lies ahead of that. The first frame of all may be number 1. */
  function Gap(prevComplete: int, cur: int, frameIndex: SeqNum16): seq<(SeqNum16, SeqNum16)> {
    var first := (prevComplete + 1) % 0x1_0000;
    if Precedes(first, frameIndex) && !(cur < 0 && frameIndex == 1) then [(first, (frameIndex - 1) % 0x1_0000)] else []
  }

  /** What a packet does in any reachable state. One of an older frame, or of an unknown profile, does nothing. One
      ahead of the current frame opens a new one, after a flush of the current frame if that has none yet. And the
      packet's own frame, unless it has been flushed, is flushed if the frame processor can or with the frame's last
      unit. */
  lemma PacketOutcome(r: Receiver, p: Packet, e: Environment)
    requires Inv(r)
    ensures var t := AvPacket(r, p, e);
      if (r.cur >= 0 && Precedes(p.frameIndex, r.cur))
         || (p.adaptiveStreamIndex != r.profileCur && p.adaptiveStreamIndex >= r.profilesCount) then t == r
      else
        var profile := p.adaptiveStreamIndex;
        var s := r.(profileCur := profile, headers := r.headers + if profile == r.profileCur then [] else [profile]);
        var g := if r.cur >= 0 && !Precedes(r.cur, p.frameIndex) then s
                 else
                   var f := if r.cur >= 0 && r.prev != r.cur then FlushFrame(s, e.last) else s;
                   f.(corrupt := f.corrupt + Gap(f.prevComplete, r.cur, p.frameIndex), cur := p.frameIndex,
                      curAt := if r.cur < 0 then p.frameIndex else r.curAt + (p.frameIndex - r.cur) % 0x1_0000);
        t == if g.prev != g.cur && (e.flushPossible || p.unitIndex + 1 == p.unitsInFrameTotal)
             then FlushFrame(g, e.current) else g
  {
    hide WindowInv, RefersToAccepted, AcceptedInv, FlushFrame, NextFrame, Wrap16, Lt, Gt;
    Wrap16Small(p.frameIndex);
    if r.cur >= 0 {
      Wrap16Small(r.cur);
      PrecedesIs(p.frameIndex, r.cur);
      PrecedesIs(r.cur, p.frameIndex);
    }
    var s := SwitchProfile(r, p);
    assert s == r.(profileCur := p.adaptiveStreamIndex, headers := s.headers);
    assert s.headers == r.headers + if p.adaptiveStreamIndex == r.profileCur then [] else [p.adaptiveStreamIndex];
    if !IsOld(r, p) && !BadProfile(r, p) && IsNext(s, p) {
      SwitchInv(r, p);
      OpenedFrame(s, p, e.last);
    }
  }

  lemma PrecedesIs(a: SeqNum16, b: SeqNum16)
    ensures Precedes(a, b) <==> Lt16(a, b)
    ensures Precedes(a, b) <==> Gt16(b, a)
  {}

  lemma OpenedFrame(s: Receiver, p: Packet, e: Flush)
    requires Inv(s) && IsNext(s, p)
    ensures var f := if s.cur >= 0 && s.prev != s.cur then FlushFrame(s, e) else s;
      NextFrame(s, p, e) ==
        f.(corrupt := f.corrupt + Gap(f.prevComplete, s.cur, p.frameIndex), cur := p.frameIndex,
           curAt := if s.cur < 0 then p.frameIndex else s.curAt + (p.frameIndex - s.cur) % 0x1_0000)
  {
    hide WindowInv, RefersToAccepted, AcceptedInv, FlushFrame, Lt, Gt, Wrap16;
    if s.cur >= 0 && s.prev != s.cur { FlushInv(s, e); }
    var f := if s.cur >= 0 && s.prev != s.cur then FlushFrame(s, e) else s;
    WrapIs(f.prevComplete + 1);
    WrapIs(p.frameIndex - 1);
    PrecedesIs(Wrap16(f.prevComplete + 1), p.frameIndex);
    assert f.corrupt + [] == f.corrupt;
    if s.cur >= 0 {
      Wrap16Small(s.cur);
      UnwrapAhead(s.curAt, s.cur, p.frameIndex);
    }
  }

  lemma WrapIs(n: int)
    ensures Wrap16(n) == n % 0x1_0000
  {}

  lemma UnwrapAhead(at: int, cur: SeqNum16, frameIndex: SeqNum16)
    requires cur == Wrap16(at) && Gt16(frameIndex, cur)
    ensures Unwrap(TWO16, at, frameIndex) == at + (frameIndex - cur) % 0x1_0000
  {
    ForwardDistance(TWO16, at, frameIndex);
    SmallDistance(frameIndex, cur);
  }

  lemma SmallDistance(a: SeqNum16, b: SeqNum16)
    ensures (a - b) % 0x1_0000 == if a >= b then a - b else a - b + 0x1_0000
  {}

  // ---------------------------------------------------------------- an instance of a wrong count

  /** Frame 65534 is accepted, then frame 1 cannot be completed, then frame 2 is accepted. */
  function AcrossZero(): seq<(Packet, Environment)> {
    [(Unit(65534), FlushedAtOnce(FrameProcessor.FlushSuccess, INTRA)),
     (Unit(1), FlushedAtOnce(FrameProcessor.FecFailed, INTRA)),
     (Unit(2), FlushedAtOnce(FrameProcessor.FlushSuccess, INTRA))]
  }

  /** A new frame that is flushed at once, when the one before it has been flushed */
  lemma NewFrameFlushed(r: Receiver, frameIndex: SeqNum16, result: FrameProcessor.FlushResult) returns (g: Receiver)
    requires Inv(r) && r.profilesCount == 1 && r.cur == r.prev && (r.cur < 0 || Precedes(r.cur, frameIndex))
    ensures var e := FlushedAtOnce(result, INTRA);
      && Inv(g) && Inv(AvPacket(r, Unit(frameIndex), e)) && AvPacket(r, Unit(frameIndex), e) == FlushFrame(g, e.current)
      && g == r.(profileCur := 0, cur := frameIndex, curAt := g.curAt, corrupt := g.corrupt, headers := g.headers)
  {
    var p, e := Unit(frameIndex), FlushedAtOnce(result, INTRA);
    var s := SwitchProfile(r, p);
    if r.cur >= 0 {
      PrecedesIs(r.cur, frameIndex);
      Wrap16Small(r.cur);
    }
    hide Inv, FlushFrame, Lt, Gt, Wrap16;
    assert IsNext(s, p) && s == r.(profileCur := 0, headers := s.headers);
    SwitchInv(r, p);
    NextFrameInv(s, p, e.last);
    OpenedFrame(s, p, e.last);
    PacketInv(r, p, e);
    g := NextFrame(s, p, e.last);
  }

  /** The callback is told of -65533 lost frames, where it is the three frames 65535, 0 and 1. */
  lemma WrongCount()
    ensures var r := Run(1, AcrossZero());
      |r.samples| == 2 && r.samples[1].frameIndex == 2 && r.samples[1].framesLost == -65533
    ensures FramesFrom(65535, 1) == 3
  {
    hide AvPacket, FlushFrame, Run, Inv;
    var ps := AcrossZero();
    InitInv(1);
    var g1 := NewFrameFlushed(Init(1), 65534, FrameProcessor.FlushSuccess);
    FlushOutcome(g1, ps[0].1.current);
    var r1 := AvPacket(Init(1), ps[0].0, ps[0].1);
    var g2 := NewFrameFlushed(r1, 1, FrameProcessor.FecFailed);
    FlushOutcome(g2, ps[1].1.current);
    var r2 := AvPacket(r1, ps[1].0, ps[1].1);
    var g3 := NewFrameFlushed(r2, 2, FrameProcessor.FlushSuccess);
    FlushOutcome(g3, ps[2].1.current);
    RunOfThree(ps[0], ps[1], ps[2]);
  }

  lemma RunOfThree(a: (Packet, Environment), b: (Packet, Environment), c: (Packet, Environment))
    ensures Run(1, [a, b, c]) == AvPacket(AvPacket(AvPacket(Init(1), a.0, a.1), b.0, b.1), c.0, c.1)
  {
    hide AvPacket, Inv;
    RunStep(1, [], a);
    assert [] + [a] == [a];
    hide Run;
    RunStep(1, [a], b);
    RunStep(1, [a, b], c);
    assert [a] + [b] == [a, b] && [a, b] + [c] == [a, b, c];
  }
}
