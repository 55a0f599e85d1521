/** What one pass of the resend thread sends, of lib/src/takionsendbuffer.c: without a packet to give up, exactly the
    packets that are due; and a give-up makes it leave out some packets that follow. */
module ResendPass {
  import opened Powers
  import opened SeqNum
  import opened Sequences
  import opened SendBuffer

  function DueAt(now: nat): Packet -> bool {
    p => Expired(p, now)
  }

  /** A packet is due more than 200 ms after it was last sent, or else if that lies in the future; and it has had all
      its tries with the 25th. */
  lemma DueAfter(p: Packet, now: nat)
    requires now < TWO64 && p.lastSendMs < TWO64
    ensures Expired(p, now) <==> now - p.lastSendMs > 200 || -(TWO64 - 200) < now - p.lastSendMs < 0
    ensures Exhausted(p, now) <==> Expired(p, now) && p.tries >= 25
  {}

  function Bufs(packets: seq<Packet>): (bufs: seq<seq<int>>)
    ensures |bufs| == |packets| && forall i | 0 <= i < |packets| :: bufs[i] == packets[i].buf
  {
    seq(|packets|, i requires 0 <= i < |packets| => packets[i].buf)
  }

  /** The buffer after the packets due among i..k have been sent again */
  function Repeated(packets: seq<Packet>, i: nat, k: nat, now: nat): (r: seq<Packet>)
    ensures |r| == |packets|
    ensures forall j | 0 <= j < |packets| ::
              r[j] == if i <= j < k && Expired(packets[j], now)
                      then packets[j].(lastSendMs := now, tries := packets[j].tries + 1) else packets[j]
  {
    seq(|packets|, j requires 0 <= j < |packets| =>
      if i <= j < k && Expired(packets[j], now)
      then packets[j].(lastSendMs := now, tries := packets[j].tries + 1) else packets[j])
  }

  ghost predicate NoneExhausted(packets: seq<Packet>, i: nat, k: nat, now: nat) {
    forall j | i <= j < k && j < |packets| :: !Exhausted(packets[j], now)
  }

  /** The pass up to index k, when nothing is given up before: it sends again exactly the packets that are due, in their
      order and each once. */
  lemma {:induction false} PassUpTo(packets: seq<Packet>, i: nat, k: nat, now: nat) returns (due: seq<Packet>)
    requires i <= k <= |packets| && NoneExhausted(packets, i, k, now)
    ensures Filtered(packets[i..k], DueAt(now), due)
    ensures var rest := ResendFrom(Repeated(packets, i, k, now), k, now);
      ResendFrom(packets, i, now) == Resent(rest.packets, Bufs(due) + rest.sent)
    decreases k
  {
    hide Expired, Filtered, ResendFrom;
    if i == k {
      due := [];
      assert packets[i..k] == [] && Repeated(packets, i, k, now) == packets;
      FilteredNothing(DueAt(now));
      assert Bufs([]) + ResendFrom(packets, i, now).sent == ResendFrom(packets, i, now).sent;
    } else {
      var front := PassUpTo(packets, i, k - 1, now);
      var p := packets[k - 1];
      var before := Repeated(packets, i, k - 1, now);
      FilteredAppend(packets[i..k - 1], DueAt(now), front, p);
      assert packets[i..k] == packets[i..k - 1] + [p];
      ResendStep(before, k - 1, now);
      if Expired(p, now) {
        due := front + [p];
        assert Repeated(packets, i, k, now) == before[k - 1 := p.(lastSendMs := now, tries := p.tries + 1)];
        var rest := ResendFrom(Repeated(packets, i, k, now), k, now);
        assert Bufs(front) + ([p.buf] + rest.sent) == Bufs(due) + rest.sent;
      } else {
        due := front;
        assert Repeated(packets, i, k, now) == before;
      }
    }
  }

  lemma ResendStep(packets: seq<Packet>, i: nat, now: nat)
    requires i < |packets| && !Exhausted(packets[i], now)
    ensures var p := packets[i];
      ResendFrom(packets, i, now) ==
        if Expired(p, now) then
          var r := ResendFrom(packets[i := p.(lastSendMs := now, tries := p.tries + 1)], i + 1, now);
          Resent(r.packets, [p.buf] + r.sent)
        else ResendFrom(packets, i + 1, now)
  {
    hide Expired;
  }

  lemma PassEnds(packets: seq<Packet>, i: nat, now: nat)
    requires i >= |packets|
    ensures ResendFrom(packets, i, now) == Resent(packets, [])
  {}

  /** A pass that has nothing to give up from index i on sends again exactly the packets that are due from there on,
      each once and in their order, and counts it as one more try of theirs. */
  lemma PassRepeatsDue(packets: seq<Packet>, i: nat, now: nat) returns (due: seq<Packet>)
    requires i <= |packets| && NoneExhausted(packets, i, |packets|, now)
    ensures Filtered(packets[i..], DueAt(now), due)
    ensures ResendFrom(packets, i, now) == Resent(Repeated(packets, i, |packets|, now), Bufs(due))
  {
    hide Expired, Filtered, ResendFrom;
    due := PassUpTo(packets, i, |packets|, now);
    assert packets[i..|packets|] == packets[i..];
    PassEnds(Repeated(packets, i, |packets|, now), |packets|, now);
    assert Bufs(due) + [] == Bufs(due);
  }

  /** How many of the packets behind the one given up the pass leaves out: as many as there are before it, or one */
  function Skipped(before: nat, behind: nat): nat {
    var skipped := if before > 0 then before else 1;
    if behind < skipped then behind else skipped
  }

  /** A pass that gives up on one packet, with the others in ascending order around it: it removes the packets up to
      that one, those that were due among them sent once more, and leaves out the next ones, due or not. */
  lemma GiveUpSkips(a: seq<Packet>, g: Packet, b: seq<Packet>, now: nat) returns (dueA: seq<Packet>, dueB: seq<Packet>)
    requires NoneExhausted(a, 0, |a|, now) && Exhausted(g, now) && NoneExhausted(b, 0, |b|, now)
    requires (forall p <- a :: Covers(g.seqNum, p)) && (forall p <- b :: !Covers(g.seqNum, p))
    ensures Filtered(a, DueAt(now), dueA) && Filtered(b[Skipped(|a|, |b|)..], DueAt(now), dueB)
    ensures ResendFrom(a + [g] + b, 0, now)
         == Resent(Repeated(b, Skipped(|a|, |b|), |b|, now), Bufs(dueA) + Bufs(dueB))
  {
    hide Expired, Filtered, Covers, Unacked;
    var packets, k := a + [g] + b, |a|;
    assert packets[0..k] == a;
    dueA := PassUpTo(packets, 0, k, now);
    var next := Repeated(packets, 0, k, now);
    assert next[k] == g;
    assert Unacked(next, g.seqNum) == b by { OnlyLaterStay(a, g, b, next); }
    dueB := PassRepeatsDue(b, Skipped(|a|, |b|), now);
    var from := if k > 0 then k else 1;
    if from > |b| { PassEnds(b, from, now); PassEnds(b, |b|, now); }
    assert ResendFrom(next, k, now) == ResendFrom(b, from, now);
    assert ResendFrom(b, from, now) == ResendFrom(b, Skipped(|a|, |b|), now);
  }

  lemma OnlyLaterStay(a: seq<Packet>, g: Packet, b: seq<Packet>, next: seq<Packet>)
    requires |next| == |a| + 1 + |b| && next[|a|..] == [g] + b
    requires forall i | 0 <= i < |a| :: next[i].seqNum == a[i].seqNum
    requires (forall p <- a :: Covers(g.seqNum, p)) && (forall p <- b :: !Covers(g.seqNum, p))
    ensures Unacked(next, g.seqNum) == b
  {
    hide Unacked;
    var front := next[..|a| + 1];
    assert next[|a|..][0] == g && next[|a|..][1..] == b;
    assert next == front + b;
    forall i | 0 <= i < |front| ensures Covers(g.seqNum, front[i]) {
      if i < |a| { assert a[i] in a; }
    }
    UnackedTail(front, b, g.seqNum);
  }

  lemma {:induction false} UnackedTail(front: seq<Packet>, tail: seq<Packet>, seqNum: SeqNum32)
    requires (forall i | 0 <= i < |front| :: Covers(seqNum, front[i])) && (forall p <- tail :: !Covers(seqNum, p))
    ensures Unacked(front + tail, seqNum) == tail
    decreases |tail|, |front|
  {
    hide Covers;
    var all := front + tail;
    if tail != [] {
      var n := |tail| - 1;
      assert tail[n] in tail;
      assert all[..|all| - 1] == front + tail[..n];
      UnackedTail(front, tail[..n], seqNum);
    } else if front != [] {
      var n := |front| - 1;
      assert all[..|all| - 1] == front[..n] + [];
      UnackedTail(front[..n], [], seqNum);
    }
  }
}
