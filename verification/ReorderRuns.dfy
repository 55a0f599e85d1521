/** Whole runs of the reorder queue: conservation of items and the order in which they come out. */
module ReorderRuns {
  import opened Powers
  import opened SeqNum
  import opened ReorderQueue

  datatype Op<T> = PushOp(seqNum: SeqNum32, user: T) | PullOp

  /** A queue together with the history of what was pushed, pulled (with the unwrapped numbers in
      `pulledAt`) and passed to the drop callback. */
  datatype Run<T> = Run(window: Window<T>, pushed: seq<Entry<T>>, pulled: seq<Entry<T>>,
                        pulledAt: seq<int>, dropped: seq<Entry<T>>)

  function Step<T>(r: Run<T>, size: nat, strategy: Strategy, op: Op<T>): Run<T> {
    match op
    case PushOp(seqNum, user) =>
      var i := Insert(r.window, size, strategy, Unwrap(TWO32, r.window.begin, seqNum), user);
      r.(window := i.window, pushed := r.pushed + [(seqNum, user)], dropped := r.dropped + i.dropped)
    case PullOp =>
      var t := Take(r.window);
      r.(window := t.window, pulled := r.pulled + t.entry,
         pulledAt := if t.entry == [] then r.pulledAt else r.pulledAt + [r.window.begin])
  }

  function Exec<T>(start: SeqNum32, size: nat, strategy: Strategy, ops: seq<Op<T>>): Run<T> {
    if ops == [] then
      Run(Window(start, start, map[]), [], [], [], [])
    else
      Step(Exec(start, size, strategy, ops[..|ops| - 1]), size, strategy, ops[|ops| - 1])
  }

  /** What fini passes to the drop callback. */
  function Pending<T>(w: Window<T>): seq<Entry<T>> {
    Range(w.items, w.begin, w.end)
  }

  lemma {:induction false} WindowInvariant<T>(start: SeqNum32, size: nat, strategy: Strategy, ops: seq<Op<T>>)
    requires size > 0
    ensures Exec(start, size, strategy, ops).window.WellFormed(size)
  {
    if ops != [] {
      WindowInvariant(start, size, strategy, ops[..|ops| - 1]);
    }
  }

  ghost predicate Conserved<T>(r: Run<T>) {
    multiset(r.pushed) == multiset(r.pulled) + multiset(r.dropped) + multiset(Pending(r.window))
  }

  /** Every item pushed is exactly one of: pulled, passed to the drop callback, or still waiting (and then
      passed to the drop callback by fini). */
  lemma {:induction false} Conservation<T>(start: SeqNum32, size: nat, strategy: Strategy, ops: seq<Op<T>>)
    requires size > 0
    ensures Conserved(Exec(start, size, strategy, ops))
  {
    if ops != [] {
      Conservation(start, size, strategy, ops[..|ops| - 1]);
      WindowInvariant(start, size, strategy, ops[..|ops| - 1]);
      StepConserves(Exec(start, size, strategy, ops[..|ops| - 1]), size, strategy, ops[|ops| - 1]);
    }
  }

  lemma StepConserves<T>(r: Run<T>, size: nat, strategy: Strategy, op: Op<T>)
    requires size > 0 && r.window.WellFormed(size) && Conserved(r)
    ensures Conserved(Step(r, size, strategy, op))
  {
    var q := Step(r, size, strategy, op);
    match op
    case PushOp(seqNum, user) =>
      var s := Unwrap(TWO32, r.window.begin, seqNum);
      var i := Insert(r.window, size, strategy, s, user);
      InsertConserves(r.window, size, strategy, s, user);
      Rebalance(multiset(r.pushed), multiset(r.pulled), multiset(r.dropped), multiset(Pending(r.window)),
                multiset([(seqNum, user)]), multiset{}, multiset(i.dropped), multiset(Pending(i.window)));
      assert multiset(q.pushed) == multiset(r.pushed) + multiset([(seqNum, user)]);
      assert multiset(q.dropped) == multiset(r.dropped) + multiset(i.dropped);
    case PullOp =>
      var k := Take(r.window);
      TakeConserves(r.window);
      assert multiset(Pending(r.window)) == multiset(k.entry) + multiset(Pending(k.window));
      Rebalance(multiset(r.pushed), multiset(r.pulled), multiset(r.dropped), multiset(Pending(r.window)),
                multiset{}, multiset(k.entry), multiset{}, multiset(Pending(k.window)));
      assert multiset(q.pulled) == multiset(r.pulled) + multiset(k.entry);
  }

  /** Bookkeeping: `a` comes in, `p` is pulled and `d` dropped, and `n` replaces `m` as what is pending. */
  lemma Rebalance<E>(all: multiset<E>, pulled: multiset<E>, dropped: multiset<E>, m: multiset<E>,
                     a: multiset<E>, p: multiset<E>, d: multiset<E>, n: multiset<E>)
    requires all == pulled + dropped + m && n + p + d == m + a
    ensures all + a == (pulled + p) + (dropped + d) + n
  {
    assert all + a == pulled + dropped + (m + a);
  }

  lemma InsertConserves<T>(w: Window<T>, size: nat, strategy: Strategy, s: int, user: T)
    requires size > 0 && w.WellFormed(size)
    ensures var i := Insert(w, size, strategy, s, user);
      multiset(Pending(i.window)) + multiset(i.dropped) == multiset(Pending(w)) + multiset([(Wrap32(s), user)])
  {
    hide Wrap32;
    if s < w.begin || s in w.items {
    } else if s < w.begin + size {
      FillConserves(w, s, user);
    } else if strategy == DropBegin {
      DropBeginConserves(w, size, s, user);
    }
  }

  lemma FillConserves<T>(w: Window<T>, s: int, user: T)
    requires w.begin <= s && s !in w.items && forall i | i in w.items :: w.begin <= i < w.end
    ensures var e := if s < w.end then w.end else s + 1;
      multiset(Range(w.items[s := user], w.begin, e)) == multiset(Pending(w)) + multiset([(Wrap32(s), user)])
  {
    hide Wrap32;
    var e := if s < w.end then w.end else s + 1;
    RangeBeyond(w.items, w.begin, w.end, e);
    RangeAdd(w.items, w.begin, e, s, user);
  }

  lemma DropBeginConserves<T>(w: Window<T>, size: nat, s: int, user: T)
    requires size > 0 && w.WellFormed(size) && s >= w.begin + size
    ensures var b := BeginAfterDrop(w.begin, w.end, size, s);
      multiset(Range(From(w.items, b)[s := user], b, s + 1)) + multiset(Range(w.items, w.begin, b))
      == multiset(Pending(w)) + multiset([(Wrap32(s), user)])
  {
    hide Wrap32, Range;
    var b := BeginAfterDrop(w.begin, w.end, size, s);
    assert s !in From(w.items, b);
    RangeBeyond(w.items, w.begin, w.end, s + 1);
    RangeSplit(w.items, w.begin, b, s + 1);
    RangeFrom(w.items, b, s + 1);
    RangeAdd(From(w.items, b), b, s + 1, s, user);
    assert multiset(Pending(w)) == multiset(Range(w.items, w.begin, b)) + multiset(Range(w.items, b, s + 1));
  }

  lemma TakeConserves<T>(w: Window<T>)
    requires w.begin <= w.end && forall i | i in w.items :: w.begin <= i < w.end
    ensures Pending(w) == Take(w).entry + Pending(Take(w).window)
  {
    if w.begin in w.items {
      RangeSplit(w.items, w.begin, w.begin + 1, w.end);
      RangeFrom(w.items, w.begin + 1, w.end);
      assert w.items - {w.begin} == From(w.items, w.begin + 1);
      OneEntry(w.items, w.begin);
    }
  }

  lemma OneEntry<T>(items: map<int, T>, i: int)
    ensures Range(items, i, i + 1) == At(items, i)
  {
    assert Range(items, i, i) == [];
  }

  lemma {:induction false} RangeAdd<T>(items: map<int, T>, from: int, until: int, s: int, user: T)
    requires s !in items && from <= s
    ensures multiset(Range(items[s := user], from, until))
      == multiset(Range(items, from, until)) + (if s < until then multiset([(Wrap32(s), user)]) else multiset([]))
    decreases until - from
  {
    hide Wrap32;
    if from < until {
      var after := items[s := user];
      RangeAdd(items, from, until - 1, s, user);
      if until - 1 == s {
        assert At(items, s) == [] && At(after, s) == [(Wrap32(s), user)];
      } else {
        assert At(after, until - 1) == At(items, until - 1);
      }
    }
  }

  lemma {:induction false} RangeSplit<T>(items: map<int, T>, from: int, mid: int, until: int)
    requires from <= mid <= until
    ensures Range(items, from, until) == Range(items, from, mid) + Range(items, mid, until)
    decreases until - mid
  {
    if mid < until { RangeSplit(items, from, mid, until - 1); }
  }

  lemma {:induction false} RangeFrom<T>(items: map<int, T>, from: int, until: int)
    ensures Range(From(items, from), from, until) == Range(items, from, until)
    decreases until - from
  {
    if from < until {
      RangeFromBelow(items, from, from, until);
    }
  }

  lemma {:induction false} RangeFromBelow<T>(items: map<int, T>, low: int, from: int, until: int)
    requires low <= from
    ensures Range(From(items, low), from, until) == Range(items, from, until)
    decreases until - from
  {
    if from < until { RangeFromBelow(items, low, from, until - 1); }
  }

  /** Pulled numbers strictly increase; with the END strategy none is ever skipped. */
  lemma {:induction false} PullOrder<T>(start: SeqNum32, size: nat, strategy: Strategy, ops: seq<Op<T>>)
    requires size > 0
    ensures var r := Exec(start, size, strategy, ops);
      && |r.pulledAt| == |r.pulled|
      && (forall k | 0 <= k < |r.pulled| :: r.pulled[k].0 == Wrap32(r.pulledAt[k]) && r.pulledAt[k] < r.window.begin)
      && (forall j, k | 0 <= j < k < |r.pulledAt| :: r.pulledAt[j] < r.pulledAt[k])
      && (strategy == DropEnd ==>
            r.window.begin == start + |r.pulled| && forall k | 0 <= k < |r.pulledAt| :: r.pulledAt[k] == start + k)
  {
    if ops != [] {
      PullOrder(start, size, strategy, ops[..|ops| - 1]);
      WindowInvariant(start, size, strategy, ops[..|ops| - 1]);
    }
  }

  // ---------------------------------------------------------------- what becomes of an item

  /** Number s enters the window: it is not behind it, has not arrived yet, and is within reach of the ring, unless
      room is made at the front. */
  ghost predicate Enters<T>(w: Window<T>, size: nat, strategy: Strategy, s: int) {
    w.begin <= s && s !in w.items && (s < w.begin + size || strategy == DropBegin)
  }

  /** The entries of these items, by ascending numbers */
  ghost predicate Numbered<T>(items: map<int, T>, from: int, until: int, numbers: seq<int>, entries: seq<Entry<T>>) {
    && |numbers| == |entries|
    && (forall j | 0 <= j < |numbers| ::
          numbers[j] in items && entries[j] == (Wrap32(numbers[j]), items[numbers[j]]) && from <= numbers[j] < until)
    && (forall j, k | 0 <= j < k < |numbers| :: numbers[j] < numbers[k])
    && (forall i | i in items && from <= i < until :: i in numbers)
  }

  /** All items numbered from..until, in ascending order, and nothing else */
  ghost predicate InOrder<T>(items: map<int, T>, from: int, until: int, entries: seq<Entry<T>>) {
    exists numbers :: Numbered(items, from, until, numbers, entries)
  }

  lemma {:induction false} RangeInOrder<T>(items: map<int, T>, from: int, until: int)
    ensures InOrder(items, from, until, Range(items, from, until))
    decreases until - from
  {
    hide Wrap32;
    if from >= until {
      assert Numbered(items, from, until, [], []);
    } else {
      RangeInOrder(items, from, until - 1);
      var front :| Numbered(items, from, until - 1, front, Range(items, from, until - 1));
      NumberedAppend(items, from, until, front, Range(items, from, until - 1));
    }
  }

  lemma NumberedAppend<T>(items: map<int, T>, from: int, until: int, front: seq<int>, entries: seq<Entry<T>>)
    requires from < until && Numbered(items, from, until - 1, front, entries)
    ensures InOrder(items, from, until, entries + At(items, until - 1))
  {
    hide Wrap32;
    var numbers := if until - 1 in items then front + [until - 1] else front;
    forall i | i in items && from <= i < until ensures i in numbers {
      if i == until - 1 { assert numbers[|front|] == i; }
    }
    assert Numbered(items, from, until, numbers, entries + At(items, until - 1));
  }

  /** What a push does, whatever the number: one that enters is kept with its own item, and nothing is lost but what
      lies more than the ring's size behind it; any other goes straight to the drop callback. */
  lemma PushFate<T>(w: Window<T>, size: nat, strategy: Strategy, s: int, user: T)
    requires size > 0 && w.WellFormed(size)
    ensures var r := Insert(w, size, strategy, s, user);
      if Enters(w, size, strategy, s) then
        && s in r.window.items && r.window.items[s] == user
        && (forall i | i != s :: i in r.window.items <==> i in w.items && s - size < i)
        && (forall i | i != s && i in r.window.items :: r.window.items[i] == w.items[i])
        && r.window.end == (if s < w.end then w.end else s + 1)
        && r.window.begin == (if s < w.begin + size then w.begin else if s - size + 1 < w.end then s - size + 1 else s)
        && InOrder(w.items, w.begin, s - size + 1, r.dropped)
      else r.window == w && r.dropped == [(Wrap32(s), user)]
  {
    hide Wrap32;
    var r := Insert(w, size, strategy, s, user);
    if Enters(w, size, strategy, s) {
      var b := if s < w.begin + size then w.begin else BeginAfterDrop(w.begin, w.end, size, s);
      RangeInOrder(w.items, w.begin, s - size + 1);
      if s < w.begin + size {
        assert Range(w.items, w.begin, s - size + 1) == [];
      } else if w.end <= s - size + 1 {
        RangeBeyond(w.items, w.begin, w.end, s);
        RangeBeyond(w.items, w.begin, w.end, s - size + 1);
      }
    }
  }

  /** The state after the first m operations */
  function After<T>(start: SeqNum32, size: nat, strategy: Strategy, ops: seq<Op<T>>, m: nat): Run<T>
    requires m <= |ops|
  {
    Exec(start, size, strategy, ops[..m])
  }

  lemma AfterStep<T>(start: SeqNum32, size: nat, strategy: Strategy, ops: seq<Op<T>>, m: nat)
    requires m < |ops|
    ensures After(start, size, strategy, ops, m + 1)
         == Step(After(start, size, strategy, ops, m), size, strategy, ops[m])
  {
    hide Step;
    assert ops[..m + 1][..m] == ops[..m];
  }

  /** The m-th operation pushes something as number i. */
  ghost predicate Pushes<T>(start: SeqNum32, size: nat, strategy: Strategy, ops: seq<Op<T>>, m: nat, i: int) {
    && m < |ops| && ops[m].PushOp?
    && i == Unwrap(TWO32, After(start, size, strategy, ops, m).window.begin, ops[m].seqNum)
  }

  /** It pushes this item, and the number enters. */
  ghost predicate Arrives<T>(start: SeqNum32, size: nat, strategy: Strategy, ops: seq<Op<T>>, m: nat, i: int, user: T) {
    && Pushes(start, size, strategy, ops, m, i) && ops[m].user == user
    && Enters(After(start, size, strategy, ops, m).window, size, strategy, i)
  }

  /** Among the operations m..n, one pushes a number that needs the place of number i while that is still waiting. */
  ghost predicate Overtaken<T>(start: SeqNum32, size: nat, strategy: Strategy, ops: seq<Op<T>>, m: nat, n: nat, i: int)
  {
    exists k, j ::
      && m <= k < n && Pushes(start, size, strategy, ops, k, j)
      && After(start, size, strategy, ops, k).window.begin <= i <= j - size
  }

  ghost predicate PulledAs<T>(r: Run<T>, i: int, user: T) {
    exists k | 0 <= k < |r.pulledAt| && k < |r.pulled| :: r.pulledAt[k] == i && r.pulled[k] == (Wrap32(i), user)
  }

  ghost predicate Waits<T>(r: Run<T>, i: int, user: T) {
    r.window.begin <= i && i in r.window.items && r.window.items[i] == user && i !in r.pulledAt
  }

  ghost predicate IsPulled<T>(r: Run<T>, i: int, user: T) {
    i < r.window.begin && PulledAs(r, i, user)
  }

  ghost predicate IsLost<T>(r: Run<T>, i: int, user: T) {
    i < r.window.begin && i !in r.pulledAt && (Wrap32(i), user) in r.dropped
  }

  /** One more operation: what is pulled or lost stays so, and what waits goes on waiting, unless it is pulled or a push
      that enters needs its place. */
  lemma FateStep<T>(r: Run<T>, size: nat, strategy: Strategy, op: Op<T>, i: int, user: T)
    requires size > 0 && r.window.WellFormed(size) && |r.pulledAt| == |r.pulled|
    ensures var q := Step(r, size, strategy, op);
      && (IsPulled(r, i, user) ==> IsPulled(q, i, user))
      && (IsLost(r, i, user) ==> IsLost(q, i, user))
      && (Waits(r, i, user) ==>
            if op.PushOp? && strategy == DropBegin && i <= Unwrap(TWO32, r.window.begin, op.seqNum) - size
            then IsLost(q, i, user)
            else Waits(q, i, user) || IsPulled(q, i, user))
  {
    hide Wrap32, Unwrap, Insert;
    var q := Step(r, size, strategy, op);
    match op
    case PushOp(seqNum, x) =>
      var s := Unwrap(TWO32, r.window.begin, seqNum);
      PushFate(r.window, size, strategy, s, x);
      if IsPulled(r, i, user) { assert q.pulled == r.pulled && q.pulledAt == r.pulledAt; }
      if Waits(r, i, user) && Enters(r.window, size, strategy, s) && i <= s - size {
        var dropped := Insert(r.window, size, strategy, s, x).dropped;
        var numbers :| Numbered(r.window.items, r.window.begin, s - size + 1, numbers, dropped);
        var j :| 0 <= j < |numbers| && numbers[j] == i;
        assert dropped[j] == (Wrap32(i), user);
      }
    case PullOp =>
      var t := Take(r.window);
      if IsPulled(r, i, user) {
        var k :| 0 <= k < |r.pulledAt| && k < |r.pulled| && r.pulledAt[k] == i && r.pulled[k] == (Wrap32(i), user);
        assert q.pulledAt[k] == i && q.pulled[k] == (Wrap32(i), user);
      }
      if Waits(r, i, user) && i == r.window.begin {
        assert q.pulledAt[|r.pulledAt|] == i && q.pulled[|r.pulled|] == (Wrap32(i), user);
      }
  }

  lemma Where<T>(r: Run<T>, i: int, user: T)
    ensures Waits(r, i, user) ==> r.window.begin <= i
    ensures IsPulled(r, i, user) || IsLost(r, i, user) ==> i < r.window.begin
  {}

  lemma FirstWaits<T>(r: Run<T>, size: nat, strategy: Strategy, op: Op<T>, i: int)
    requires size > 0 && r.window.WellFormed(size) && forall k | 0 <= k < |r.pulledAt| :: r.pulledAt[k] < r.window.begin
    requires op.PushOp? && i == Unwrap(TWO32, r.window.begin, op.seqNum) && Enters(r.window, size, strategy, i)
    ensures Waits(Step(r, size, strategy, op), i, op.user)
  {
    hide Wrap32, Unwrap, Insert;
    PushFate(r.window, size, strategy, i, op.user);
  }

  lemma NotOvertaken<T>(start: SeqNum32, size: nat, strategy: Strategy, ops: seq<Op<T>>, n: nat, i: int)
    ensures !Overtaken(start, size, strategy, ops, n, n, i)
  {}

  lemma OvertakenStep<T>(start: SeqNum32, size: nat, strategy: Strategy, ops: seq<Op<T>>, m: nat, n: nat, i: int)
    requires 0 < n <= |ops| && m <= n
    ensures Overtaken(start, size, strategy, ops, m, n, i) <==>
      || Overtaken(start, size, strategy, ops, m, n - 1, i)
      || (m <= n - 1 && ops[n - 1].PushOp?
          && var begin := After(start, size, strategy, ops, n - 1).window.begin;
             begin <= i <= Unwrap(TWO32, begin, ops[n - 1].seqNum) - size)
  {
    hide Unwrap, After;
    if m <= n - 1 && ops[n - 1].PushOp? {
      var j := Unwrap(TWO32, After(start, size, strategy, ops, n - 1).window.begin, ops[n - 1].seqNum);
      assert Pushes(start, size, strategy, ops, n - 1, j);
    }
  }

  /** Main result: an item that arrives is not dropped by its own push, and from then on it waits with its number
      until it is pulled with that number; only with the BEGIN strategy it may be dropped instead, and is if and only if
      a number comes in that is at least the ring's size ahead of it. */
  lemma {:induction false} ItemFate<T>(start: SeqNum32, size: nat, strategy: Strategy, ops: seq<Op<T>>, m: nat, n: nat,
                                       i: int, user: T)
    requires size > 0 && m < n <= |ops| && Arrives(start, size, strategy, ops, m, i, user)
    ensures var r := After(start, size, strategy, ops, n);
      if strategy == DropBegin && Overtaken(start, size, strategy, ops, m + 1, n, i) then IsLost(r, i, user)
      else Waits(r, i, user) || IsPulled(r, i, user)
    decreases n
  {
    hide Wrap32, Unwrap, Insert, Step, Waits, IsPulled, IsLost, Exec, Overtaken;
    var r := After(start, size, strategy, ops, n - 1);
    AfterStep(start, size, strategy, ops, n - 1);
    RunShape(start, size, strategy, ops[..n - 1]);
    if n == m + 1 {
      FirstWaits(r, size, strategy, ops[m], i);
      NotOvertaken(start, size, strategy, ops, n, i);
    } else {
      ItemFate(start, size, strategy, ops, m, n - 1, i, user);
      FateStep(r, size, strategy, ops[n - 1], i, user);
      OvertakenStep(start, size, strategy, ops, m + 1, n, i);
      Where(r, i, user);
    }
  }

  lemma RunShape<T>(start: SeqNum32, size: nat, strategy: Strategy, ops: seq<Op<T>>)
    requires size > 0
    ensures var r := Exec(start, size, strategy, ops);
      && r.window.WellFormed(size) && |r.pulledAt| == |r.pulled|
      && forall k | 0 <= k < |r.pulledAt| :: r.pulledAt[k] < r.window.begin
  {
    WindowInvariant(start, size, strategy, ops);
    PullOrder(start, size, strategy, ops);
  }

  function Pulls<T>(n: nat): seq<Op<T>> {
    seq(n, _ => PullOp)
  }

  ghost predicate HasArrived<T>(start: SeqNum32, size: nat, ops: seq<Op<T>>, i: int, user: T) {
    exists m: nat :: Arrives(start, size, DropEnd, ops, m, i, user)
  }

  /** Main result for the END strategy: once the numbers from `start` on have arrived, in any order and among whatever
      else, as many pulls give back exactly the first item that arrived as each of them, in ascending order. */
  lemma ArrivalsArePulled<T>(start: SeqNum32, size: nat, ops: seq<Op<T>>, users: seq<T>)
    requires size > 0
    requires forall i | 0 <= i < |users| :: HasArrived(start, size, ops, start + i, users[i])
    ensures var r := Exec(start, size, DropEnd, ops + Pulls(|users|));
      |r.pulled| >= |users| && forall i | 0 <= i < |users| :: r.pulled[i] == (Wrap32(start + i), users[i])
  {
    hide Wrap32, Exec, HasArrived;
    var all := ops + Pulls(|users|);
    var r := Exec(start, size, DropEnd, all);
    PullsAdvance(start, size, ops, users, |users|);
    assert all[..|all|] == all;
    PullOrder(start, size, DropEnd, all);
    forall i | 0 <= i < |users| ensures r.pulled[i] == (Wrap32(start + i), users[i]) {
      FateLater(start, size, ops, Pulls(|users|), start + i, users[i]);
    }
  }

  /** What has arrived stays arrived when more operations follow. */
  lemma FateLater<T>(start: SeqNum32, size: nat, ops: seq<Op<T>>, more: seq<Op<T>>, i: int, user: T)
    requires size > 0 && HasArrived(start, size, ops, i, user)
    ensures var r := Exec(start, size, DropEnd, ops + more); Waits(r, i, user) || IsPulled(r, i, user)
  {
    hide Wrap32, Unwrap, Exec, Enters, Waits, IsPulled;
    var m: nat :| Arrives(start, size, DropEnd, ops, m, i, user);
    var all := ops + more;
    assert all[..m] == ops[..m] && all[..|all|] == all;
    assert Arrives(start, size, DropEnd, all, m, i, user);
    ItemFate(start, size, DropEnd, all, m, |all|, i, user);
  }

  lemma {:induction false} PullsAdvance<T>(start: SeqNum32, size: nat, ops: seq<Op<T>>, users: seq<T>, n: nat)
    requires size > 0 && n <= |users|
    requires forall i | 0 <= i < |users| :: HasArrived(start, size, ops, start + i, users[i])
    ensures Exec(start, size, DropEnd, ops + Pulls(n)).window.begin >= start + n
  {
    hide Wrap32, HasArrived;
    var all := ops + Pulls(n);
    PullOrder(start, size, DropEnd, all);
    if n > 0 {
      var before := ops + Pulls(n - 1);
      assert all[..|all| - 1] == before;
      PullsAdvance(start, size, ops, users, n - 1);
      FateLater(start, size, ops, Pulls(n - 1), start + (n - 1), users[n - 1]);
    }
  }
}
