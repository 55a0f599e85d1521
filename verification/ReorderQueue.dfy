/** lib/src/reorderqueue.c, the 32-bit instance: a ring of 2^size_exp slots addressed by the low bits of
    wrapping sequence numbers, and the finite map over unwrapped numbers that it stands for. */
module ReorderQueue {
  import opened Powers
  import opened SeqNum

  datatype Strategy = DropBegin | DropEnd

  datatype Slot<+T> = Unset | Set(user: T)

  /** An item with its sequence number as the callers see it. */
  type Entry<T> = (SeqNum32, T)

  /** The abstract queue: unwrapped numbers from `begin` (the next one to pull) up to `end`, of which
      those in `items` have arrived. */
  datatype Window<T> = Window(begin: int, end: int, items: map<int, T>) {
    ghost predicate WellFormed(size: nat) {
      && begin <= end <= begin + size
      && forall i | i in items :: begin <= i < end
    }
  }

  datatype Inserted<T> = Inserted(window: Window<T>, dropped: seq<Entry<T>>)

  datatype Taken<T> = Taken(window: Window<T>, entry: seq<Entry<T>>)

  /** The items numbered from..until, in ascending order. */
  function Range<T>(items: map<int, T>, from: int, until: int): (r: seq<Entry<T>>)
    decreases until - from
  {
    if from >= until then [] else Range(items, from, until - 1) + At(items, until - 1)
  }

  function At<T>(items: map<int, T>, i: int): seq<Entry<T>> {
    if i in items then [(Wrap32(i), items[i])] else []
  }

  function From<T>(items: map<int, T>, from: int): map<int, T> {
    map i | i in items && from <= i :: items[i]
  }

  lemma FromFrom<T>(items: map<int, T>, a: int, b: int)
    requires a <= b
    ensures From(From(items, a), b) == From(items, b)
    ensures At(From(items, a), a) == At(items, a)
  {}

  /** Where the window begins after DropBegin made room for `s`: the newest `size` numbers, except that
      a window emptied on the way restarts at `s` itself. */
  function BeginAfterDrop(begin: int, end: int, size: nat, s: int): int {
    if end <= s + 1 - size then s else s + 1 - size
  }

  function Insert<T>(w: Window<T>, size: nat, strategy: Strategy, s: int, user: T): Inserted<T> {
    if s < w.begin || s in w.items then
      Inserted(w, [(Wrap32(s), user)])
    else if s < w.begin + size then
      Inserted(Window(w.begin, if s < w.end then w.end else s + 1, w.items[s := user]), [])
    else if strategy == DropEnd then
      Inserted(w, [(Wrap32(s), user)])
    else
      var b := BeginAfterDrop(w.begin, w.end, size, s);
      Inserted(Window(b, s + 1, From(w.items, b)[s := user]), Range(w.items, w.begin, b))
  }

  function Take<T>(w: Window<T>): Taken<T> {
    if w.begin in w.items then
      Taken(Window(w.begin + 1, w.end, w.items - {w.begin}), [(Wrap32(w.begin), w.items[w.begin])])
    else
      Taken(w, [])
  }

  lemma SizeDivides(sizeExp: nat)
    requires sizeExp <= 32
    ensures TWO32 == Pow2(sizeExp) * Pow2(32 - sizeExp)
  {
    Pow2Add(sizeExp, 32 - sizeExp);
    Pow2Values();
  }

  lemma RangeBeyond<T>(items: map<int, T>, from: int, until: int, beyond: int)
    requires until <= beyond && forall i | i in items :: i < until
    ensures Range(items, from, beyond) == Range(items, from, until)
    decreases beyond - until
  {
    if from < beyond && until < beyond { RangeBeyond(items, from, until, beyond - 1); }
  }

  /** The slot of a number: its low bits, because the ring size is a power of two. */
  function Idx(n: int, size: nat): (i: nat)
    requires size > 0
    ensures i < size
  {
    n % size
  }

  /** Numbers that are in a window together never share a slot. */
  lemma SlotsDistinct(size: nat, begin: int, end: int)
    requires size > 0 && end - begin <= size
    ensures forall i, j :: begin <= i < end && begin <= j < end && Idx(i, size) == Idx(j, size) ==> i == j
  {
    forall i, j | begin <= i < end && begin <= j < end && Idx(i, size) == Idx(j, size) ensures i == j {
      SameResidue(size, i, j);
    }
  }

  /** A wrapped number has the slot of every number it stands for. */
  lemma SlotOfWrapped(n: int, sizeExp: nat)
    requires sizeExp <= 32
    ensures Idx(Wrap32(n), Pow2(sizeExp)) == Idx(n, Pow2(sizeExp))
  {
    SizeDivides(sizeExp);
    ModModDivisor(n, Pow2(sizeExp), Pow2(32 - sizeExp));
  }

  lemma SizeBounds(sizeExp: nat)
    requires sizeExp <= 30
    ensures 1 <= Pow2(sizeExp) < TWO31
  {
    Pow2Monotone(sizeExp, 30);
    Pow2Values();
    Pow2Add(30, 1);
    Pow2Add(31, 1);
  }

  /** struct chiaki_reorder_queue_t. `base` is the unwrapped value of `begin` and `items` what the live
      slots hold; `dropped` records the calls of the drop callback. */
  class Queue<T> {
    const sizeExp: nat
    const size: nat
    const slots: array<Slot<T>>
    var begin: SeqNum32
    var count: nat
    var strategy: Strategy
    var dropped: seq<Entry<T>>
    ghost var base: int
    ghost var items: map<int, T>

    ghost predicate Valid()
      reads `begin, `count, `base, `items, slots
    {
      && sizeExp <= 30
      && size == slots.Length == Pow2(sizeExp)
      && count <= size
      && begin == Wrap32(base)
      && (forall i | i in items :: base <= i < base + count)
      && (forall i | base <= i < base + count :: slots[Idx(i, size)] == if i in items then Set(items[i]) else Unset)
    }

    ghost function Contents(): Window<T>
      reads this
    {
      Window(base, base + count, items)
    }

    /** chiaki_reorder_queue_init_32 */
    constructor (sizeExp: nat, seqNumStart: SeqNum32)
      requires sizeExp <= 30
      ensures Valid() && fresh(slots)
      ensures size == Pow2(sizeExp) && strategy == DropEnd && dropped == []
      ensures Contents() == Window(seqNumStart, seqNumStart, map[])
    {
      this.sizeExp := sizeExp;
      size := Pow2(sizeExp);
      slots := new Slot<T>[Pow2(sizeExp)](_ => Unset);
      begin, count := seqNumStart, 0;
      strategy, dropped := DropEnd, [];
      base, items := seqNumStart, map[];
    }

    /** chiaki_reorder_queue_push. The number is read as the nearest one to the front of the queue; the
        source asserts that a number at exactly half distance does not meet an empty queue, and a ring of one slot
        would take such a number without making room for it. */
    method Push(seqNum: SeqNum32, user: T)
      requires Valid()
      requires count == 0 || size == 1 ==> seqNum != Wrap32(begin + TWO31)
      modifies this, slots
      ensures Valid() && strategy == old(strategy)
      ensures var r := Insert(old(Contents()), size, strategy, Unwrap(TWO32, old(base), seqNum), user);
        Contents() == r.window && dropped == old(dropped) + r.dropped
    {
      hide Idx, Pow2, Lt, Gt;
      ghost var s := Unwrap(TWO32, base, seqNum);
      SizeBounds(sizeExp);
      CompareWrapped32(s, base);
      WrapAdd(base, count);
      WrapAdd(base, TWO31);
      var end := Wrap32(begin + count);
      if s >= base { CompareWrapped32(s, base + count); }
      if (seqNum == begin || Gt32(seqNum, begin)) && Lt32(seqNum, end) {
        SlotOfWrapped(s, sizeExp);
        if slots[Idx(seqNum, size)].Set? {
          dropped := dropped + [(seqNum, user)];
          return;
        }
        Store(seqNum, user, s);
        return;
      }
      if Lt32(seqNum, begin) {
        dropped := dropped + [(seqNum, user)];
        return;
      }
      assert seqNum == end || Gt32(seqNum, end);
      PushBeyondEnd(seqNum, user, s);
    }

    lemma Bounds()
      requires Valid()
      ensures begin == Wrap32(base) && count <= size && 1 <= size < TWO31
      ensures forall i | i in items :: base <= i < base + count
    {
      SizeBounds(sizeExp);
    }

    /** The 32-bit test for missing space says what it should. */
    lemma SpaceTest(s: int)
      requires Valid() && base <= s <= base + TWO31 && (size == 1 ==> s < base + TWO31)
      ensures Lt32(Wrap32(Wrap32(base + count) + (size - count)), Wrap32(s + 1)) <==> base + size <= s
    {
      SizeBounds(sizeExp);
      WrapAdd(base + count, size - count);
      CompareWrapped32(base + size, s + 1);
    }

    /** The part of push for a number at or beyond the end of the window. */
    method PushBeyondEnd(seqNum: SeqNum32, user: T, ghost s: int)
      requires Valid()
      requires seqNum == Wrap32(s) && base + count <= s <= base + TWO31 && (size == 1 ==> s < base + TWO31)
      modifies this, slots
      ensures Valid() && strategy == old(strategy)
      ensures var r := Insert(old(Contents()), size, strategy, s, user);
        Contents() == r.window && dropped == old(dropped) + r.dropped
    {
      hide Wrap32, Lt32, Valid;
      Bounds();
      var end := Wrap32(begin + count);
      var totalEnd := Wrap32(end + (size - count));
      var newEnd := Wrap32(seqNum + 1);
      WrapAdd(base, count);
      WrapAdd(s, 1);
      SpaceTest(s);
      if Lt32(totalEnd, newEnd) {
        if strategy == DropEnd {
          dropped := dropped + [(seqNum, user)];
          return;
        }
        MakeRoom(end, newEnd, s);
        if count == 0 {
          RangeBeyond(old(items), old(base), base, s);
          RestartAt(seqNum, s);
        }
      }
      assert items == From(old(items), base);
      ExtendTo(newEnd, s + 1);
      Store(seqNum, user, s);
    }

    /** An emptied queue moves to the new number. */
    method RestartAt(seqNum: SeqNum32, ghost s: int)
      requires Valid() && count == 0 && seqNum == Wrap32(s)
      modifies this`begin, this`base
      ensures Valid() && base == s
    {
      begin, base := seqNum, s;
    }

    /** Fills the slot of a number inside the window. */
    method Store(seqNum: SeqNum32, user: T, ghost s: int)
      requires Valid() && seqNum == Wrap32(s) && base <= s < base + count
      modifies this`items, slots
      ensures Valid() && items == old(items)[s := user]
    {
      SlotOfWrapped(s, sizeExp);
      SlotsDistinct(size, base, base + count);
      slots[Idx(seqNum, size)] := Set(user);
      items := items[s := user];
    }

    /** The loop of push that drops from the front until there is space for the new number or nothing is left. */
    method MakeRoom(end: SeqNum32, newEnd: SeqNum32, ghost s: int)
      requires Valid()
      requires end == Wrap32(base + count) && newEnd == Wrap32(s + 1)
      requires base + size <= s <= base + TWO31 && (size == 1 ==> s < base + TWO31)
      modifies this
      ensures Valid() && strategy == old(strategy)
      ensures base == (if old(base + count) <= s + 1 - size then old(base + count) else s + 1 - size)
      ensures base + count == old(base + count)
      ensures items == From(old(items), base)
      ensures dropped == old(dropped) + Range(old(items), old(base), base)
    {
      hide Wrap32, Lt32, Valid;
      Bounds();
      var totalEnd := Wrap32(end + (size - count));
      SpaceTest(s);
      while count > 0 && Lt32(totalEnd, newEnd)
        invariant Valid() && strategy == old(strategy)
        invariant old(base) <= base <= s + 1 - size && base + count == old(base + count)
        invariant Lt32(totalEnd, newEnd) <==> base + size <= s
        invariant items == From(old(items), base)
        invariant dropped == old(dropped) + Range(old(items), old(base), base)
      {
        FromFrom(old(items), base, base + 1);
        DropFirst();
        totalEnd := Wrap32(end + (size - count));
        SpaceTest(s);
      }
    }

    /** One turn of that loop. */
    method DropFirst()
      requires Valid() && count > 0
      modifies this
      ensures Valid() && strategy == old(strategy)
      ensures base == old(base) + 1 && count == old(count) - 1
      ensures items == From(old(items), base)
      ensures dropped == old(dropped) + At(old(items), old(base))
    {
      SlotOfWrapped(base, sizeExp);
      if slots[Idx(begin, size)].Set? {
        dropped := dropped + [(begin, slots[Idx(begin, size)].user)];
      }
      WrapAdd(base, 1);
      begin, base := Wrap32(begin + 1), base + 1;
      count := count - 1;
      items := From(items, base);
    }

    /** The loop of push that moves the end of the window up to `newEnd`, leaving the new slots empty. */
    method ExtendTo(newEnd: SeqNum32, ghost until: int)
      requires Valid()
      requires newEnd == Wrap32(until) && base + count - TWO31 < until <= base + size
      modifies this`count, slots
      ensures Valid()
      ensures base + count == (if old(base + count) < until then until else old(base + count))
    {
      hide Wrap32, Lt32, Idx, Pow2;
      SizeBounds(sizeExp);
      var end := Wrap32(begin + count);
      WrapAdd(base, count);
      CompareWrapped32(base + count, until);
      while Lt32(end, newEnd)
        invariant Valid() && end == Wrap32(base + count)
        invariant old(count) <= count
        invariant Lt32(end, newEnd) <==> base + count < until
        invariant base + count <= until || count == old(count)
        decreases size - count
      {
        SlotOfWrapped(base + count, sizeExp);
        SlotsDistinct(size, base, base + count + 1);
        slots[Idx(end, size)] := Unset;
        count := count + 1;
        end := Wrap32(begin + count);
        WrapAdd(base, count);
        CompareWrapped32(base + count, until);
      }
    }

    /** chiaki_reorder_queue_pull */
    method Pull() returns (entry: seq<Entry<T>>)
      requires Valid()
      modifies this
      ensures Valid() && strategy == old(strategy) && dropped == old(dropped)
      ensures Contents() == Take(old(Contents())).window && entry == Take(old(Contents())).entry
    {
      hide Wrap32, Idx, Pow2;
      if count == 0 {
        return [];
      }
      SlotOfWrapped(base, sizeExp);
      if slots[Idx(begin, size)].Unset? {
        return [];
      }
      entry := [(begin, slots[Idx(begin, size)].user)];
      WrapAdd(base, 1);
      items := items - {base};
      begin, base := Wrap32(begin + 1), base + 1;
      count := count - 1;
    }

    /** chiaki_reorder_queue_fini: everything still waiting goes to the drop callback. */
    method Fini()
      requires Valid()
      modifies this`dropped
      ensures dropped == old(dropped) + Range(items, base, base + count)
    {
      hide Wrap32;
      var i := 0;
      while i < count
        invariant 0 <= i <= count && Valid()
        invariant dropped == old(dropped) + Range(items, base, base + i)
      {
        var seqNum := Wrap32(begin + i);
        WrapAdd(base, i);
        SlotOfWrapped(base + i, sizeExp);
        if slots[Idx(seqNum, size)].Set? {
          dropped := dropped + [(seqNum, slots[Idx(seqNum, size)].user)];
        }
        i := i + 1;
      }
    }
  }
}
