/** Concatenation, reversal and filtering of sequences */
module Sequences {

  function Flat<T>(parts: seq<seq<T>>): seq<T> {
    if parts == [] then [] else parts[0] + Flat(parts[1..])
  }

  lemma {:induction false} FlatAppend<T>(parts: seq<seq<T>>, last: seq<T>)
    ensures Flat(parts + [last]) == Flat(parts) + last
  {
    if parts == [] {
      assert parts + [last] == [last];
    } else {
      assert (parts + [last])[1..] == parts[1..] + [last];
      FlatAppend(parts[1..], last);
    }
  }

  lemma {:induction false} FlatPrefix<T>(parts: seq<seq<T>>, n: nat)
    requires n <= |parts|
    ensures |Flat(parts[..n])| <= |Flat(parts)| && Flat(parts[..n]) == Flat(parts)[..|Flat(parts[..n])|]
  {
    if n > 0 {
      assert parts[..n][1..] == parts[1..][..n - 1];
      FlatPrefix(parts[1..], n - 1);
    }
  }

  function Reversed<T>(s: seq<T>): (r: seq<T>)
    ensures |r| == |s| && forall i | 0 <= i < |r| :: r[i] == s[|s| - 1 - i]
  {
    if s == [] then [] else Reversed(s[1..]) + [s[0]]
  }

  lemma InReversed<T>(s: seq<T>, i: nat)
    requires i < |s|
    ensures s[i] in Reversed(s)
  {
    assert Reversed(s)[|s| - 1 - i] == s[i];
  }

  /** `ys` are the elements at the positions `at` of `xs`, which ascend. */
  ghost predicate PickedAt<T>(xs: seq<T>, at: seq<nat>, ys: seq<T>) {
    && |at| == |ys|
    && (forall j | 0 <= j < |at| :: at[j] < |xs| && ys[j] == xs[at[j]])
    && (forall j, k | 0 <= j < k < |at| :: at[j] < at[k])
  }

  /** The positions of exactly the elements that satisfy p */
  ghost predicate Selects<T>(xs: seq<T>, p: T -> bool, at: seq<nat>) {
    forall i: nat | i < |xs| :: i in at <==> p(xs[i])
  }

  /** `ys` are exactly the elements of `xs` that satisfy p, in their order and each once. */
  ghost predicate Filtered<T>(xs: seq<T>, p: T -> bool, ys: seq<T>) {
    exists at :: PickedAt(xs, at, ys) && Selects(xs, p, at)
  }

  lemma FilteredNothing<T>(p: T -> bool)
    ensures Filtered([], p, [])
  {
    assert PickedAt<T>([], [], []) && Selects([], p, []);
  }

  lemma InAppend<T>(s: seq<T>, last: T, x: T)
    ensures x in s + [last] <==> x in s || x == last
  {}

  lemma FilteredAppend<T>(xs: seq<T>, p: T -> bool, ys: seq<T>, x: T)
    requires Filtered(xs, p, ys)
    ensures Filtered(xs + [x], p, if p(x) then ys + [x] else ys)
  {
    hide PickedAt, Selects;
    var at :| PickedAt(xs, at, ys) && Selects(xs, p, at);
    PickedBelow(xs, at, ys);
    PickedAppend(xs, at, ys, x);
    SelectsAppend(xs, p, at, x);
  }

  lemma PickedBelow<T>(xs: seq<T>, at: seq<nat>, ys: seq<T>)
    requires PickedAt(xs, at, ys)
    ensures |xs| !in at
  {}

  lemma PickedAppend<T>(xs: seq<T>, at: seq<nat>, ys: seq<T>, x: T)
    requires PickedAt(xs, at, ys)
    ensures var n: nat := |xs|; PickedAt(xs + [x], at, ys) && PickedAt(xs + [x], at + [n], ys + [x])
  {}

  lemma SelectsAppend<T>(xs: seq<T>, p: T -> bool, at: seq<nat>, x: T)
    requires Selects(xs, p, at) && |xs| !in at
    ensures var n: nat := |xs|; Selects(xs + [x], p, if p(x) then at + [n] else at)
  {
    var n: nat := |xs|;
    var all := if p(x) then at + [n] else at;
    forall i: nat | i < |xs + [x]| ensures i in all <==> p((xs + [x])[i]) {
      InAppend(at, n, i);
    }
  }

  /** Only what p says of the elements matters. */
  lemma FilteredSame<T>(xs: seq<T>, p: T -> bool, q: T -> bool, ys: seq<T>)
    requires Filtered(xs, p, ys) && forall i | 0 <= i < |xs| :: p(xs[i]) == q(xs[i])
    ensures Filtered(xs, q, ys)
  {}
}
