/** The two library functions that move array elements. */
module Memory {

  /** memmove of n elements towards the front of one array: the ranges may overlap. */
  method Memmove<T>(a: array<T>, dst: nat, src: nat, n: nat)
    requires dst <= src && src + n <= a.Length
    modifies a
    ensures a[dst..dst + n] == old(a[src..src + n])
    ensures a[..dst] == old(a[..dst]) && a[dst + n..] == old(a[dst + n..])
  {
    ghost var was := a[..];
    var i := 0;
    while i < n
      invariant 0 <= i <= n
      invariant forall k | dst <= k < dst + i :: a[k] == was[k + (src - dst)]
      invariant forall k | 0 <= k < dst || dst + i <= k < a.Length :: a[k] == was[k]
    {
      a[dst + i] := a[src + i];
      i := i + 1;
    }
    Moved(was, a[..], dst, src, n);
  }

  lemma Moved<T>(was: seq<T>, now: seq<T>, dst: nat, src: nat, n: nat)
    requires dst <= src && src + n <= |was| == |now|
    requires forall k | dst <= k < dst + n :: now[k] == was[k + (src - dst)]
    requires forall k | 0 <= k < dst || dst + n <= k < |now| :: now[k] == was[k]
    ensures now[dst..dst + n] == was[src..src + n]
    ensures now[..dst] == was[..dst] && now[dst + n..] == was[dst + n..]
  {
    var moved, source := now[dst..dst + n], was[src..src + n];
    assert forall k | 0 <= k < n :: moved[k] == source[k];
  }

  /** memcpy of some elements to their place in an array */
  method Memcpy<T>(a: array<T>, at: nat, elements: seq<T>)
    requires at + |elements| <= a.Length
    modifies a
    ensures a[..] == old(a[..at]) + elements + old(a[at + |elements|..])
  {
    forall k | 0 <= k < |elements| {
      a[at + k] := elements[k];
    }
  }
}
