/** Serial number arithmetic (section 3.2 of RFC 1982), as lib/include/chiaki/seqnum.h defines it
    for 16 and 32 bits. Sequence numbers are residues modulo 2^16 or 2^32; the rest of the project
    reasons about their unwrapped counterparts, plain integers. */
module SeqNum {
  import opened Powers

  const TWO15 := 0x8000
  const TWO16 := 0x1_0000
  const TWO31 := 0x8000_0000
  type SeqNum16 = x: int | 0 <= x < 0x1_0000
  type SeqNum32 = x: int | 0 <= x < 0x1_0000_0000

  /** chiaki_seq_num_N_lt, with half = 2^(N-1). */
  predicate Lt(half: nat, a: nat, b: nat) {
    a != b && ((a < b && b - a < half) || (a > b && a - b > half))
  }

  /** chiaki_seq_num_N_gt, with half = 2^(N-1). */
  predicate Gt(half: nat, a: nat, b: nat) {
    a != b && ((a < b && b - a > half) || (a > b && a - b < half))
  }

  predicate Lt16(a: SeqNum16, b: SeqNum16) { Lt(TWO15, a, b) }

  predicate Gt16(a: SeqNum16, b: SeqNum16) { Gt(TWO15, a, b) }

  predicate Lt32(a: SeqNum32, b: SeqNum32) { Lt(TWO31, a, b) }

  predicate Gt32(a: SeqNum32, b: SeqNum32) { Gt(TWO31, a, b) }

  function Wrap16(n: int): SeqNum16 { n % TWO16 }

  function Wrap32(n: int): SeqNum32 { n % TWO32 }

  /** The unwrapped number nearest to `near` with residue `s` modulo `m`; a residue at exactly half
      distance is placed ahead of `near`. */
  function Unwrap(m: nat, near: int, s: nat): (n: int)
    requires m > 0 && m % 2 == 0 && s < m
    ensures n % m == s
    ensures near - m / 2 < n <= near + m / 2
  {
    var d := (s - near) % m;
    UnwrapResidue(m, near, s);
    if d <= m / 2 then near + d else near + d - m
  }

  lemma UnwrapResidue(m: nat, near: int, s: nat)
    requires m > 0 && s < m
    ensures (near + (s - near) % m) % m == s
    ensures (near + (s - near) % m - m) % m == s
  {
    var d := (s - near) % m;
    var q := (s - near) / m;
    assert near + d == s - m * q;
    ResidueOf(m, s, -q);
    ResidueOf(m, s, -q - 1);
    assert m * (-q) == -(m * q);
    assert m * (-q - 1) == -(m * q) - m;
  }

  lemma ResidueOf(m: nat, r: nat, k: int)
    requires r < m
    ensures (r + m * k) % m == r
  {
    var n := r + m * k;
    var q := n / m;
    assert n == m * q + n % m;
    var e := k - q;
    assert m * e == n % m - r by { assert m * e == m * k - m * q; }
    MulBounds(m, e);
  }

  lemma SameResidue(m: int, a: int, b: int)
    requires m > 0 && a % m == b % m && -m < a - b < m
    ensures a == b
  {
    var qa, qb := a / m, b / m;
    assert a - b == m * (qa - qb) by { assert m * (qa - qb) == m * qa - m * qb; }
    MulBounds(m, qa - qb);
  }

  /** Numbers closer than half the modulus unwrap to themselves. */
  lemma UnwrapNear(m: nat, near: int, n: int)
    requires m > 0 && m % 2 == 0 && near - m / 2 < n <= near + m / 2
    ensures Unwrap(m, near, n % m) == n
  {
    SameResidue(m, Unwrap(m, near, n % m), n);
  }

  /** The forward distance from a number to a residue, in terms of residues alone. */
  lemma ForwardDistance(m: nat, near: int, s: nat)
    requires m > 0 && s < m
    ensures (s - near) % m == if s >= near % m then s - near % m else s - near % m + m
  {
    var b, q := near % m, near / m;
    var r := if s >= b then s - b else s - b + m;
    var k := if s >= b then -q else -q - 1;
    assert s - near == r + m * k by { assert m * (-q) == -(m * q); assert m * (-q - 1) == -(m * q) - m; }
    ResidueOf(m, r, k);
  }

  /** Both comparisons, on residues, say exactly on which side of the number the other one unwraps;
      at half distance neither holds. */
  lemma CompareUnwrapped(half: nat, near: int, s: nat)
    requires half > 0 && s < 2 * half
    ensures Lt(half, s, near % (2 * half)) <==> Unwrap(2 * half, near, s) < near
    ensures Gt(half, s, near % (2 * half)) <==> near < Unwrap(2 * half, near, s) < near + half
    ensures s == near % (2 * half) <==> Unwrap(2 * half, near, s) == near
  {
    ForwardDistance(2 * half, near, s);
  }

  /** Wrapped numbers compare as the numbers themselves while these are less than half the modulus apart. */
  lemma CompareWrapped32(a: int, b: int)
    requires -TWO31 < a - b <= TWO31
    ensures Lt32(Wrap32(a), Wrap32(b)) <==> a < b
    ensures Gt32(Wrap32(a), Wrap32(b)) <==> b < a < b + TWO31
    ensures Wrap32(a) == Wrap32(b) <==> a == b
  {
    UnwrapNear(TWO32, b, a);
    CompareUnwrapped(TWO31, b, Wrap32(a));
  }

  lemma WrapAdd(a: int, k: int)
    ensures Wrap32(Wrap32(a) + k) == Wrap32(a + k)
  {
    var q := a / TWO32;
    assert a + k == Wrap32(a) + k + TWO32 * q;
    var r, p := (Wrap32(a) + k) % TWO32, (Wrap32(a) + k) / TWO32;
    ResidueOf(TWO32, r, p + q);
  }
}
