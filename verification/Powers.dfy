/** Powers of two, the arithmetic behind every shift and mask in the source. */
module Powers {

  const TWO32 := 0x1_0000_0000
  const TWO64 := 0x1_0000_0000_0000_0000
  const SIZE_MAX := TWO64 - 1

  function Pow2(n: nat): (p: nat)
    ensures p >= 1
  {
    if n == 0 then 1 else 2 * Pow2(n - 1)
  }

  lemma {:induction false} Pow2Add(a: nat, b: nat)
    ensures Pow2(a + b) == Pow2(a) * Pow2(b)
  {
    if a > 0 {
      Pow2Add(a - 1, b);
      assert Pow2(a + b) == 2 * Pow2(a - 1 + b);
    }
  }

  lemma {:induction false} Pow2Monotone(a: nat, b: nat)
    requires a <= b
    ensures Pow2(a) <= Pow2(b)
    decreases b
  {
    if a < b { Pow2Monotone(a, b - 1); }
  }

  lemma Pow2Values()
    ensures Pow2(0) == 1 && Pow2(1) == 2 && Pow2(2) == 4 && Pow2(3) == 8 && Pow2(4) == 16
    ensures Pow2(8) == 0x100 && Pow2(12) == 0x1000 && Pow2(16) == 0x1_0000 && Pow2(24) == 0x100_0000
    ensures Pow2(32) == 0x1_0000_0000 && Pow2(64) == 0x1_0000_0000_0000_0000
  {
    assert Pow2(8) == 0x100 by { assert Pow2(4) == 16; Pow2Add(4, 4); }
    assert Pow2(12) == 0x1000 by { Pow2Add(4, 8); }
    assert Pow2(16) == 0x1_0000 by { Pow2Add(8, 8); }
    assert Pow2(24) == 0x100_0000 by { Pow2Add(8, 16); }
    assert Pow2(32) == 0x1_0000_0000 by { Pow2Add(16, 16); }
    assert Pow2(64) == 0x1_0000_0000_0000_0000 by { Pow2Add(32, 32); }
  }

  lemma MulBounds(m: nat, e: int)
    ensures e >= 1 ==> m * e >= m
    ensures e <= -1 ==> m * e <= -(m as int)
  {}

  lemma MulMinus(m: int, a: int, b: int)
    ensures m * (a - b) == m * a - m * b
  {}

  lemma MulAssoc(a: int, b: int, c: int)
    ensures a * (b * c) == a * b * c
  {}

  /** Quotient and remainder are the only numbers that fit. */
  lemma DivisionIs(n: nat, m: nat, q: nat, r: nat)
    requires r < m && n == m * q + r
    ensures n / m == q && n % m == r
  {
    var d, e := n / m, n % m;
    MulMinus(m, d, q);
    MulBounds(m, d - q);
  }

  /** A multiple of `m` leaves residues modulo `m` alone. */
  lemma ModModDivisor(n: int, m: nat, k: nat)
    requires m > 0 && k > 0
    ensures (n % (m * k)) % m == n % m
  {
    var r, q := n % (m * k), n / (m * k);
    assert n == m * k * q + r;
    assert n == r + m * (k * q) by { assert m * (k * q) == m * k * q; }
    ModAddMultiple(r, m, k * q);
  }

  lemma ModAddMultiple(r: int, m: nat, k: int)
    requires m > 0
    ensures (r + m * k) % m == r % m
  {
    var q := r / m;
    var n := r + m * k;
    assert n == m * (q + k) + r % m by { assert m * (q + k) == m * q + m * k; }
    var e := n / m - (q + k);
    assert m * e == r % m - n % m by { assert m * e == m * (n / m) - m * (q + k); }
    assert e >= 1 ==> m * e >= m;
    assert e <= -1 ==> m * e <= -(m as int);
  }
}
