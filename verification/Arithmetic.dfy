/** Facts about products and remainders that the solver finds only with help. */
module Arithmetic {

  lemma NonNegative(a: nat, b: nat)
    ensures a * b >= 0
  {
  }

  lemma {:induction false} Monotone(a: nat, b: nat, w: nat)
    requires a <= b
    ensures a * w <= b * w
    decreases b - a
  {
    if a < b {
      Monotone(a, b - 1, w);
      assert b * w == (b - 1) * w + w;
    }
  }

  /** Item i of width w lies within k such items. */
  lemma ItemFits(i: nat, k: nat, w: nat)
    requires i < k
    ensures 0 <= i * w <= i * w + w == (i + 1) * w <= k * w
  {
    Monotone(i + 1, k, w);
    Monotone(0, i, w);
    assert (i + 1) * w == i * w + w;
  }

  lemma ModShift(a: int, k: int, m: int)
    requires m > 0
    ensures (a + m * k) % m == a % m
  {
    var q := a / m;
    var r := a % m;
    assert a + m * k == m * (q + k) + r;
    DivModUnique(a + m * k, q + k, r, m);
  }

  lemma DivModUnique(a: int, q: int, r: int, m: int)
    requires m > 0 && 0 <= r < m && a == m * q + r
    ensures a % m == r && a / m == q
  {
    QuotientUnique(q, r, a / m, a % m, m);
  }

  lemma QuotientUnique(q: int, r: int, q1: int, r1: int, m: int)
    requires m > 0 && 0 <= r < m && 0 <= r1 < m && m * q + r == m * q1 + r1
    ensures q == q1 && r == r1
  {
    if q > q1 {
      MulAtLeast(m, q - q1);
    } else if q < q1 {
      MulAtLeast(m, q1 - q);
    }
  }

  lemma MulAtLeast(m: int, d: int)
    requires m > 0 && d >= 1
    ensures m * d >= m
  {
  }

  lemma MultipleVanishes(v: int, y: int, n: nat, m: nat)
    requires n > 0
    ensures (v + (m * n) * y) % n == v % n
  {
    assert (m * n) * y == n * (m * y);
    ModShift(v, m * y, n);
  }

  lemma SmallRemainder(x: nat, n: nat)
    requires x < n
    ensures x % n == x
  {
  }

  lemma RemainderIs(x: nat, n: nat, q: int, r: nat)
    requires n > 0 && r < n && x == q * n + r
    ensures x % n == r
  {
    DivModUnique(x, q, r, n);
  }
}
