/**
 Fixed-point numbers with 24 fractional bits in 64-bit integers: conversions to and from whole
 numbers, and one rounded product.  Integers are unbounded in Dafny, so the wrap-around of int64 is
 written out.
 */
module FixedPoint {
  import opened Arithmetic

  const FACTOR: int := 0x100_0000
  const HALF: int := 0x80_0000
  const MAX64: int := 0x7fff_ffff_ffff_ffff

  /** Two's complement wrap-around to 64 bits. */
  function Wrap(x: int): (w: int)
    ensures -MAX64 - 1 <= w <= MAX64
  {
    (x + (MAX64 + 1)) % (2 * (MAX64 + 1)) - (MAX64 + 1)
  }

  lemma WrapInRange(x: int)
    requires -MAX64 - 1 <= x <= MAX64
    ensures Wrap(x) == x
  {
  }

  /** Wrapping changes a number by a multiple of 2^64; with the range of the result this is all there is to it. */
  lemma WrapIsCongruent(x: int)
    ensures (Wrap(x) - x) % (2 * (MAX64 + 1)) == 0
  {
    var m := 2 * (MAX64 + 1);
    DivModUnique(Wrap(x) - x, -((x + (MAX64 + 1)) / m), 0, m);
  }

  lemma WrapAbsorbs(x: int, y: int)
    ensures Wrap(Wrap(x) + y) == Wrap(x + y)
  {
    var m := 2 * (MAX64 + 1);
    var h := MAX64 + 1;
    assert Wrap(x) + h == (x + h) % m;
    assert (x + h) % m == (x + h) - m * ((x + h) / m);
    ModShift(x + y + h, -((x + h) / m), m);
  }

  /** int64(v * 2^24) for a float64 that is an integer: Go truncates toward zero. */
  function ToFixed(v: real): int {
    var x := v * 16777216.0;
    if x >= 0.0 then x.Floor else -((-x).Floor)
  }

  lemma ToFixedOfInt(v: int)
    ensures ToFixed(v as real) == v * FACTOR
  {
    var x := (v as real) * 16777216.0;
    assert x == (v * FACTOR) as real;
  }

  function Clamp(x: int): (c: int)
    ensures -128 <= c <= 127
    ensures -128 <= x <= 127 ==> c == x
    ensures x > 127 ==> c == 127
    ensures x < -128 ==> c == -128
  {
    if x > 127 then 127 else if x < -128 then -128 else x
  }

  function FromFixed(v: int): (c: int)
    ensures -128 <= c <= 127
  {
    Clamp(Wrap(v + HALF) / FACTOR)
  }

  function ToFixedShift(v: int): int
    requires -128 <= v <= 127
  {
    v * FACTOR
  }

  /** Rounding loses nothing on a whole number of units that fits in 64 bits. */
  lemma FromFixedOfWhole(s: int)
    requires -MAX64 - 1 <= s * FACTOR <= MAX64
    ensures FromFixed(s * FACTOR) == Clamp(s)
  {
    WrapInRange(s * FACTOR + HALF);
    DivModUnique(s * FACTOR + HALF, s, HALF, FACTOR);
  }

  /** In general the number is rounded to the nearest unit, halves upwards, and saturated. */
  lemma FromFixedRounds(v: int, q: int)
    requires -MAX64 - 1 <= v + HALF <= MAX64
    requires q * FACTOR - HALF <= v < q * FACTOR + HALF
    ensures FromFixed(v) == Clamp(q)
  {
    WrapInRange(v + HALF);
    DivModUnique(v + HALF, q, v + HALF - q * FACTOR, FACTOR);
  }

  /** One product, rounded to the nearest unit. */
  function Term(x: int, y: int): int {
    Wrap(Wrap(x * y) + HALF) / FACTOR
  }

  /** Where nothing wraps, the product is rounded to the nearest unit, halves upwards. */
  lemma TermRounds(x: int, y: int, q: int)
    requires -MAX64 - 1 <= x * y && x * y + HALF <= MAX64
    requires q * FACTOR - HALF <= x * y < q * FACTOR + HALF
    ensures Term(x, y) == q
  {
    WrapInRange(x * y);
    WrapInRange(x * y + HALF);
    DivModUnique(x * y + HALF, q, x * y + HALF - q * FACTOR, FACTOR);
  }

  lemma TermZero(y: int)
    ensures Term(0, y) == 0
  {
  }

  function Add64(x: int, y: int): int {
    Wrap(x + y)
  }
}
