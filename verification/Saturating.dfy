/**
 What the fixed-point product means on the matrices the pipeline feeds it: entries are signed
 bytes scaled by 2^24, no intermediate leaves 64 bits, rounding loses nothing, and the rescaled
 product is the product of the signed bytes, saturated entry by entry.
 */
module Saturating {
  import opened Arithmetic
  import opened FixedPoint
  import opened BlockedProduct

  const MAX_SIDE: nat := 256

  ghost predicate Int8(m: Matrix, n: nat) {
    Square(m, n) && forall i, j :: 0 <= i < n && 0 <= j < n ==> -128 <= m[i][j] <= 127
  }

  /** Every entry times 2^24. */
  ghost function Scaled(m: Matrix, n: nat): (f: Matrix)
    requires Square(m, n)
    ensures Square(f, n)
    ensures forall i, j :: 0 <= i < n && 0 <= j < n ==> f[i][j] == m[i][j] * FACTOR
  {
    seq(n, i requires 0 <= i < n => seq(n, j requires 0 <= j < n => m[i][j] * FACTOR))
  }

  /** Row i of a times column j of b, the first k terms. */
  ghost function Dot(a: Matrix, b: Matrix, n: nat, i: nat, j: nat, k: nat): int
    requires Square(a, n) && Square(b, n) && i < n && j < n && k <= n
    decreases k
  {
    if k == 0 then 0 else Dot(a, b, n, i, j, k - 1) + a[i][k - 1] * b[k - 1][j]
  }

  /** The saturated product of two matrices of signed bytes. */
  ghost function Saturated(a: Matrix, b: Matrix, n: nat): (m: Matrix)
    requires Square(a, n) && Square(b, n)
    ensures Int8(m, n)
  {
    seq(n, i requires 0 <= i < n => seq(n, j requires 0 <= j < n => Clamp(Dot(a, b, n, i, j, n))))
  }

  lemma SizeBound(a: nat, b: nat)
    requires a <= 128 && b <= 128
    ensures 0 <= a * b <= 16384
  {
    NonNegative(a, b);
    Monotone(a, 128, b);
  }

  lemma ProductBound(x: int, y: int)
    requires -128 <= x <= 127 && -128 <= y <= 127
    ensures -16384 <= x * y <= 16384
  {
    var a, b := if x < 0 then -x else x, if y < 0 then -y else y;
    SizeBound(a, b);
    assert x * y == if (x < 0) == (y < 0) then a * b else -(a * b);
  }

  lemma TermOfInt8(x: int, y: int)
    requires -128 <= x <= 127 && -128 <= y <= 127
    ensures Term(x * FACTOR, y * FACTOR) == x * y * FACTOR
    ensures (x * FACTOR) * (y * FACTOR) + HALF <= MAX64 && (x * FACTOR) * (y * FACTOR) >= -MAX64
  {
    ProductBound(x, y);
    var p := x * y;
    ScaledProduct(x, y, FACTOR);
    ProductFits(p);
  }

  lemma ScaledProduct(x: int, y: int, f: int)
    ensures (x * f) * (y * f) == x * y * f * f
  {
  }

  /** A scaled product of signed bytes fits in 64 bits and rounds exactly. */
  lemma ProductFits(p: int)
    requires -16384 <= p <= 16384
    ensures p * FACTOR * FACTOR + HALF <= MAX64 && p * FACTOR * FACTOR >= -MAX64
    ensures Wrap(Wrap(p * FACTOR * FACTOR) + HALF) / FACTOR == p * FACTOR
  {
    WrapInRange(p * FACTOR * FACTOR);
    WrapInRange(p * FACTOR * FACTOR + HALF);
    DivModUnique(p * FACTOR * FACTOR + HALF, p * FACTOR, HALF, FACTOR);
  }

  lemma {:induction false} DotBound(a: Matrix, b: Matrix, n: nat, i: nat, j: nat, k: nat)
    requires Int8(a, n) && Int8(b, n) && i < n && j < n && k <= n
    ensures -16384 * k <= Dot(a, b, n, i, j, k) <= 16384 * k
    decreases k
  {
    if k > 0 {
      DotBound(a, b, n, i, j, k - 1);
      ProductBound(a[i][k - 1], b[k - 1][j]);
    }
  }

  /** On scaled signed bytes the accumulator holds the scaled dot product: nothing wraps. */
  lemma {:induction false} AccIsDot(ar: Arith, a: Matrix, b: Matrix, n: nat, i: nat, j: nat, k: nat)
    requires IsArith64(ar) && n <= MAX_SIDE
    requires Int8(a, n) && Int8(b, n) && i < n && j < n && k <= n
    ensures Acc(ar, Scaled(a, n), Scaled(b, n), n, i, j, k) == Dot(a, b, n, i, j, k) * FACTOR
    decreases k
  {
    if k > 0 {
      AccIsDot(ar, a, b, n, i, j, k - 1);
      var x, y := a[i][k - 1], b[k - 1][j];
      var d := Dot(a, b, n, i, j, k - 1);
      TermOfInt8(x, y);
      assert Term(x * FACTOR, y * FACTOR) == ar.term(x * FACTOR, y * FACTOR);
      DotBound(a, b, n, i, j, k);
      SumFits(d, x * y);
      assert Add64(d * FACTOR, x * y * FACTOR) == ar.add(d * FACTOR, x * y * FACTOR);
    }
  }

  lemma SumFits(d: int, p: int)
    requires -4194304 <= d + p <= 4194304
    ensures Add64(d * FACTOR, p * FACTOR) == (d + p) * FACTOR
  {
    WrapInRange((d + p) * FACTOR);
  }

  /** Rescaling the fixed-point product gives the saturated product, for sides up to 256. */
  lemma RescaledProduct(ar: Arith, a: Matrix, b: Matrix, n: nat, i: nat, j: nat)
    requires IsArith64(ar) && n <= MAX_SIDE
    requires Int8(a, n) && Int8(b, n) && i < n && j < n
    ensures FromFixed(Product(ar, Scaled(a, n), Scaled(b, n), n)[i][j]) == Saturated(a, b, n)[i][j]
  {
    AccIsDot(ar, a, b, n, i, j, n);
    DotBound(a, b, n, i, j, n);
    FromFixedOfWhole(Dot(a, b, n, i, j, n));
  }
}
