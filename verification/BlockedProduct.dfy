/**
 `mulMatrixBlocked`: the six nested loops, in tiles of 32, compute the naive product.

 The proof does not depend on the arithmetic, only on how the terms are visited, so the
 specification takes the two operations as a parameter: `term` is one rounded product, `add`
 accumulates.
 */
module BlockedProduct {
  import opened FixedPoint

  const BLOCK_SIZE: nat := 32

  datatype Arith = Arith(add: (int, int) -> int, term: (int, int) -> int)

  /** The 64-bit fixed-point arithmetic of the repository. */
  ghost function Arith64(): Arith {
    Arith((x, y) => Add64(x, y), (x, y) => Term(x, y))
  }

  /** `ar` is that arithmetic, kept folded. */
  ghost predicate IsArith64(ar: Arith) {
    && (forall x, y {:trigger Add64(x, y)} :: Add64(x, y) == ar.add(x, y))
    && (forall x, y {:trigger Term(x, y)} :: Term(x, y) == ar.term(x, y))
  }

  lemma Arith64IsArith64()
    ensures IsArith64(Arith64())
  {
  }

  // ---- Matrices ----

  type Matrix = seq<seq<int>>

  ghost predicate Square(m: Matrix, n: nat) {
    |m| == n && forall i :: 0 <= i < n ==> |m[i]| == n
  }

  lemma RowFits(i: nat, n: nat)
    requires i < n
    ensures 0 <= i * n <= i * n + n <= n * n
  {
    assert (i + 1) * n <= n * n;
  }

  lemma RowsApart(p: nat, i: nat, n: nat)
    requires p < i
    ensures p * n + n <= i * n
  {
    assert (p + 1) * n <= i * n;
  }

  /** Row i of a matrix stored row by row. */
  function Row(s: seq<int>, n: nat, i: nat): (r: seq<int>)
    requires |s| == n * n && i < n
    ensures |r| == n
  {
    RowFits(i, n);
    s[i * n..i * n + n]
  }

  /** The matrix stored row by row in s. */
  function View(s: seq<int>, n: nat): (m: Matrix)
    requires |s| == n * n
    ensures Square(m, n)
    ensures forall i :: 0 <= i < n ==> m[i] == Row(s, n, i)
  {
    seq(n, i requires 0 <= i < n => Row(s, n, i))
  }

  /** The first k terms of entry (i, j), added in order. */
  ghost function Acc(ar: Arith, a: Matrix, b: Matrix, n: nat, i: nat, j: nat, k: nat): int
    requires Square(a, n) && Square(b, n) && i < n && j < n && k <= n
    decreases k
  {
    if k == 0 then 0 else ar.add(Acc(ar, a, b, n, i, j, k - 1), ar.term(a[i][k - 1], b[k - 1][j]))
  }

  /** The naive product. */
  ghost function Product(ar: Arith, a: Matrix, b: Matrix, n: nat): (m: Matrix)
    requires Square(a, n) && Square(b, n)
    ensures Square(m, n)
  {
    seq(n, i requires 0 <= i < n => seq(n, j requires 0 <= j < n => Acc(ar, a, b, n, i, j, n)))
  }

  /** The same terms as mathematical integers. */
  ghost function Sum(a: Matrix, b: Matrix, n: nat, i: nat, j: nat, k: nat): int
    requires Square(a, n) && Square(b, n) && i < n && j < n && k <= n
    decreases k
  {
    if k == 0 then 0 else Sum(a, b, n, i, j, k - 1) + Term(a[i][k - 1], b[k - 1][j])
  }

  /** In 64-bit arithmetic each term is added exactly once, and only the final sum wraps. */
  lemma {:induction false} AccIsWrappedSum(a: Matrix, b: Matrix, n: nat, i: nat, j: nat, k: nat)
    requires Square(a, n) && Square(b, n) && i < n && j < n && k <= n
    ensures Acc(Arith64(), a, b, n, i, j, k) == Wrap(Sum(a, b, n, i, j, k))
    decreases k
  {
    if k > 0 {
      AccIsWrappedSum(a, b, n, i, j, k - 1);
      WrapAbsorbs(Sum(a, b, n, i, j, k - 1), Term(a[i][k - 1], b[k - 1][j]));
    }
  }

  /** Skipping a zero entry of a adds nothing to an accumulator. */
  lemma ZeroSkip(ar: Arith, a: Matrix, b: Matrix, n: nat, i: nat, j: nat, k: nat)
    requires IsArith64(ar)
    requires Square(a, n) && Square(b, n) && i < n && j < n && k < n && a[i][k] == 0
    ensures Acc(ar, a, b, n, i, j, k + 1) == Acc(ar, a, b, n, i, j, k)
  {
    TermZero(b[k][j]);
    assert Term(0, b[k][j]) == ar.term(0, b[k][j]);
    var x := Acc(ar, a, b, n, i, j, k);
    assert Add64(x, 0) == ar.add(x, 0);
    if k == 0 {
      WrapInRange(0);
    } else {
      var u, v := Acc(ar, a, b, n, i, j, k - 1), ar.term(a[i][k - 1], b[k - 1][j]);
      assert Add64(u, v) == ar.add(u, v);
      WrapInRange(x);
    }
  }

  // ---- The loops ----

  /** The j loop: one row of b, scaled, added to part of one row of dst. */
  method AccumulateRow(dst: array<int>, b: array<int>, valA: int, rowDst: nat, rowB: nat, j0: nat, j1: nat, ghost ar: Arith)
    requires IsArith64(ar)
    requires dst != b && j0 <= j1 && rowDst + j1 <= dst.Length && rowB + j1 <= b.Length
    modifies dst
    ensures forall p :: rowDst + j0 <= p < rowDst + j1 ==>
      dst[p] == ar.add(old(dst[p]), ar.term(valA, old(b[p - rowDst + rowB])))
    ensures dst[..rowDst + j0] == old(dst[..rowDst + j0])
    ensures dst[rowDst + j1..] == old(dst[rowDst + j1..])
  {
    ghost var s, sb := dst[..], b[..];
    for j := j0 to j1
      invariant b[..] == sb
      invariant forall p :: rowDst + j0 <= p < rowDst + j ==>
        dst[p] == ar.add(s[p], ar.term(valA, sb[p - rowDst + rowB]))
      invariant forall p :: 0 <= p < dst.Length && !(rowDst + j0 <= p < rowDst + j) ==> dst[p] == s[p]
    {
      assert b[rowB + j] == sb[rowB + j];
      dst[rowDst + j] := Add64(dst[rowDst + j], Term(valA, b[rowB + j]));
    }
  }

  lemma SliceBefore(s: seq<int>, t: seq<int>, lo: nat, a: nat, b: nat)
    requires |s| == |t| && lo <= |s| && a <= b <= lo && s[..lo] == t[..lo]
    ensures s[a..b] == t[a..b]
  {
    forall k | a <= k < b
      ensures s[k] == t[k]
    {
      assert s[..lo][k] == t[..lo][k];
    }
  }

  lemma SliceAfter(s: seq<int>, t: seq<int>, hi: nat, a: nat, b: nat)
    requires |s| == |t| && hi <= a <= b <= |s| && s[hi..] == t[hi..]
    ensures s[a..b] == t[a..b]
  {
    forall k | a <= k < b
      ensures s[k] == t[k]
    {
      assert s[hi..][k - hi] == t[hi..][k - hi];
    }
  }

  lemma OtherRowsKept(s: seq<int>, t: seq<int>, n: nat, i: nat, lo: nat, hi: nat, p: nat)
    requires |s| == |t| == n * n && i < n && p < n && p != i
    requires i * n <= lo <= hi <= i * n + n <= n * n
    requires s[..lo] == t[..lo] && s[hi..] == t[hi..]
    ensures Row(t, n, p) == Row(s, n, p)
  {
    RowFits(p, n);
    var q := p * n;
    if p < i {
      RowsApart(p, i, n);
      SliceBefore(s, t, lo, q, q + n);
    } else {
      RowsApart(i, p, n);
      SliceAfter(s, t, hi, q, q + n);
    }
  }

  /** Entries [j0, j1) of row i have k terms, the others are those of `before`. */
  ghost predicate RowLevel(ar: Arith, m: Matrix, before: Matrix, a: Matrix, b: Matrix, n: nat,
                           i: nat, j0: nat, j1: nat, k: nat)
    requires Square(m, n) && Square(before, n) && Square(a, n) && Square(b, n)
    requires i < n && j0 <= j1 <= n && k <= n
  {
    && (forall p :: 0 <= p < n && p != i ==> m[p] == before[p])
    && (forall j :: 0 <= j < n ==>
      m[i][j] == if j0 <= j < j1 then Acc(ar, a, b, n, i, j, k) else before[i][j])
  }

  /** The body of the k loop, with its zero-skip. */
  method AddTerm(dst: array<int>, a: array<int>, b: array<int>, n: nat, i: nat, k: nat, j0: nat, j1: nat,
                 ghost ar: Arith, ghost before: Matrix)
    requires IsArith64(ar)
    requires dst != a && dst != b && dst.Length == a.Length == b.Length == n * n
    requires i < n && k < n && j0 <= j1 <= n && Square(before, n)
    requires RowLevel(ar, View(dst[..], n), before, View(a[..], n), View(b[..], n), n, i, j0, j1, k)
    modifies dst
    ensures RowLevel(ar, View(dst[..], n), before, View(old(a[..]), n), View(old(b[..]), n), n, i, j0, j1, k + 1)
  {
    ghost var s := dst[..];
    ghost var ma, mb := View(a[..], n), View(b[..], n);
    RowFits(i, n);
    RowFits(k, n);
    var rowA := i * n;
    var valA := a[rowA + k];
    assert valA == ma[i][k];
    if valA == 0 {
      forall j | j0 <= j < j1
        ensures View(s, n)[i][j] == Acc(ar, ma, mb, n, i, j, k + 1)
      {
        ZeroSkip(ar, ma, mb, n, i, j, k);
      }
      return;
    }
    var rowDst, rowB := i * n, k * n;
    ghost var sb := b[..];
    AccumulateRow(dst, b, valA, rowDst, rowB, j0, j1, ar);
    RowAccumulated(ar, s, dst[..], sb, ma, before, n, i, k, j0, j1, rowDst, rowB);
  }

  lemma RowAccumulated(ar: Arith, s: seq<int>, t: seq<int>, sb: seq<int>, ma: Matrix, before: Matrix, n: nat,
                       i: nat, k: nat, j0: nat, j1: nat, q: nat, r: nat)
    requires |s| == |t| == |sb| == n * n && Square(ma, n) && Square(before, n)
    requires i < n && k < n && j0 <= j1 <= n
    requires q == i * n && r == k * n && q + n <= |s| && r + n <= |s|
    requires RowLevel(ar, View(s, n), before, ma, View(sb, n), n, i, j0, j1, k)
    requires s[..q + j0] == t[..q + j0] && s[q + j1..] == t[q + j1..]
    requires forall p :: q + j0 <= p < q + j1 ==> t[p] == ar.add(s[p], ar.term(ma[i][k], sb[p - q + r]))
    ensures RowLevel(ar, View(t, n), before, ma, View(sb, n), n, i, j0, j1, k + 1)
  {
    forall p | 0 <= p < n && p != i
      ensures View(t, n)[p] == before[p]
    {
      OtherRowsKept(s, t, n, i, q + j0, q + j1, p);
    }
    var m, m', mb := View(s, n), View(t, n), View(sb, n);
    assert m[i] == s[q..q + n] && m'[i] == t[q..q + n] && mb[k] == sb[r..r + n];
    forall j | 0 <= j < n
      ensures m'[i][j] == if j0 <= j < j1 then Acc(ar, ma, mb, n, i, j, k + 1) else before[i][j]
    {
      assert m'[i][j] == t[q + j] && m[i][j] == s[q + j];
      if j0 <= j < j1 {
        assert sb[r + j] == mb[k][j];
      } else if j < j0 {
        assert s[..q + j0][q + j] == t[..q + j0][q + j];
      } else {
        assert s[q + j1..][j - j1] == t[q + j1..][j - j1];
      }
    }
  }

  /** The k loop: row i of one tile. */
  method MulRow(dst: array<int>, a: array<int>, b: array<int>, n: nat, i: nat,
                k0: nat, k1: nat, j0: nat, j1: nat, ghost ar: Arith)
    requires IsArith64(ar)
    requires dst != a && dst != b && dst.Length == a.Length == b.Length == n * n
    requires i < n && k0 <= k1 <= n && j0 <= j1 <= n
    requires RowLevel(ar, View(dst[..], n), View(dst[..], n), View(a[..], n), View(b[..], n), n, i, j0, j1, k0)
    modifies dst
    ensures RowLevel(ar, View(dst[..], n), View(old(dst[..]), n), View(old(a[..]), n), View(old(b[..]), n), n, i, j0, j1, k1)
  {
    ghost var before := View(dst[..], n);
    ghost var sa, sb := a[..], b[..];
    for k := k0 to k1
      invariant a[..] == sa && b[..] == sb
      invariant RowLevel(ar, View(dst[..], n), before, View(sa, n), View(sb, n), n, i, j0, j1, k)
    {
      AddTerm(dst, a, b, n, i, k, j0, j1, ar, before);
    }
  }

  /** Tile [i0, i1) x [j0, j1) has k terms, the other entries are those of `before`. */
  ghost predicate TileLevel(ar: Arith, m: Matrix, before: Matrix, a: Matrix, b: Matrix, n: nat,
                            i0: nat, i1: nat, j0: nat, j1: nat, k: nat)
    requires Square(m, n) && Square(before, n) && Square(a, n) && Square(b, n)
    requires i0 <= i1 <= n && j0 <= j1 <= n && k <= n
  {
    forall i, j :: 0 <= i < n && 0 <= j < n ==>
      m[i][j] == if i0 <= i < i1 && j0 <= j < j1 then Acc(ar, a, b, n, i, j, k) else before[i][j]
  }

  /** Rows [i0, i) of the tile have k1 terms, the rest of the tile has k0. */
  ghost predicate RowsDone(ar: Arith, m: Matrix, before: Matrix, a: Matrix, b: Matrix, n: nat,
                           i0: nat, i: nat, i1: nat, j0: nat, j1: nat, k0: nat, k1: nat)
    requires Square(m, n) && Square(before, n) && Square(a, n) && Square(b, n)
    requires i0 <= i <= i1 <= n && j0 <= j1 <= n && k0 <= k1 <= n
  {
    && (forall p, j :: 0 <= p < n && 0 <= j < n && i0 <= p < i && j0 <= j < j1 ==> m[p][j] == Acc(ar, a, b, n, p, j, k1))
    && (forall p, j :: 0 <= p < n && 0 <= j < n && i <= p < i1 && j0 <= j < j1 ==> m[p][j] == Acc(ar, a, b, n, p, j, k0))
    && (forall p, j :: 0 <= p < n && 0 <= j < n && !(i0 <= p < i1 && j0 <= j < j1) ==> m[p][j] == before[p][j])
  }

  lemma RowAdvances(ar: Arith, m: Matrix, m': Matrix, before: Matrix, a: Matrix, b: Matrix, n: nat,
                    i0: nat, i: nat, i1: nat, j0: nat, j1: nat, k0: nat, k1: nat)
    requires Square(m, n) && Square(m', n) && Square(before, n) && Square(a, n) && Square(b, n)
    requires i0 <= i < i1 <= n && j0 <= j1 <= n && k0 <= k1 <= n
    requires RowsDone(ar, m, before, a, b, n, i0, i, i1, j0, j1, k0, k1)
    requires RowLevel(ar, m', m, a, b, n, i, j0, j1, k1)
    ensures RowsDone(ar, m', before, a, b, n, i0, i + 1, i1, j0, j1, k0, k1)
  {
  }

  /** The i and k loops: one tile. */
  method MulTile(dst: array<int>, a: array<int>, b: array<int>, n: nat,
                 i0: nat, i1: nat, k0: nat, k1: nat, j0: nat, j1: nat, ghost ar: Arith)
    requires IsArith64(ar)
    requires dst != a && dst != b && dst.Length == a.Length == b.Length == n * n
    requires i0 <= i1 <= n && k0 <= k1 <= n && j0 <= j1 <= n
    requires TileLevel(ar, View(dst[..], n), View(dst[..], n), View(a[..], n), View(b[..], n), n, i0, i1, j0, j1, k0)
    modifies dst
    ensures TileLevel(ar, View(dst[..], n), View(old(dst[..]), n), View(old(a[..]), n), View(old(b[..]), n), n, i0, i1, j0, j1, k1)
  {
    ghost var before := View(dst[..], n);
    ghost var sa, sb := a[..], b[..];
    for i := i0 to i1
      invariant a[..] == sa && b[..] == sb
      invariant RowsDone(ar, View(dst[..], n), before, View(sa, n), View(sb, n), n, i0, i, i1, j0, j1, k0, k1)
    {
      ghost var m := View(dst[..], n);
      MulRow(dst, a, b, n, i, k0, k1, j0, j1, ar);
      RowAdvances(ar, m, View(dst[..], n), before, View(sa, n), View(sb, n), n, i0, i, i1, j0, j1, k0, k1);
    }
  }

  /** How many terms entry (i, j) has when the three outer loops stand at i0, k0 and j0. */
  function Level(n: nat, i0: nat, i1: nat, k0: nat, k1: nat, j0: nat, i: nat, j: nat): nat {
    if i < i0 then n else if i >= i1 then 0 else if j < j0 then k1 else k0
  }

  ghost predicate Levels(ar: Arith, m: Matrix, a: Matrix, b: Matrix, n: nat, i0: nat, i1: nat, k0: nat, k1: nat, j0: nat)
    requires Square(m, n) && Square(a, n) && Square(b, n) && k0 <= n && k1 <= n
  {
    forall i: nat, j: nat :: i < n && j < n ==> m[i][j] == Acc(ar, a, b, n, i, j, Level(n, i0, i1, k0, k1, j0, i, j))
  }

  function Min(a: nat, b: nat): nat {
    if a <= b then a else b
  }

  /** The j0 loop: a band of rows against a band of terms. */
  method MulBand(dst: array<int>, a: array<int>, b: array<int>, n: nat, i0: nat, i1: nat, k0: nat, k1: nat, ghost ar: Arith)
    requires IsArith64(ar)
    requires dst != a && dst != b && dst.Length == a.Length == b.Length == n * n
    requires i0 <= i1 <= n && k0 <= k1 <= n
    requires Levels(ar, View(dst[..], n), View(a[..], n), View(b[..], n), n, i0, i1, k0, k1, 0)
    modifies dst
    ensures Levels(ar, View(dst[..], n), View(old(a[..]), n), View(old(b[..]), n), n, i0, i1, k1, k1, 0)
  {
    ghost var sa, sb := a[..], b[..];
    var j0 := 0;
    while j0 < n
      invariant a[..] == sa && b[..] == sb
      invariant Levels(ar, View(dst[..], n), View(sa, n), View(sb, n), n, i0, i1, k0, k1, Min(j0, n))
    {
      var j1 := j0 + BLOCK_SIZE;
      if j1 > n {
        j1 := n;
      }
      ghost var m := View(dst[..], n);
      MulTile(dst, a, b, n, i0, i1, k0, k1, j0, j1, ar);
      TileAdvances(ar, m, View(dst[..], n), View(sa, n), View(sb, n), n, i0, i1, k0, k1, j0, j1);
      j0 := j0 + BLOCK_SIZE;
    }
  }

  lemma TileAdvances(ar: Arith, m: Matrix, m': Matrix, a: Matrix, b: Matrix, n: nat,
                     i0: nat, i1: nat, k0: nat, k1: nat, j0: nat, j1: nat)
    requires Square(m, n) && Square(m', n) && Square(a, n) && Square(b, n)
    requires i0 <= i1 <= n && j0 <= j1 <= n && k0 <= k1 <= n
    requires Levels(ar, m, a, b, n, i0, i1, k0, k1, j0)
    requires TileLevel(ar, m', m, a, b, n, i0, i1, j0, j1, k1)
    ensures Levels(ar, m', a, b, n, i0, i1, k0, k1, j1)
  {
    forall i: nat, j: nat | i < n && j < n
      ensures m'[i][j] == Acc(ar, a, b, n, i, j, Level(n, i0, i1, k0, k1, j1, i, j))
    {
      assert m[i][j] == Acc(ar, a, b, n, i, j, Level(n, i0, i1, k0, k1, j0, i, j));
    }
  }

  /** The k0 loop: a band of rows. */
  method MulRows(dst: array<int>, a: array<int>, b: array<int>, n: nat, i0: nat, i1: nat, ghost ar: Arith)
    requires IsArith64(ar)
    requires dst != a && dst != b && dst.Length == a.Length == b.Length == n * n
    requires i0 <= i1 <= n
    requires Levels(ar, View(dst[..], n), View(a[..], n), View(b[..], n), n, i0, i1, 0, 0, 0)
    modifies dst
    ensures Levels(ar, View(dst[..], n), View(old(a[..]), n), View(old(b[..]), n), n, i1, i1, 0, 0, 0)
  {
    ghost var sa, sb := a[..], b[..];
    var k0 := 0;
    while k0 < n
      invariant a[..] == sa && b[..] == sb
      invariant Levels(ar, View(dst[..], n), View(sa, n), View(sb, n), n, i0, i1, Min(k0, n), Min(k0, n), 0)
    {
      var k1 := k0 + BLOCK_SIZE;
      if k1 > n {
        k1 := n;
      }
      assert k1 == Min(k0 + BLOCK_SIZE, n);
      MulBand(dst, a, b, n, i0, i1, k0, k1, ar);
      k0 := k0 + BLOCK_SIZE;
    }
  }

  /**
   The whole product.  `dst` aliases neither input; the inputs may be the same array.
   */
  method MulMatrixBlocked(dst: array<int>, a: array<int>, b: array<int>, size: nat, ghost ar: Arith)
    requires IsArith64(ar)
    requires dst != a && dst != b && dst.Length == a.Length == b.Length == size * size
    modifies dst
    ensures View(dst[..], size) == Product(ar, View(old(a[..]), size), View(old(b[..]), size), size)
  {
    ghost var sa, sb := a[..], b[..];
    for i := 0 to size * size
      invariant forall p :: 0 <= p < i ==> dst[p] == 0
    {
      dst[i] := 0;
    }
    assert a[..] == sa && b[..] == sb;
    ghost var ma, mb := View(sa, size), View(sb, size);
    ZeroLevels(ar, dst[..], ma, mb, size);
    var i0 := 0;
    while i0 < size
      invariant a[..] == sa && b[..] == sb
      invariant Levels(ar, View(dst[..], size), ma, mb, size, Min(i0, size), Min(i0, size), 0, 0, 0)
    {
      var i1 := i0 + BLOCK_SIZE;
      if i1 > size {
        i1 := size;
      }
      MulRows(dst, a, b, size, i0, i1, ar);
      i0 := i0 + BLOCK_SIZE;
    }
    LevelsDone(ar, View(dst[..], size), ma, mb, size);
  }

  lemma ZeroLevels(ar: Arith, s: seq<int>, a: Matrix, b: Matrix, n: nat)
    requires |s| == n * n && Square(a, n) && Square(b, n)
    requires forall p :: 0 <= p < |s| ==> s[p] == 0
    ensures Levels(ar, View(s, n), a, b, n, 0, 0, 0, 0, 0)
  {
    forall i: nat, j: nat | i < n && j < n
      ensures View(s, n)[i][j] == 0
    {
      RowFits(i, n);
      assert View(s, n)[i][j] == s[i * n + j];
    }
  }

  lemma LevelsDone(ar: Arith, m: Matrix, a: Matrix, b: Matrix, n: nat)
    requires Square(m, n) && Square(a, n) && Square(b, n)
    requires Levels(ar, m, a, b, n, n, n, 0, 0, 0)
    ensures m == Product(ar, a, b, n)
  {
    forall i: nat | i < n
      ensures m[i] == Product(ar, a, b, n)[i]
    {
      forall j: nat | j < n
        ensures m[i][j] == Product(ar, a, b, n)[i][j]
      {
        assert Level(n, n, n, 0, 0, 0, i, j) == n;
      }
    }
  }
}
