/**
 `hashMatrix`: the 256 x 256 result bytes are packed into 64 columns of 256 words, each column is
 folded in place to one word by halving, and the 64 words are hashed.
 */
module Fold {
  import opened Words
  import opened Unsigned

  // ---- fnv ----

  const PRIME: nat := 0x0100_0193
  const PRIME_INVERSE: nat := 0x359c_449b

  /** a * prime ^ b */
  function Fnv(a: word, b: word): word {
    Exor(Times(a, PRIME), b)
  }

  /** The first argument is multiplied by the prime, modulo 2^32; the second is xored in. */
  lemma FnvMeaning(a: word, b: word)
    ensures Value(Exor(Fnv(a, b), b)) == Value(a) * 16777619 % MODULUS
  {
    ExorTwice(Times(a, PRIME), b);
    ValueOfValue(Value(a) * PRIME % MODULUS);
  }

  lemma ExorCancels(x: word, y: word, b: word)
    ensures Exor(x, b) == Exor(y, b) ==> x == y
    ensures Exor(b, x) == Exor(b, y) ==> x == y
  {
  }

  /** `fnv` is injective in each argument: the prime is odd, hence invertible modulo 2^32. */
  lemma FnvInjective(a: word, c: word, b: word)
    ensures Fnv(a, b) == Fnv(c, b) ==> a == c
    ensures Fnv(b, a) == Fnv(b, c) ==> a == c
  {
    assert PRIME * PRIME_INVERSE % MODULUS == 1;
    TimesInjective(a, c, PRIME, PRIME_INVERSE);
    ExorCancels(Times(a, PRIME), Times(c, PRIME), b);
    ExorCancels(a, c, Times(b, PRIME));
  }

  /** The operation the tree is built from; the proofs about trees do not depend on it. */
  type Combine = (word, word) -> word

  ghost predicate Injective(mix: Combine) {
    && (forall a, c, b {:trigger mix(a, b), mix(c, b)} :: mix(a, b) == mix(c, b) ==> a == c)
    && (forall a, c, b {:trigger mix(b, a), mix(b, c)} :: mix(b, a) == mix(b, c) ==> a == c)
  }

  function FnvCombine(): Combine {
    (a, b) => Fnv(a, b)
  }

  /** `mix` is fnv, kept folded. */
  ghost predicate IsFnv(mix: Combine) {
    forall a, b {:trigger Fnv(a, b)} :: Fnv(a, b) == mix(a, b)
  }

  lemma FnvIsFnv()
    ensures IsFnv(FnvCombine()) && Injective(FnvCombine())
  {
    var mix := FnvCombine();
    forall a, c, b
      ensures mix(a, b) == mix(c, b) ==> a == c
    {
      FnvInjective(a, c, b);
    }
    forall a, c, b
      ensures mix(b, a) == mix(b, c) ==> a == c
    {
      FnvInjective(a, c, b);
    }
  }

  // ---- One column ----

  ghost predicate PowerOfTwo(n: nat) {
    n == 1 || (n >= 2 && n % 2 == 0 && PowerOfTwo(n / 2))
  }

  lemma {:induction false} PowersDouble(a: nat, b: nat)
    requires PowerOfTwo(a) && PowerOfTwo(b) && a < b
    ensures 2 * a <= b
    decreases b
  {
    if a > 1 {
      PowersDouble(a / 2, b / 2);
    }
  }

  /** One pass of the loop on a column: the upper half of the rows after it. */
  function Halved(mix: Combine, c: seq<word>): (h: seq<word>)
    ensures |h| == |c| / 2
  {
    seq(|c| / 2, j requires 0 <= j < |c| / 2 => mix(c[j], c[j + |c| / 2]))
  }

  /** What repeated halving leaves in row 0. */
  function Root(mix: Combine, c: seq<word>): word
    requires |c| >= 1
    decreases |c|
  {
    if |c| == 1 then c[0] else Root(mix, Halved(mix, c))
  }

  /** The recursive tree over the rows congruent to j modulo k. */
  ghost function Node(mix: Combine, c: seq<word>, j: nat, k: nat): word
    requires j < k <= |c|
    decreases |c| - k
  {
    if 2 * k > |c| then c[j] else mix(Node(mix, c, j, 2 * k), Node(mix, c, j + k, 2 * k))
  }

  lemma {:induction false} NodeOfHalved(mix: Combine, c: seq<word>, j: nat, k: nat)
    requires PowerOfTwo(|c|) && |c| >= 2 && PowerOfTwo(k) && j < k <= |c| / 2
    ensures Node(mix, Halved(mix, c), j, k) == Node(mix, c, j, k)
    decreases |c| - k
  {
    if k < |c| / 2 {
      PowersDouble(k, |c| / 2);
      NodeOfHalved(mix, c, j, 2 * k);
      NodeOfHalved(mix, c, j + k, 2 * k);
    } else {
      assert 2 * k == |c|;
      assert Node(mix, c, j, 2 * k) == c[j] && Node(mix, c, j + k, 2 * k) == c[j + k];
      assert Node(mix, Halved(mix, c), j, k) == Halved(mix, c)[j];
    }
  }

  /** Halving in place computes the tree, for every power-of-two height. */
  lemma {:induction false} RootIsTree(mix: Combine, c: seq<word>)
    requires PowerOfTwo(|c|)
    ensures Root(mix, c) == Node(mix, c, 0, 1)
    decreases |c|
  {
    if |c| > 1 {
      RootIsTree(mix, Halved(mix, c));
      NodeOfHalved(mix, c, 0, 1);
    }
  }

  /** A column of two words: the upper one is the first argument. */
  lemma RootOfTwo(c: seq<word>)
    requires |c| == 2
    ensures Value(Exor(Root(FnvCombine(), c), c[1])) == Value(c[0]) * 16777619 % MODULUS
  {
    assert Root(FnvCombine(), c) == Halved(FnvCombine(), c)[0];
    FnvMeaning(c[0], c[1]);
  }

  ghost predicate DifferOnlyAt<T>(c: seq<T>, d: seq<T>, p: nat) {
    |c| == |d| && p < |c| && c[p] != d[p] && forall i :: 0 <= i < |c| && i != p ==> c[i] == d[i]
  }

  /** Changing one leaf changes the root. */
  lemma {:induction false} OneLeafChangesRoot(mix: Combine, c: seq<word>, d: seq<word>, p: nat)
    requires Injective(mix) && PowerOfTwo(|c|) && DifferOnlyAt(c, d, p)
    ensures Root(mix, c) != Root(mix, d)
    decreases |c|
  {
    if |c| > 1 {
      var h := |c| / 2;
      var q := if p < h then p else p - h;
      assert Halved(mix, c)[q] == mix(c[q], c[q + h]) && Halved(mix, d)[q] == mix(d[q], d[q + h]);
      assert mix(c[q], d[q + h]) == mix(d[q], d[q + h]) ==> c[q] == d[q];
      forall i | 0 <= i < h && i != q
        ensures Halved(mix, c)[i] == Halved(mix, d)[i]
      {
      }
      OneLeafChangesRoot(mix, Halved(mix, c), Halved(mix, d), q);
    }
  }

  // ---- The matrix ----

  const SIDE: nat := 256
  const QUARTER: nat := 64
  const AREA: nat := 65536

  /** Word (row, col): the four bytes of the row a quarter of the width apart. */
  function Packed(result: seq<byte>, row: nat, col: nat): word
    requires |result| == AREA && row < SIDE && col < QUARTER
  {
    Le32(result[256 * row + col], result[256 * row + col + 64], result[256 * row + col + 128], result[256 * row + col + 192])
  }

  function Column(result: seq<byte>, col: nat): (c: seq<word>)
    requires |result| == AREA && col < QUARTER
    ensures |c| == SIDE
  {
    seq(SIDE, row requires 0 <= row < SIDE => Packed(result, row, col))
  }

  /** The words given to the final Keccak. */
  function FinalWords(mix: Combine, result: seq<byte>): (w: seq<word>)
    requires |result| == AREA
    ensures |w| == QUARTER
  {
    seq(QUARTER, col requires 0 <= col < QUARTER => Root(mix, Column(result, col)))
  }

  function MatrixHash(keccak: Keccak, mix: Combine, result: seq<byte>): Hash
    requires |result| == AREA
  {
    keccak(EncodeWords(FinalWords(mix, result)))
  }

  lemma SidePower()
    ensures PowerOfTwo(SIDE)
  {
    assert PowerOfTwo(2) && PowerOfTwo(4) && PowerOfTwo(8) && PowerOfTwo(16);
    assert PowerOfTwo(32) && PowerOfTwo(64) && PowerOfTwo(128);
  }

  lemma Le32Injective(a: seq<byte>, b: seq<byte>)
    requires |a| == |b| == 4 && Le32(a[0], a[1], a[2], a[3]) == Le32(b[0], b[1], b[2], b[3])
    ensures a == b
  {
    BytesOfLe32(a[0], a[1], a[2], a[3]);
    BytesOfLe32(b[0], b[1], b[2], b[3]);
  }

  /** The bytes packed into word (row, col). */
  function PackedBytes(result: seq<byte>, row: nat, col: nat): seq<byte>
    requires |result| == AREA && row < SIDE && col < QUARTER
  {
    [result[256 * row + col], result[256 * row + col + 64], result[256 * row + col + 128], result[256 * row + col + 192]]
  }

  /** Byte p of the result is byte (p mod 256) / 64 of the word in row p / 256 of column p mod 64. */
  lemma ByteIsPacked(result: seq<byte>, p: nat)
    requires |result| == AREA && p < AREA
    ensures ByteOf(Column(result, p % 64)[p / 256], p % 256 / 64) == result[p]
  {
    PackedAt(result, p / 256, p % 64, p % 256 / 64);
    assert p == 256 * (p / 256) + 64 * (p % 256 / 64) + p % 64;
  }

  lemma PackedAt(result: seq<byte>, row: nat, col: nat, k: nat)
    requires |result| == AREA && row < SIDE && col < QUARTER && k < 4
    ensures ByteOf(Column(result, col)[row], k) == result[256 * row + 64 * k + col]
  {
    var b := PackedBytes(result, row, col);
    BytesOfLe32(b[0], b[1], b[2], b[3]);
    assert b[k] == result[256 * row + 64 * k + col];
  }

  /** Every byte of the result is packed into exactly one word. */
  lemma OneByteChangesOneLeaf(r: seq<byte>, s: seq<byte>, p: nat)
    requires |r| == |s| == AREA && DifferOnlyAt(r, s, p)
    ensures DifferOnlyAt(Column(r, p % 64), Column(s, p % 64), p / 256)
    ensures forall col: nat :: col < QUARTER && col != p % 64 ==> Column(r, col) == Column(s, col)
  {
    var row, col := p / 256, p % 64;
    var k := (p % 256) / 64;
    assert p == 256 * row + 64 * k + col;
    var a, b := PackedBytes(r, row, col), PackedBytes(s, row, col);
    assert a[k] == r[p] && b[k] == s[p];
    if Packed(r, row, col) == Packed(s, row, col) {
      Le32Injective(a, b);
      assert false;
    }
    forall i: nat, j: nat | i < SIDE && j < QUARTER && (i != row || j != col)
      ensures Packed(r, i, j) == Packed(s, i, j)
    {
      assert 256 * i + j != p && 256 * i + j + 64 != p && 256 * i + j + 128 != p && 256 * i + j + 192 != p;
    }
  }

  /**
   Changing exactly one byte of the result matrix changes exactly one of the 64 words given to the
   final Keccak, and therefore its input.
   */
  lemma OneByteChangesOneWord(mix: Combine, r: seq<byte>, s: seq<byte>, p: nat)
    requires Injective(mix) && |r| == |s| == AREA && DifferOnlyAt(r, s, p)
    ensures DifferOnlyAt(FinalWords(mix, r), FinalWords(mix, s), p % 64)
    ensures EncodeWords(FinalWords(mix, r)) != EncodeWords(FinalWords(mix, s))
  {
    OneByteChangesOneLeaf(r, s, p);
    SidePower();
    OneLeafChangesRoot(mix, Column(r, p % 64), Column(s, p % 64), p / 256);
    if EncodeWords(FinalWords(mix, r)) == EncodeWords(FinalWords(mix, s)) {
      EncodeInjective(FinalWords(mix, r), FinalWords(mix, s));
      assert false;
    }
  }

  // ---- The method ----

  /** The first k rows of column i. */
  function ColumnOf(m: array2<word>, i: nat, k: nat): (c: seq<word>)
    requires k <= m.Length0 && i < m.Length1
    reads m
    ensures |c| == k
  {
    seq(k, r requires 0 <= r < k reads m => m[r, i])
  }

  method Combined(a: word, b: word, ghost mix: Combine) returns (w: word)
    requires IsFnv(mix)
    ensures w == mix(a, b)
  {
    w := Fnv(a, b);
  }

  /** The inner loop: row j takes row j + h into account. */
  method FoldRow(m: array2<word>, j: nat, h: nat, ghost mix: Combine)
    requires IsFnv(mix)
    requires j < h && j + h < m.Length0
    modifies m
    ensures forall i :: 0 <= i < m.Length1 ==> m[j, i] == mix(old(m[j, i]), old(m[j + h, i]))
    ensures forall r, i :: 0 <= r < m.Length0 && 0 <= i < m.Length1 && r != j ==> m[r, i] == old(m[r, i])
  {
    for i := 0 to m.Length1
      invariant forall q :: 0 <= q < i ==> m[j, q] == mix(old(m[j, q]), old(m[j + h, q]))
      invariant forall q :: i <= q < m.Length1 ==> m[j, q] == old(m[j, q])
      invariant forall r, q :: 0 <= r < m.Length0 && 0 <= q < m.Length1 && r != j ==> m[r, q] == old(m[r, q])
    {
      var w := Combined(m[j, i], m[j + h, i], mix);
      m[j, i] := w;
    }
  }

  /** One pass of the outer loop.  No row is read after it is overwritten. */
  method HalveColumns(m: array2<word>, k: nat, ghost mix: Combine)
    requires IsFnv(mix)
    requires 2 <= k <= m.Length0
    modifies m
    ensures forall i: nat :: i < m.Length1 ==> ColumnOf(m, i, k / 2) == Halved(mix, old(ColumnOf(m, i, k)))
  {
    for j := 0 to k / 2
      invariant forall r, i :: 0 <= r < j && 0 <= i < m.Length1 ==> m[r, i] == mix(old(m[r, i]), old(m[r + k / 2, i]))
      invariant forall r, i :: j <= r < m.Length0 && 0 <= i < m.Length1 ==> m[r, i] == old(m[r, i])
    {
      FoldRow(m, j, k / 2, mix);
    }
  }

  /** The halving loop leaves the tree of every column in row 0. */
  method FoldColumns(m: array2<word>, ghost mix: Combine)
    requires IsFnv(mix)
    requires PowerOfTwo(m.Length0)
    modifies m
    ensures forall i: nat :: i < m.Length1 ==> m[0, i] == Node(mix, old(ColumnOf(m, i, m.Length0)), 0, 1)
  {
    var k := m.Length0;
    while k > 1
      invariant 1 <= k <= m.Length0 && PowerOfTwo(k)
      invariant forall i: nat :: i < m.Length1 ==> Root(mix, ColumnOf(m, i, k)) == Root(mix, old(ColumnOf(m, i, m.Length0)))
    {
      HalveColumns(m, k, mix);
      k := k / 2;
    }
    forall i: nat | i < m.Length1
      ensures m[0, i] == Node(mix, old(ColumnOf(m, i, m.Length0)), 0, 1)
    {
      RootIsTree(mix, old(ColumnOf(m, i, m.Length0)));
      assert ColumnOf(m, i, 1)[0] == m[0, i];
    }
  }

  method PackColumns(result: seq<byte>) returns (m: array2<word>)
    requires |result| == AREA
    ensures fresh(m) && m.Length0 == SIDE && m.Length1 == QUARTER
    ensures forall i: nat :: i < QUARTER ==> ColumnOf(m, i, SIDE) == Column(result, i)
  {
    m := new word[SIDE, QUARTER];
    for i := 0 to SIDE
      invariant forall r, c :: 0 <= r < i && 0 <= c < QUARTER ==> m[r, c] == Packed(result, r, c)
    {
      for j := 0 to QUARTER
        invariant forall r, c :: 0 <= r < i && 0 <= c < QUARTER ==> m[r, c] == Packed(result, r, c)
        invariant forall c :: 0 <= c < j ==> m[i, c] == Packed(result, i, c)
      {
        m[i, j] := Packed(result, i, j);
      }
    }
  }

  method HashMatrix(keccak: Keccak, result: seq<byte>, ghost mix: Combine) returns (h: Hash)
    requires |result| == AREA && IsFnv(mix)
    ensures h == MatrixHash(keccak, mix, result)
  {
    var m := PackColumns(result);
    SidePower();
    label packed:
    FoldColumns(m, mix);
    forall i: nat | i < QUARTER
      ensures m[0, i] == FinalWords(mix, result)[i]
    {
      assert old@packed(ColumnOf(m, i, SIDE)) == Column(result, i);
      RootIsTree(mix, Column(result, i));
    }
    var words: seq<word> := [];
    for i := 0 to QUARTER
      invariant words == FinalWords(mix, result)[..i]
    {
      words := words + [m[0, i]];
    }
    assert words == FinalWords(mix, result);
    h := keccak(EncodeWords(words));
  }
}
