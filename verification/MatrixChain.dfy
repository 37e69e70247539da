/**
 `mulMatrix`: the cache is regrouped into 256 matrices of signed bytes, four chains of 64
 saturating products run from the identity, and the four results are added and saturated.
 */
module MatrixChain {
  import opened Arithmetic
  import opened Bytes
  import opened Words
  import opened FixedPoint
  import opened BlockedProduct
  import opened Saturating
  import ROMix

  // ---- Regrouping the cache ----

  const CACHE_WORDS: nat := 4194304
  const CACHE_ROWS: nat := 131072

  /** The cache row that row q of the regrouped data comes from: even rows first, then odd rows. */
  function Source(q: nat): nat {
    1024 * (q / 1024) + 2 * (q % 512) + (q % 1024) / 512
  }

  function SourceInverse(s: nat): nat {
    1024 * (s / 1024) + 512 * (s % 2) + (s % 1024) / 2
  }

  lemma SourceOfParts(i: nat, p: nat, j: nat)
    requires p < 2 && j < 512
    ensures Source(1024 * i + 512 * p + j) == 1024 * i + 2 * j + p
    ensures SourceInverse(1024 * i + 2 * j + p) == 1024 * i + 512 * p + j
  {
    var q, s := 1024 * i + 512 * p + j, 1024 * i + 2 * j + p;
    RemainderIs(q, 1024, i, 512 * p + j);
    RemainderIs(q, 512, 2 * i + p, j);
    RemainderIs(s, 1024, i, 2 * j + p);
    RemainderIs(s, 2, 512 * i + j, p);
  }

  /** The regrouping is a permutation of the rows of the cache. */
  lemma SourceBijective(q: nat)
    requires q < CACHE_ROWS
    ensures Source(q) < CACHE_ROWS && SourceInverse(Source(q)) == q
    ensures SourceInverse(q) < CACHE_ROWS && Source(SourceInverse(q)) == q
  {
    SourceParts(q, q / 1024, (q % 1024) / 512, q % 512);
    InverseParts(q, q / 1024, q % 2, (q % 1024) / 2);
  }

  lemma SourceParts(q: nat, i: nat, p: nat, j: nat)
    requires i == q / 1024 && p == (q % 1024) / 512 && j == q % 512 && q < CACHE_ROWS
    ensures Source(q) < CACHE_ROWS && SourceInverse(Source(q)) == q
  {
    assert q == 1024 * i + 512 * p + j && i < 128 && p < 2;
    SourceOfParts(i, p, j);
  }

  lemma InverseParts(q: nat, i: nat, p: nat, j: nat)
    requires i == q / 1024 && p == q % 2 && j == (q % 1024) / 2 && q < CACHE_ROWS
    ensures SourceInverse(q) < CACHE_ROWS && Source(SourceInverse(q)) == q
  {
    assert q == 1024 * i + 2 * j + p && i < 128;
    SourceOfParts(i, p, j);
  }

  /** Go's `copy` of one row of 32 words. */
  method CopyRow(data: array<word>, to: nat, cache: seq<word>, from: nat)
    requires data.Length == CACHE_WORDS && |cache| == CACHE_WORDS && to < CACHE_ROWS && from < CACHE_ROWS
    modifies data
    ensures ROMix.RowAt(data[..], to) == ROMix.RowAt(cache, from)
    ensures forall q: nat :: q < CACHE_ROWS && q != to ==> ROMix.RowAt(data[..], q) == ROMix.RowAt(old(data[..]), q)
  {
    forall k | 0 <= k < 32 { data[32 * to + k] := cache[32 * from + k]; }
  }

  ghost predicate RowsFrom(data: seq<word>, cache: seq<word>, lo: nat, hi: nat)
    requires |data| == CACHE_WORDS && |cache| == CACHE_WORDS && hi <= CACHE_ROWS
  {
    forall q: nat :: lo <= q < hi && Source(q) < CACHE_ROWS ==> ROMix.RowAt(data, q) == ROMix.RowAt(cache, Source(q))
  }

  method Deinterleave(cache: seq<word>) returns (data: array<word>)
    requires |cache| == CACHE_WORDS
    ensures fresh(data) && data.Length == CACHE_WORDS
    ensures forall q: nat :: q < CACHE_ROWS && Source(q) < CACHE_ROWS ==> ROMix.RowAt(data[..], q) == ROMix.RowAt(cache, Source(q))
  {
    data := new word[CACHE_WORDS];
    for i := 0 to 128
      invariant RowsFrom(data[..], cache, 0, 1024 * i)
    {
      DeinterleaveChunk(data, cache, i);
    }
  }

  /** The body of the inner loop: one even row and one odd row. */
  method CopyPair(data: array<word>, cache: seq<word>, i: nat, j: nat)
    requires data.Length == CACHE_WORDS && |cache| == CACHE_WORDS && i < 128 && j < 512
    modifies data
    ensures RowsFrom(data[..], cache, 1024 * i + j, 1024 * i + j + 1)
    ensures RowsFrom(data[..], cache, 1024 * i + 512 + j, 1024 * i + 512 + j + 1)
    ensures forall q: nat :: q < CACHE_ROWS && q != 1024 * i + j && q != 1024 * i + 512 + j ==>
      ROMix.RowAt(data[..], q) == ROMix.RowAt(old(data[..]), q)
  {
    SourceOfParts(i, 0, j);
    CopyRow(data, 1024 * i + j, cache, 1024 * i + 2 * j);
    SourceOfParts(i, 1, j);
    CopyRow(data, 1024 * i + 512 + j, cache, 1024 * i + 2 * j + 1);
  }

  method DeinterleaveChunk(data: array<word>, cache: seq<word>, i: nat)
    requires data.Length == CACHE_WORDS && |cache| == CACHE_WORDS && i < 128
    requires RowsFrom(data[..], cache, 0, 1024 * i)
    modifies data
    ensures RowsFrom(data[..], cache, 0, 1024 * (i + 1))
  {
    for j := 0 to 512
      invariant RowsFrom(data[..], cache, 0, 1024 * i + j)
      invariant RowsFrom(data[..], cache, 1024 * i + 512, 1024 * i + 512 + j)
    {
      CopyPair(data, cache, i, j);
    }
  }

  // ---- From words to scaled signed bytes ----

  /** int8(b): the one number in range that is congruent to the byte modulo 256. */
  function Signed(b: byte): (v: int)
    ensures -128 <= v <= 127
    ensures (v - ValueOf(b)) % 256 == 0
  {
    var u := ValueOf(b);
    if u < 128 then u else u - 256
  }

  method WordBytes(data: array<word>) returns (b: array<byte>)
    ensures fresh(b) && b[..] == EncodeWords(old(data[..]))
  {
    ghost var words := data[..];
    b := new byte[4 * data.Length];
    for i := 0 to data.Length
      invariant data[..] == words
      invariant forall p :: 0 <= p < 4 * i ==> b[p] == EncodeWords(words)[p]
    {
      forall k | 0 <= k < 4 { b[4 * i + k] := ByteOf(data[i], k); }
    }
  }

  method FixedData(b: array<byte>) returns (f: array<int>)
    ensures fresh(f) && f.Length == b.Length
    ensures forall p :: 0 <= p < f.Length ==> f[p] == Signed(old(b[p])) * FACTOR
  {
    f := new int[b.Length];
    for i := 0 to b.Length
      invariant forall p :: 0 <= p < i ==> f[p] == Signed(b[p]) * FACTOR
    {
      ToFixedOfInt(Signed(b[i]));
      f[i] := ToFixed(Signed(b[i]) as real);
    }
  }

  function SignedAll(b: seq<byte>): (v: seq<int>)
    ensures |v| == |b|
  {
    seq(|b|, p requires 0 <= p < |b| => Signed(b[p]))
  }

  lemma MatrixFits(bytes: seq<byte>, n: nat, index: nat)
    requires |bytes| == 256 * (n * n) && index < 256
    ensures 0 <= index * (n * n) <= index * (n * n) + n * n <= |bytes|
  {
    ItemFits(index, 256, n * n);
  }

  /** Matrix `index` of the regrouped cache. */
  function MatrixOf(bytes: seq<byte>, n: nat, index: nat): (m: Matrix)
    requires |bytes| == 256 * (n * n) && index < 256
    ensures Square(m, n)
  {
    MatrixFits(bytes, n, index);
    View(SignedAll(bytes[index * (n * n)..index * (n * n) + n * n]), n)
  }

  lemma ViewInt8(v: seq<int>, n: nat)
    requires |v| == n * n
    requires forall p :: 0 <= p < |v| ==> -128 <= v[p] <= 127
    ensures Int8(View(v, n), n)
  {
    forall i, j | 0 <= i < n && 0 <= j < n
      ensures -128 <= View(v, n)[i][j] <= 127
    {
      RowFits(i, n);
      assert View(v, n)[i][j] == v[i * n + j];
    }
  }

  lemma ViewScaled(v: seq<int>, f: seq<int>, n: nat)
    requires |v| == |f| == n * n
    requires forall p :: 0 <= p < |v| ==> f[p] == v[p] * FACTOR
    ensures View(f, n) == Scaled(View(v, n), n)
  {
    forall i: nat | i < n
      ensures View(f, n)[i] == Scaled(View(v, n), n)[i]
    {
      RowFits(i, n);
      forall j: nat | j < n
        ensures View(f, n)[i][j] == View(v, n)[i][j] * FACTOR
      {
        assert View(f, n)[i][j] == f[i * n + j] && View(v, n)[i][j] == v[i * n + j];
      }
    }
  }

  // ---- One chain ----

  ghost function Identity(n: nat): (m: Matrix)
    ensures Int8(m, n)
  {
    seq(n, i requires 0 <= i < n => seq(n, j requires 0 <= j < n => if i == j then 1 else 0))
  }

  lemma {:induction false} IdentityDot(b: Matrix, n: nat, i: nat, j: nat, k: nat)
    requires Int8(b, n) && i < n && j < n && k <= n
    ensures Dot(Identity(n), b, n, i, j, k) == if i < k then b[i][j] else 0
    decreases k
  {
    if k > 0 {
      IdentityDot(b, n, i, j, k - 1);
      assert Identity(n)[i][k - 1] == if i == k - 1 then 1 else 0;
    }
  }

  /** The identity is neutral: the first product of a chain is its first matrix. */
  lemma IdentityIsNeutral(b: Matrix, n: nat)
    requires Int8(b, n)
    ensures Saturated(Identity(n), b, n) == b
  {
    forall i: nat | i < n
      ensures Saturated(Identity(n), b, n)[i] == b[i]
    {
      forall j: nat | j < n
        ensures Saturated(Identity(n), b, n)[i][j] == b[i][j]
      {
        IdentityDot(b, n, i, j, n);
      }
    }
  }

  /** After t products: M := clamp(M * B), the matrices taken in the order of `sequence`, cyclically. */
  ghost function ChainState(bytes: seq<byte>, n: nat, sequence: Hash, t: nat): (m: Matrix)
    requires |bytes| == 256 * (n * n)
    ensures Int8(m, n)
  {
    if t == 0 then Identity(n)
    else Saturated(ChainState(bytes, n, sequence, t - 1), MatrixOf(bytes, n, ValueOf(sequence[(t - 1) % 32])), n)
  }

  /** The saturating products with the matrices of a list, from the left. */
  ghost function Folded(m: Matrix, bytes: seq<byte>, n: nat, list: seq<byte>): Matrix
    requires |bytes| == 256 * (n * n) && Int8(m, n)
    decreases |list|
  {
    if |list| == 0 then m else Folded(Saturated(m, MatrixOf(bytes, n, ValueOf(list[0])), n), bytes, n, list[1..])
  }

  lemma {:induction false} FoldedSnoc(m: Matrix, bytes: seq<byte>, n: nat, list: seq<byte>, b: byte)
    requires |bytes| == 256 * (n * n) && Int8(m, n)
    ensures Int8(Folded(m, bytes, n, list), n)
    ensures Folded(m, bytes, n, list + [b]) == Saturated(Folded(m, bytes, n, list), MatrixOf(bytes, n, ValueOf(b)), n)
    decreases |list|
  {
    if |list| == 0 {
      assert ([b])[1..] == [];
    } else {
      FoldedSnoc(Saturated(m, MatrixOf(bytes, n, ValueOf(list[0])), n), bytes, n, list[1..], b);
      assert (list + [b])[1..] == list[1..] + [b];
    }
  }

  /** A chain folds the sequence, read twice, from the left, starting from the identity. */
  lemma {:induction false} ChainIsFold(bytes: seq<byte>, n: nat, sequence: Hash, t: nat, twice: seq<byte>)
    requires |bytes| == 256 * (n * n) && twice == sequence + sequence && t <= |twice|
    ensures ChainState(bytes, n, sequence, t) == Folded(Identity(n), bytes, n, twice[..t])
  {
    if t > 0 {
      ChainIsFold(bytes, n, sequence, t - 1, twice);
      assert twice[t - 1] == sequence[(t - 1) % 32];
      assert twice[..t] == twice[..t - 1] + [twice[t - 1]];
      FoldedSnoc(Identity(n), bytes, n, twice[..t - 1], twice[t - 1]);
    }
  }

  method FillIdentity(m: array<int>, n: nat)
    requires m.Length == n * n
    modifies m
    ensures View(m[..], n) == Scaled(Identity(n), n)
  {
    for p := 0 to n * n
      invariant forall q :: 0 <= q < p ==> m[q] == 0
    {
      m[p] := 0;
    }
    ghost var zeros := m[..];
    for i := 0 to n
      invariant forall r: nat :: r < i ==> View(m[..], n)[r] == Scaled(Identity(n), n)[r]
      invariant forall r: nat :: i <= r < n ==> View(m[..], n)[r] == Row(zeros, n, r)
    {
      RowFits(i, n);
      ghost var before := m[..];
      m[i * n + i] := FACTOR;
      forall r: nat | r < n && r != i
        ensures View(m[..], n)[r] == View(before, n)[r]
      {
        OtherRowsKept(before, m[..], n, i, i * n + i, i * n + i + 1, r);
      }
      assert View(m[..], n)[i] == Row(zeros, n, i)[i := FACTOR];
    }
  }

  /** Back to signed bytes and up again, in place. */
  method Rescale(m: array<int>, n: nat)
    requires m.Length == n * n
    modifies m
    ensures forall p :: 0 <= p < m.Length ==> m[p] == FromFixed(old(m[p])) * FACTOR
  {
    for p := 0 to n * n
      invariant forall q :: 0 <= q < p ==> m[q] == FromFixed(old(m[q])) * FACTOR
      invariant forall q :: p <= q < m.Length ==> m[q] == old(m[q])
    {
      m[p] := ToFixedShift(FromFixed(m[p]));
    }
  }

  /** One product of the chain, into `to`. */
  method ChainProduct(to: array<int>, from: array<int>, b: array<int>, n: nat, ghost ar: Arith,
                      ghost ma: Matrix, ghost mb: Matrix)
    requires IsArith64(ar) && n <= MAX_SIDE
    requires to != from && to != b && to.Length == from.Length == b.Length == n * n
    requires Int8(ma, n) && Int8(mb, n)
    requires View(from[..], n) == Scaled(ma, n) && View(b[..], n) == Scaled(mb, n)
    modifies to
    ensures View(to[..], n) == Scaled(Saturated(ma, mb, n), n)
  {
    MulMatrixBlocked(to, from, b, n, ar);
    ghost var product := to[..];
    Rescale(to, n);
    forall i: nat | i < n
      ensures View(to[..], n)[i] == Scaled(Saturated(ma, mb, n), n)[i]
    {
      RowFits(i, n);
      forall j: nat | j < n
        ensures View(to[..], n)[i][j] == Saturated(ma, mb, n)[i][j] * FACTOR
      {
        RescaledProduct(ar, ma, mb, n, i, j);
        assert View(to[..], n)[i][j] == to[i * n + j];
        assert View(product, n)[i][j] == product[i * n + j];
      }
    }
  }

  /** `data` is the signed bytes, scaled. */
  ghost predicate Loaded(data: seq<int>, bytes: seq<byte>, n: nat) {
    && |bytes| == |data| == 256 * (n * n)
    && forall p :: 0 <= p < |data| ==> data[p] == Signed(bytes[p]) * FACTOR
  }

  /** The slice of the scaled data that holds matrix `index`. */
  method SliceMatrix(data: array<int>, bytes: seq<byte>, n: nat, index: nat) returns (mb: array<int>)
    requires Loaded(data[..], bytes, n) && index < 256
    ensures fresh(mb) && mb.Length == n * n
    ensures Int8(MatrixOf(bytes, n, index), n)
    ensures View(mb[..], n) == Scaled(MatrixOf(bytes, n, index), n)
  {
    MatrixFits(bytes, n, index);
    var at := index * (n * n);
    mb := new int[n * n];
    ghost var loaded := data[..];
    forall p | 0 <= p < n * n { mb[p] := data[at + p]; }
    assert forall p :: 0 <= p < n * n ==> mb[p] == loaded[at + p];
    ghost var v := SignedAll(bytes[at..at + n * n]);
    ViewInt8(v, n);
    ViewScaled(v, mb[..], n);
  }

  /** `state` is the sequence of chain states, kept folded. */
  ghost predicate Follows(state: nat -> Matrix, bytes: seq<byte>, n: nat, sequence: Hash)
    requires |bytes| == 256 * (n * n)
  {
    && (forall t: nat :: Square(state(t), n))
    && (forall t: nat {:trigger ChainState(bytes, n, sequence, t)} :: state(t) == ChainState(bytes, n, sequence, t))
  }

  /** The body of the inner loop: one product with matrix `index`. */
  method ChainStep(to: array<int>, from: array<int>, data: array<int>, bytes: seq<byte>, n: nat, index: nat,
                   ghost sequence: Hash, ghost t: nat, ghost state: nat -> Matrix, ghost ar: Arith)
    requires IsArith64(ar) && n <= MAX_SIDE && index == ValueOf(sequence[t % 32])
    requires to != from && to != data && to.Length == from.Length == n * n
    requires Loaded(data[..], bytes, n) && Follows(state, bytes, n, sequence)
    requires View(from[..], n) == Scaled(state(t), n)
    modifies to
    ensures View(to[..], n) == Scaled(state(t + 1), n)
  {
    ghost var view := from[..];
    var mb := SliceMatrix(data, bytes, n, index);
    assert from[..] == view;
    assert state(t) == ChainState(bytes, n, sequence, t);
    ChainProduct(to, from, mb, n, ar, ChainState(bytes, n, sequence, t), MatrixOf(bytes, n, index));
    assert state(t + 1) == ChainState(bytes, n, sequence, t + 1);
  }

  lemma Cyclic(pass: nat, k: nat)
    requires k < 32
    ensures (32 * pass + k) % 32 == k
  {
  }

  /** The inner loop: once through the 32 bytes of the sequence. */
  method ChainPass(a0: array<int>, b0: array<int>, data: array<int>, bytes: seq<byte>, n: nat, sequence: Hash,
                   ghost t: nat, ghost pass: nat, ghost state: nat -> Matrix, ghost ar: Arith)
    returns (a: array<int>, b: array<int>)
    requires IsArith64(ar) && n <= MAX_SIDE && t == 32 * pass
    requires a0 != b0 && a0 != data && b0 != data && a0.Length == b0.Length == n * n
    requires Loaded(data[..], bytes, n) && Follows(state, bytes, n, sequence)
    requires View(a0[..], n) == Scaled(state(t), n)
    modifies a0, b0
    ensures (a == a0 && b == b0) || (a == b0 && b == a0)
    ensures View(a[..], n) == Scaled(state(t + 32), n)
  {
    a, b := a0, b0;
    ghost var loaded := data[..];
    for k := 0 to 32
      invariant data[..] == loaded
      invariant (a == a0 && b == b0) || (a == b0 && b == a0)
      invariant View(a[..], n) == Scaled(state(t + k), n)
    {
      Cyclic(pass, k);
      ChainStep(b, a, data, bytes, n, ValueOf(sequence[k]), sequence, t + k, state, ar);
      a, b := b, a;
    }
  }

  /** The outer loop: `passes` times through the sequence. */
  method ChainPasses(a0: array<int>, b0: array<int>, data: array<int>, bytes: seq<byte>, n: nat, sequence: Hash,
                     passes: nat, ghost state: nat -> Matrix, ghost ar: Arith)
    returns (a: array<int>, b: array<int>)
    requires IsArith64(ar) && n <= MAX_SIDE
    requires a0 != b0 && a0 != data && b0 != data && a0.Length == b0.Length == n * n
    requires Loaded(data[..], bytes, n) && Follows(state, bytes, n, sequence)
    requires View(a0[..], n) == Scaled(state(0), n)
    modifies a0, b0
    ensures (a == a0 && b == b0) || (a == b0 && b == a0)
    ensures View(a[..], n) == Scaled(state(32 * passes), n)
  {
    a, b := a0, b0;
    ghost var loaded := data[..];
    var j := 0;
    while j < passes
      invariant 0 <= j <= passes
      invariant data[..] == loaded
      invariant (a == a0 && b == b0) || (a == b0 && b == a0)
      invariant View(a[..], n) == Scaled(state(32 * j), n)
    {
      ghost var t := 32 * j;
      a, b := ChainPass(a, b, data, bytes, n, sequence, t, j, state, ar);
      assert data[..] == loaded;
      j := j + 1;
      assert t + 32 == 32 * j;
    }
  }

  function Quarter(headerHash: Hash, c: nat): (q: seq<byte>)
    requires c < 4
    ensures |q| == 8
  {
    headerHash[8 * c..8 * c + 8]
  }

  /** The four chains share the header hash out among them, in order. */
  lemma QuartersTile(headerHash: Hash)
    ensures Quarter(headerHash, 0) + Quarter(headerHash, 1) + Quarter(headerHash, 2) + Quarter(headerHash, 3) == headerHash
  {
  }

  method Chain(keccak: Keccak, headerHash: Hash, c: nat, data: array<int>, bytes: seq<byte>, n: nat, ghost ar: Arith)
    returns (m: array<int>)
    requires IsArith64(ar) && n <= MAX_SIDE && c < 4
    requires Loaded(data[..], bytes, n)
    ensures fresh(m) && m.Length == n * n
    ensures View(m[..], n) == Scaled(ChainResult(keccak, headerHash, bytes, n, c), n)
  {
    var a := new int[n * n];
    var b := new int[n * n];
    FillIdentity(a, n);
    var sequence := keccak(Quarter(headerHash, c));
    ghost var state := (t: nat) => ChainState(bytes, n, sequence, t);
    var passes := 2;
    a, b := ChainPasses(a, b, data, bytes, n, sequence, passes, state, ar);
    assert 32 * passes == 2 * |sequence|;
    m := a;
  }

  // ---- mulMatrix ----

  /** Chain c runs twice through the 32 bytes of the hash of its quarter of the header hash. */
  ghost function ChainResult(keccak: Keccak, headerHash: Hash, bytes: seq<byte>, n: nat, c: nat): (m: Matrix)
    requires |bytes| == 256 * (n * n) && c < 4
    ensures Int8(m, n)
  {
    var sequence := keccak(Quarter(headerHash, c));
    ChainState(bytes, n, sequence, 2 * |sequence|)
  }

  /** Chain c folds the hash of its quarter of the header hash, read twice, from the identity. */
  lemma ChainResultIsFold(keccak: Keccak, headerHash: Hash, bytes: seq<byte>, n: nat, c: nat, sequence: Hash)
    requires |bytes| == 256 * (n * n) && c < 4 && sequence == keccak(headerHash[8 * c..8 * c + 8])
    ensures ChainResult(keccak, headerHash, bytes, n, c) == Folded(Identity(n), bytes, n, sequence + sequence)
  {
    var twice := sequence + sequence;
    ChainIsFold(bytes, n, sequence, |twice|, twice);
    assert twice[..|twice|] == twice;
  }

  /** uint8(v) for an int8 v. */
  function ToByte(v: int): (b: byte)
    requires -128 <= v <= 127
    ensures (ValueOf(b) - v) % 256 == 0
  {
    var u := if v < 0 then v + 256 else v;
    ByteValue(u);
    u as byte
  }

  /** The cast back is undone by the cast to a signed byte. */
  lemma ToByteRoundTrip(v: int)
    requires -128 <= v <= 127
    ensures Signed(ToByte(v)) == v
  {
    SameSigned(Signed(ToByte(v)), ValueOf(ToByte(v)), v);
  }

  lemma SameSigned(x: int, u: int, y: int)
    requires -128 <= x <= 127 && -128 <= y <= 127 && (x - u) % 256 == 0 && (u - y) % 256 == 0
    ensures x == y
  {
    var p, q := (x - u) / 256, (u - y) / 256;
    assert x - y == 256 * (p + q);
  }

  ghost predicate AllInt8(ms: seq<Matrix>, n: nat) {
    forall k :: 0 <= k < |ms| ==> Int8(ms[k], n)
  }

  /** Entry (i, j) of all the matrices, added. */
  ghost function EntrySum(ms: seq<Matrix>, n: nat, i: nat, j: nat): int
    requires AllInt8(ms, n) && i < n && j < n
  {
    if |ms| == 0 then 0 else EntrySum(ms[..|ms| - 1], n, i, j) + ms[|ms| - 1][i][j]
  }

  lemma {:induction false} EntrySumBound(ms: seq<Matrix>, n: nat, i: nat, j: nat)
    requires AllInt8(ms, n) && i < n && j < n
    ensures -128 * |ms| <= EntrySum(ms, n, i, j) <= 127 * |ms|
  {
    if |ms| > 0 {
      EntrySumBound(ms[..|ms| - 1], n, i, j);
    }
  }

  lemma EntryAt(s: seq<int>, n: nat, i: nat, j: nat)
    requires |s| == n * n && i < n && j < n
    ensures i * n + j < n * n && View(s, n)[i][j] == s[i * n + j]
  {
    RowFits(i, n);
  }

  /** Row i of the result: the chains added and saturated. */
  ghost function ResultRow(ms: seq<Matrix>, n: nat, i: nat): (r: seq<byte>)
    requires AllInt8(ms, n) && i < n
    ensures |r| == n
  {
    seq(n, j requires 0 <= j < n => ToByte(Clamp(EntrySum(ms, n, i, j))))
  }

  /** The first k rows of the result. */
  ghost function ResultRows(ms: seq<Matrix>, n: nat, k: nat): (r: seq<byte>)
    requires AllInt8(ms, n) && k <= n
    ensures |r| == k * n
    decreases k
  {
    if k == 0 then [] else ResultRows(ms, n, k - 1) + ResultRow(ms, n, k - 1)
  }

  lemma {:induction false} ResultRowsAt(ms: seq<Matrix>, n: nat, k: nat, i: nat, j: nat, at: nat)
    requires AllInt8(ms, n) && i < k <= n && j < n && at == i * n + j
    ensures at < k * n && ResultRows(ms, n, k)[at] == ResultRow(ms, n, i)[j]
    decreases k
  {
    ItemFits(i, k, n);
    var front := ResultRows(ms, n, k - 1);
    if i < k - 1 {
      ResultRowsAt(ms, n, k - 1, i, j, at);
    } else {
      assert at == |front| + j;
    }
  }

  /**
   Byte (i, j) of the result is, modulo 256, the sum of entry (i, j) of the four chains, saturated to
   a signed byte.
   */
  lemma ResultEntry(ms: seq<Matrix>, n: nat, i: nat, j: nat, at: nat)
    requires AllInt8(ms, n) && |ms| == 4 && i < n && j < n && at == i * n + j
    ensures at < n * n && (ValueOf(ResultRows(ms, n, n)[at])
                           - Clamp(ms[0][i][j] + ms[1][i][j] + ms[2][i][j] + ms[3][i][j])) % 256 == 0
  {
    ResultRowsAt(ms, n, n, i, j, at);
    FourSum(ms, n, i, j);
  }

  lemma FourSum(ms: seq<Matrix>, n: nat, i: nat, j: nat)
    requires AllInt8(ms, n) && |ms| == 4 && i < n && j < n
    ensures EntrySum(ms, n, i, j) == ms[0][i][j] + ms[1][i][j] + ms[2][i][j] + ms[3][i][j]
  {
    assert ms[..3][..2] == ms[..2] && ms[..2][..1] == ms[..1] && ms[..1][..0] == [];
    assert EntrySum(ms[..1], n, i, j) == EntrySum([], n, i, j) + ms[0][i][j];
    assert EntrySum(ms[..2], n, i, j) == EntrySum(ms[..1], n, i, j) + ms[1][i][j];
    assert EntrySum(ms[..3], n, i, j) == EntrySum(ms[..2], n, i, j) + ms[2][i][j];
  }

  /** tmp += one chain result. */
  method AddChain(tmp: array<int>, m: array<int>)
    requires tmp != m && tmp.Length == m.Length
    modifies tmp
    ensures forall p :: 0 <= p < tmp.Length ==> tmp[p] == Add64(old(tmp[p]), old(m[p]))
  {
    for p := 0 to tmp.Length
      invariant forall q :: 0 <= q < p ==> tmp[q] == Add64(old(tmp[q]), m[q])
      invariant forall q :: p <= q < tmp.Length ==> tmp[q] == old(tmp[q])
    {
      tmp[p] := Add64(tmp[p], m[p]);
    }
  }

  /** `tmp` is the sum of the matrices, scaled. */
  ghost predicate Summed(ms: seq<Matrix>, n: nat, tmp: seq<int>)
    requires AllInt8(ms, n)
  {
    |tmp| == n * n
    && forall i: nat, j: nat :: i < n && j < n ==> View(tmp, n)[i][j] == EntrySum(ms, n, i, j) * FACTOR
  }

  lemma SummedStep(ms: seq<Matrix>, last: Matrix, n: nat, tmp: seq<int>, m: seq<int>, t: seq<int>)
    requires AllInt8(ms, n) && Int8(last, n) && |ms| < 4 && |m| == |t| == n * n
    requires Summed(ms, n, tmp)
    requires View(m, n) == Scaled(last, n)
    requires forall p :: 0 <= p < |t| ==> t[p] == Add64(tmp[p], m[p])
    ensures AllInt8(ms + [last], n) && Summed(ms + [last], n, t)
  {
    forall i: nat, j: nat | i < n && j < n
      ensures View(t, n)[i][j] == EntrySum(ms + [last], n, i, j) * FACTOR
    {
      EntryAt(t, n, i, j);
      EntryAt(m, n, i, j);
      EntryAt(tmp, n, i, j);
      EntrySumBound(ms, n, i, j);
      assert (ms + [last])[..|ms|] == ms;
      SumFits(EntrySum(ms, n, i, j), last[i][j]);
    }
  }

  /** The results of the four chains. */
  ghost function ChainResults(keccak: Keccak, headerHash: Hash, bytes: seq<byte>, n: nat): (ms: seq<Matrix>)
    requires |bytes| == 256 * (n * n)
    ensures |ms| == 4 && AllInt8(ms, n)
  {
    seq(4, c requires 0 <= c < 4 => ChainResult(keccak, headerHash, bytes, n, c))
  }

  method ZeroMatrix(n: nat) returns (tmp: array<int>)
    ensures fresh(tmp) && tmp.Length == n * n && Summed([], n, tmp[..])
  {
    tmp := new int[n * n];
    forall p | 0 <= p < n * n { tmp[p] := 0; }
    forall i: nat, j: nat | i < n && j < n
      ensures View(tmp[..], n)[i][j] == 0
    {
      EntryAt(tmp[..], n, i, j);
    }
  }

  /** The four chains one after the other; in the source each runs in a goroutine on its own matrices. */
  method SumChains(keccak: Keccak, headerHash: Hash, data: array<int>, bytes: seq<byte>, n: nat, ghost ar: Arith)
    returns (tmp: array<int>)
    requires IsArith64(ar) && n <= MAX_SIDE
    requires Loaded(data[..], bytes, n)
    ensures Summed(ChainResults(keccak, headerHash, bytes, n), n, tmp[..])
  {
    tmp := ZeroMatrix(n);
    ghost var ms := ChainResults(keccak, headerHash, bytes, n);
    ghost var loaded := data[..];
    for k := 0 to 4
      invariant data[..] == loaded
      invariant fresh(tmp) && AllInt8(ms[..k], n) && Summed(ms[..k], n, tmp[..])
    {
      ghost var before := tmp[..];
      var m := Chain(keccak, headerHash, k, data, bytes, n, ar);
      assert tmp[..] == before;
      ghost var added := m[..];
      AddChain(tmp, m);
      SummedStep(ms[..k], ms[k], n, before, added, tmp[..]);
      assert ms[..k] + [ms[k]] == ms[..k + 1];
    }
    assert ms[..4] == ms;
  }

  /** Rounding and saturating the sum. */
  method Finish(ghost ms: seq<Matrix>, n: nat, tmp: array<int>) returns (result: seq<byte>)
    requires AllInt8(ms, n) && |ms| == 4 && Summed(ms, n, tmp[..])
    ensures result == ResultRows(ms, n, n)
  {
    result := [];
    for i := 0 to n
      invariant result == ResultRows(ms, n, i)
    {
      var row := FinishRow(ms, n, tmp, i);
      result := result + row;
    }
  }

  method FinishRow(ghost ms: seq<Matrix>, n: nat, tmp: array<int>, i: nat) returns (row: seq<byte>)
    requires AllInt8(ms, n) && |ms| == 4 && Summed(ms, n, tmp[..]) && i < n
    ensures row == ResultRow(ms, n, i)
  {
    row := [];
    RowFits(i, n);
    var at := i * n;
    for j := 0 to n
      invariant row == ResultRow(ms, n, i)[..j]
    {
      EntryAt(tmp[..], n, i, j);
      EntrySumBound(ms, n, i, j);
      FromFixedOfWhole(EntrySum(ms, n, i, j));
      row := row + [ToByte(FromFixed(tmp[at + j]))];
    }
  }

  /** The regrouped cache as bytes. */
  ghost function Regrouped(cache: seq<word>): (bytes: seq<byte>)
    requires |cache| == CACHE_WORDS
    ensures |bytes| == 4 * CACHE_WORDS
  {
    EncodeWords(RegroupedWords(cache))
  }

  ghost function RegroupedWords(cache: seq<word>): (words: seq<word>)
    requires |cache| == CACHE_WORDS
    ensures |words| == CACHE_WORDS
  {
    seq(CACHE_WORDS, w requires 0 <= w < CACHE_WORDS =>
      SourceBijective(w / 32);
      cache[32 * Source(w / 32) + w % 32])
  }

  lemma WordOfRow(s: seq<word>, q: nat, k: nat)
    requires |s| == CACHE_WORDS && q < CACHE_ROWS && k < 32
    ensures ROMix.RowAt(s, q)[k] == s[32 * q + k]
  {
  }

  lemma RegroupedByRows(cache: seq<word>, data: seq<word>)
    requires |cache| == |data| == CACHE_WORDS
    requires forall q: nat :: q < CACHE_ROWS && Source(q) < CACHE_ROWS ==> ROMix.RowAt(data, q) == ROMix.RowAt(cache, Source(q))
    ensures data == RegroupedWords(cache)
  {
    forall w: nat | w < CACHE_WORDS
      ensures data[w] == RegroupedWords(cache)[w]
    {
      SourceBijective(w / 32);
      WordOfRow(data, w / 32, w % 32);
      WordOfRow(cache, Source(w / 32), w % 32);
    }
  }

  /** Row j of part p of chunk i comes from row 2j + p of the chunk. */
  lemma RegroupedRow(cache: seq<word>, i: nat, p: nat, j: nat)
    requires |cache| == CACHE_WORDS && i < 128 && p < 2 && j < 512
    ensures ROMix.RowAt(RegroupedWords(cache), 1024 * i + 512 * p + j) == ROMix.RowAt(cache, 1024 * i + 2 * j + p)
  {
    var q := 1024 * i + 512 * p + j;
    SourceOfParts(i, p, j);
    RowOfRegrouped(cache, q, 1024 * i + 2 * j + p);
  }

  /** Word group j of matrix 2i + p. */
  ghost function Group(cache: seq<word>, i: nat, p: nat, j: nat): ROMix.Row
    requires |cache| == CACHE_WORDS && i < 128 && p < 2 && j < 512
  {
    ROMix.RowAt(RegroupedWords(cache), 512 * (2 * i + p) + j)
  }

  lemma GroupIs(cache: seq<word>, i: nat, p: nat, j: nat, k: nat, row: ROMix.Row)
    requires |cache| == CACHE_WORDS && i < 128 && p < 2 && j < 512 && k == 2 * j + p
    requires ROMix.RowAt(cache, 1024 * i + k) == row
    ensures Group(cache, i, p, j) == row
  {
    RegroupedRow(cache, i, p, j);
  }

  /** Entry (r, c) of a matrix is the byte at its place, as a signed number. */
  lemma EntryOfMatrix(bytes: seq<byte>, n: nat, index: nat, r: nat, c: nat, at: nat)
    requires |bytes| == 256 * (n * n) && index < 256 && r < n && c < n && at == index * (n * n) + r * n + c
    ensures at < |bytes| && MatrixOf(bytes, n, index)[r][c] == Signed(bytes[at])
  {
    MatrixFits(bytes, n, index);
    RowFits(r, n);
    var v := SignedAll(bytes[index * (n * n)..index * (n * n) + n * n]);
    assert View(v, n)[r] == Row(v, n, r);
    assert Row(v, n, r)[c] == v[r * n + c];
  }

  /** Byte k of word w of group j is a byte of matrix 2i + p. */
  lemma ByteOfGroup(cache: seq<word>, i: nat, p: nat, j: nat, w: nat, k: nat, at: nat)
    requires |cache| == CACHE_WORDS && i < 128 && p < 2 && j < 512 && w < 32 && k < 4
    requires at == 65536 * (2 * i + p) + 128 * j + 4 * w + k
    ensures at < |Regrouped(cache)| && Regrouped(cache)[at] == ByteOf(Group(cache, i, p, j)[w], k)
  {
    var words := RegroupedWords(cache);
    var q := 512 * (2 * i + p) + j;
    EncodeAt(words, 32 * q + w, k);
    assert Group(cache, i, p, j)[w] == words[32 * q + w];
  }

  /** The number in signed-byte range that is congruent to the byte modulo 256. */
  predicate IsSignedByte(e: int, b: byte) {
    -128 <= e <= 127 && (e - ValueOf(b)) % 256 == 0
  }

  /** Each group is half a row of the matrix that is multiplied. */
  lemma EntryOfGroup(cache: seq<word>, n: nat, i: nat, p: nat, r: nat, half: nat, w: nat, k: nat, j: nat)
    requires |cache| == CACHE_WORDS && n == 256 && i < 128 && p < 2 && r < 256 && half < 2 && w < 32 && k < 4
    requires j == 2 * r + half
    ensures MatrixOf(Regrouped(cache), n, 2 * i + p)[r][128 * half + 4 * w + k]
         == Signed(ByteOf(Group(cache, i, p, j)[w], k))
    ensures IsSignedByte(MatrixOf(Regrouped(cache), n, 2 * i + p)[r][128 * half + 4 * w + k], ByteOf(Group(cache, i, p, j)[w], k))
  {
    var at := 65536 * (2 * i + p) + 128 * j + 4 * w + k;
    ByteOfGroup(cache, i, p, j, w, k, at);
    EntryOfMatrix(Regrouped(cache), n, 2 * i + p, r, 128 * half + 4 * w + k, at);
  }

  lemma EntryFromRow(cache: seq<word>, n: nat, i: nat, p: nat, r: nat, half: nat, w: nat, k: nat, j: nat, row: ROMix.Row)
    requires |cache| == CACHE_WORDS && n == 256 && i < 128 && p < 2 && r < 256 && half < 2 && w < 32 && k < 4
    requires j == 2 * r + half && Group(cache, i, p, j) == row
    ensures IsSignedByte(MatrixOf(Regrouped(cache), n, 2 * i + p)[r][128 * half + 4 * w + k], ByteOf(row[w], k))
  {
    EntryOfGroup(cache, n, i, p, r, half, w, k, j);
  }

  lemma RowOfRegrouped(cache: seq<word>, q: nat, s: nat)
    requires |cache| == CACHE_WORDS && q < CACHE_ROWS && s < CACHE_ROWS && Source(q) == s
    ensures ROMix.RowAt(RegroupedWords(cache), q) == ROMix.RowAt(cache, s)
  {
    var words := RegroupedWords(cache);
    forall w: nat | 32 * q <= w < 32 * q + 32
      ensures words[w] == cache[32 * s + (w - 32 * q)]
    {
      assert w / 32 == q && w % 32 == w - 32 * q;
    }
  }

  method MulMatrix(keccak: Keccak, headerHash: Hash, cache: seq<word>, n: nat) returns (result: seq<byte>)
    requires |cache| == CACHE_WORDS && n <= MAX_SIDE && 256 * (n * n) == 4 * CACHE_WORDS
    ensures result == ResultRows(ChainResults(keccak, headerHash, Regrouped(cache), n), n, n)
  {
    var words := Deinterleave(cache);
    RegroupedByRows(cache, words[..]);
    var byteData := WordBytes(words);
    var bytes := byteData[..];
    var data := FixedData(byteData);
    assert Loaded(data[..], bytes, n);
    Arith64IsArith64();
    var tmp := SumChains(keccak, headerHash, data, bytes, n, Arith64());
    result := Finish(ChainResults(keccak, headerHash, bytes, n), n, tmp);
  }
}
