/**
 `Smix`: scryptROMix of section 5 of RFC 7914 with r = 1, over a flat table of `n` rows of 32
 words.  The specification has no table: the second loop is a recursion that recomputes row j
 as the j-fold BlockMix of the input.
 */
module ROMix {
  import opened Arithmetic
  import opened Bytes
  import opened Unsigned
  import opened Words
  import opened Salsa
  import opened Scrypt

  type Row = w: seq<word> | |w| == 32 witness seq(32, _ => 0)

  /** The map the two loops iterate. */
  type Mixing = Row -> Row

  /** scryptBlockMix with r = 1 over the given core. */
  ghost function ScryptMix(core: Core): Mixing {
    (x: Row) => BlockMix(core, x, 1)
  }

  /** The mixing of the repository, kept folded: the methods only need its value where it is called. */
  ghost predicate IsMix(mix: Mixing) {
    forall x: Row {:trigger BlockMix(Salsa208, x, 1)} :: BlockMix(Salsa208, x, 1) == mix(x)
  }

  lemma ScryptMixIsMix()
    ensures IsMix(ScryptMix(Salsa208))
  {
  }

  /** `blockMix` with r = 1. */
  method MixRow(x: array<word>, ghost mix: Mixing) returns (y: array<word>)
    requires x.Length == 32 && IsMix(mix)
    ensures fresh(y) && y.Length == 32
    ensures y[..] == mix(old(x[..]))
  {
    y := MixBlocks(x, 1, Salsa208);
  }

  /** The j-fold BlockMix of x: row j of the table. */
  ghost function Power(mix: Mixing, x: Row, j: nat): Row {
    if j == 0 then x else mix(Power(mix, x, j - 1))
  }

  function Integerify(x: Row, n: nat): (j: nat)
    requires 1 <= n
    ensures j < n
  {
    Value(x[16]) % n
  }

  /** The second loop after k passes, without a table. */
  ghost function Walk(mix: Mixing, b: Row, n: nat, k: nat): Row
    requires 1 <= n
    decreases k
  {
    if k == 0 then Power(mix, b, n)
    else
      var x := Walk(mix, b, n, k - 1);
      mix(Xor(x, Power(mix, b, Integerify(x, n))))
  }

  ghost function RomixRow(mix: Mixing, b: Row, n: nat): Row
    requires 1 <= n
  {
    Walk(mix, b, n, n)
  }

  // ---- Section 5 of RFC 7914 ----

  /** Integerify of the RFC: the last 64 bytes as a little-endian number. */
  function RfcInteger(x: Row): nat {
    LittleNumber(EncodeWords(x)[64..])
  }

  /** Step 3 of scryptROMix after k passes. */
  ghost function RfcWalk(mix: Mixing, b: Row, n: nat, k: nat): Row
    requires 1 <= n
    decreases k
  {
    if k == 0 then Power(mix, b, n)
    else
      var x := RfcWalk(mix, b, n, k - 1);
      mix(Xor(x, Power(mix, b, RfcInteger(x) % n)))
  }

  lemma LowWord(bytes: seq<byte>, w: word, n: nat, m: nat)
    requires |bytes| >= 4 && bytes[..4] == BytesOf(w) && n >= 1 && m * n == MODULUS
    ensures LittleNumber(bytes) % n == Value(w) % n
  {
    assert bytes == bytes[..4] + bytes[4..];
    LittleConcat(bytes[..4], bytes[4..]);
    FourBytes(|bytes[..4]|);
    MultipleVanishes(Value(w), LittleNumber(bytes[4..]), n, m);
  }

  /** One word suffices, when n divides 2^32: the row the code takes is the row of the RFC. */
  lemma IntegerifyIsRfc(x: Row, n: nat, m: nat)
    requires n >= 1 && m * n == MODULUS
    ensures Integerify(x, n) == RfcInteger(x) % n
  {
    EncodeAt(x, 16, 0);
    EncodeAt(x, 16, 1);
    EncodeAt(x, 16, 2);
    EncodeAt(x, 16, 3);
    assert EncodeWords(x)[64..][..4] == BytesOf(x[16]);
    LowWord(EncodeWords(x)[64..], x[16], n, m);
  }

  /** For every n that divides 2^32 the second loop is that of the RFC. */
  lemma {:induction false} WalkIsRfc(mix: Mixing, b: Row, n: nat, k: nat, m: nat)
    requires n >= 1 && m * n == MODULUS
    ensures Walk(mix, b, n, k) == RfcWalk(mix, b, n, k)
  {
    if k > 0 {
      WalkIsRfc(mix, b, n, k - 1, m);
      IntegerifyIsRfc(Walk(mix, b, n, k - 1), n, m);
    }
  }

  /** scryptROMix of the RFC on 128 bytes, r = 1. */
  ghost function RfcRomix(mix: Mixing, b: seq<byte>, n: nat): seq<byte>
    requires |b| == 128 && 1 <= n
  {
    EncodeWords(RfcWalk(mix, DecodeWords(b), n, n))
  }

  // ---- The table ----

  function RowAt(v: seq<word>, j: nat): Row
    requires 32 * j + 32 <= |v|
  {
    v[32 * j..32 * j + 32]
  }

  /** The first `k` rows of the table hold the powers of `x`. */
  ghost predicate TableHolds(mix: Mixing, v: seq<word>, x: Row, k: nat) {
    32 * k <= |v| && forall j: nat :: j < k ==> RowAt(v, j) == Power(mix, x, j)
  }

  lemma TableGrows(mix: Mixing, v: seq<word>, x: Row, k: nat, w: seq<word>)
    requires TableHolds(mix, v, x, k) && |w| == |v| && 32 * k + 32 <= |v|
    requires w[..32 * k] == v[..32 * k]
    requires RowAt(w, k) == Power(mix, x, k)
    ensures TableHolds(mix, w, x, k + 1)
  {
    forall j: nat | j < k + 1
      ensures RowAt(w, j) == Power(mix, x, j)
    {
      if j < k {
        assert RowAt(w, j) == w[..32 * k][32 * j..32 * j + 32];
        assert RowAt(v, j) == v[..32 * k][32 * j..32 * j + 32];
      }
    }
  }

  method Unmarshal(b: array<byte>) returns (x: array<word>)
    requires b.Length >= 128
    ensures fresh(x) && x.Length == 32
    ensures x[..] == DecodeWords(old(b[..128]))
  {
    ghost var bytes := b[..128];
    x := new word[32];
    for i := 0 to 32
      invariant b[..128] == bytes
      invariant forall k :: 0 <= k < i ==> x[k] == DecodeWords(bytes)[k]
    {
      x[i] := Le32(b[i * 4], b[i * 4 + 1], b[i * 4 + 2], b[i * 4 + 3]);
    }
  }

  method Marshal(x: array<word>, b: array<byte>)
    requires x.Length == 32 && b.Length >= 128
    modifies b
    ensures b[..128] == EncodeWords(old(x[..]))
    ensures b[128..] == old(b[128..])
  {
    ghost var words := x[..];
    for i := 0 to 32
      invariant x[..] == words
      invariant forall p :: 0 <= p < 4 * i ==> b[p] == EncodeWords(words)[p]
      invariant b[128..] == old(b[128..])
    {
      forall k | 0 <= k < 4 { b[4 * i + k] := ByteOf(x[i], k); }
    }
  }

  method SaveRow(x: array<word>, v: array<word>, i: nat)
    requires x.Length == 32 && v.Length >= 32 * i + 32 && x != v
    modifies v
    ensures RowAt(v[..], i) == old(x[..])
    ensures v[..][..32 * i] == old(v[..])[..32 * i]
    ensures v[32 * i + 32..] == old(v[32 * i + 32..])
  {
    forall k | 0 <= k < 32 { v[32 * i + k] := x[k]; }
  }

  /** One pass of the first loop: save the running value, then mix it. */
  method FillOnce(x: array<word>, v: array<word>, i: nat, ghost mix: Mixing, ghost input: Row) returns (y: array<word>)
    requires IsMix(mix)
    requires x.Length == 32 && v.Length >= 32 * i + 32 && x != v
    requires x[..] == Power(mix, input, i)
    requires TableHolds(mix, v[..], input, i)
    modifies v
    ensures y.Length == 32 && fresh(y)
    ensures y[..] == Power(mix, input, i + 1)
    ensures TableHolds(mix, v[..], input, i + 1)
    ensures v[32 * i + 32..] == old(v[32 * i + 32..])
  {
    ghost var before := v[..];
    SaveRow(x, v, i);
    ghost var after := v[..];
    TableGrows(mix, before, input, i, after);
    y := MixRow(x, mix);
    assert v[..] == after;
  }

  method FillTable(x0: array<word>, v: array<word>, n: nat, ghost mix: Mixing) returns (x: array<word>)
    requires IsMix(mix)
    requires x0.Length == 32 && v.Length >= 32 * n && x0 != v
    modifies v
    ensures x.Length == 32 && x != v && (x == x0 || fresh(x))
    ensures TableHolds(mix, v[..], old(x0[..]), n)
    ensures x[..] == Power(mix, old(x0[..]), n)
    ensures v[32 * n..] == old(v[32 * n..])
  {
    x := x0;
    ghost var input: Row := x0[..];
    ghost var tail := v[32 * n..];
    for i := 0 to n
      invariant x.Length == 32 && x != v && (x == x0 || fresh(x))
      invariant x[..] == Power(mix, input, i)
      invariant TableHolds(mix, v[..], input, i)
      invariant v[32 * n..] == tail
    {
      ghost var rest := v[32 * i + 32..];
      assert rest[32 * (n - i - 1)..] == tail;
      x := FillOnce(x, v, i, mix, input);
      assert v[32 * n..] == v[32 * i + 32..][32 * (n - i - 1)..];
    }
  }

  /** One pass of the second loop. */
  method WalkOnce(x: array<word>, v: array<word>, n: nat, ghost mix: Mixing, ghost input: Row, ghost i: nat)
    returns (y: array<word>)
    requires IsMix(mix)
    requires 1 <= n && x.Length == 32 && v.Length >= 32 * n && x != v
    requires TableHolds(mix, v[..], input, n) && x[..] == Walk(mix, input, n, i)
    modifies x
    ensures y.Length == 32 && fresh(y)
    ensures y[..] == Walk(mix, input, n, i + 1)
  {
    ghost var x1: Row := x[..];
    var j: nat := Value(x[16]) % n;
    ghost var row := RowAt(v[..], j);
    for k := 0 to 32
      invariant v[..] == old(v[..])
      invariant forall m :: 0 <= m < k ==> x[m] == Exor(x1[m], v[32 * j + m])
      invariant forall m :: k <= m < 32 ==> x[m] == x1[m]
    {
      x[k] := Exor(x[k], v[j * 32 + k]);
    }
    assert x[..] == Xor(x1, row);
    y := MixRow(x, mix);
  }

  /** The second loop. */
  method Scramble(x0: array<word>, v: array<word>, n: nat, ghost mix: Mixing, ghost input: Row) returns (x: array<word>)
    requires IsMix(mix)
    requires 1 <= n && x0.Length == 32 && v.Length >= 32 * n && x0 != v
    requires TableHolds(mix, v[..], input, n)
    requires x0[..] == Power(mix, input, n)
    modifies x0
    ensures x.Length == 32 && x != v && (x == x0 || fresh(x))
    ensures x[..] == RomixRow(mix, input, n)
  {
    x := x0;
    for i := 0 to n
      invariant x.Length == 32 && (x == x0 || fresh(x)) && x != v
      invariant x[..] == Walk(mix, input, n, i)
      invariant TableHolds(mix, v[..], input, n)
    {
      ghost var table := v[..];
      x := WalkOnce(x, v, n, mix, input, i);
      assert v[..] == table;
    }
  }

  method Smix(b: array<byte>, v: array<word>, n: nat, ghost mix: Mixing)
    requires IsMix(mix)
    requires 1 <= n && b.Length >= 128 && v.Length >= 32 * n
    modifies b, v
    ensures TableHolds(mix, v[..], DecodeWords(old(b[..128])), n)
    ensures b[..128] == EncodeWords(RomixRow(mix, DecodeWords(old(b[..128])), n))
    ensures forall m: nat :: m * n == MODULUS ==> b[..128] == RfcRomix(mix, old(b[..128]), n)
    ensures b[128..] == old(b[128..]) && v[32 * n..] == old(v[32 * n..])
  {
    ghost var bytes, rest, tail := b[..128], b[128..], v[32 * n..];
    var x := Unmarshal(b);
    ghost var input: Row := x[..];
    assert v[32 * n..] == tail;
    x := FillTable(x, v, n, mix);
    ghost var table := v[..];
    x := Scramble(x, v, n, mix, input);
    assert v[..] == table && table[32 * n..] == tail;
    assert b[128..] == rest;
    Marshal(x, b);
    assert v[..] == table;
    forall m: nat | m * n == MODULUS
      ensures b[..128] == RfcRomix(mix, bytes, n)
    {
      WalkIsRfc(mix, input, n, n, m);
    }
  }
}
