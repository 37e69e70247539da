/**
 Machine words, bytes and the little-endian conversions shared by every stage of the
 proof-of-work pipeline.  Keccak-256 is an external library: it appears everywhere as a
 parameter of type `Keccak`, so every theorem holds for any function to 32 bytes.
 */
module Words {

  type byte = bv8
  type word = bv32

  type Hash = h: seq<byte> | |h| == 32 witness seq(32, _ => 0)
  type Keccak = seq<byte> -> Hash

  datatype Option<+T> = None | Some(value: T)

  /** Addition modulo 2^32. */
  function Plus(a: word, b: word): word {
    a + b
  }

  /** Bitwise exclusive or. */
  function Exor(a: word, b: word): word {
    a ^ b
  }

  lemma ExorTwice(a: word, b: word)
    ensures Exor(Exor(a, b), b) == a
  {
  }

  /** Rotate left, as the source writes it. */
  function Rotl(a: word, b: word): word
    requires b <= 32
  {
    (a << b) | (a >> (32 - b))
  }

  /** Little-endian bytes to word. */
  function Le32(b0: byte, b1: byte, b2: byte, b3: byte): word {
    (b0 as word) | ((b1 as word) << 8) | ((b2 as word) << 16) | ((b3 as word) << 24)
  }

  /** Byte `k` of the little-endian form of `w`. */
  function ByteOf(w: word, k: nat): byte
    requires k < 4
  {
    if k == 0 then (w & 0xff) as byte
    else if k == 1 then ((w >> 8) & 0xff) as byte
    else if k == 2 then ((w >> 16) & 0xff) as byte
    else ((w >> 24) & 0xff) as byte
  }

  lemma BytesOfLe32(b0: byte, b1: byte, b2: byte, b3: byte)
    ensures var w := Le32(b0, b1, b2, b3);
            ByteOf(w, 0) == b0 && ByteOf(w, 1) == b1 && ByteOf(w, 2) == b2 && ByteOf(w, 3) == b3
  {
  }

  lemma Le32OfBytes(w: word)
    ensures Le32(ByteOf(w, 0), ByteOf(w, 1), ByteOf(w, 2), ByteOf(w, 3)) == w
  {
  }

  /** The words of a byte string, read little-endian four bytes at a time. */
  function DecodeWords(b: seq<byte>): (w: seq<word>)
    requires |b| % 4 == 0
    ensures |w| == |b| / 4
  {
    seq(|b| / 4, i requires 0 <= i < |b| / 4 => Le32(b[4 * i], b[4 * i + 1], b[4 * i + 2], b[4 * i + 3]))
  }

  function EncodeWords(w: seq<word>): (b: seq<byte>)
    ensures |b| == 4 * |w|
  {
    seq(4 * |w|, p requires 0 <= p < 4 * |w| => ByteOf(w[p / 4], p % 4))
  }

  lemma EncodeAt(w: seq<word>, i: nat, k: nat)
    requires i < |w| && k < 4
    ensures EncodeWords(w)[4 * i + k] == ByteOf(w[i], k)
  {
    assert (4 * i + k) / 4 == i && (4 * i + k) % 4 == k;
  }

  lemma DecodeAt(b: seq<byte>, i: nat, w: word)
    requires |b| % 4 == 0 && i < |b| / 4
    requires b[4 * i] == ByteOf(w, 0) && b[4 * i + 1] == ByteOf(w, 1)
    requires b[4 * i + 2] == ByteOf(w, 2) && b[4 * i + 3] == ByteOf(w, 3)
    ensures DecodeWords(b)[i] == w
  {
    Le32OfBytes(w);
  }

  lemma DecodedAt(w: seq<word>, i: nat)
    requires i < |w|
    ensures DecodeWords(EncodeWords(w))[i] == w[i]
  {
    EncodeAt(w, i, 0);
    EncodeAt(w, i, 1);
    EncodeAt(w, i, 2);
    EncodeAt(w, i, 3);
    DecodeAt(EncodeWords(w), i, w[i]);
  }

  /** Marshalling words and unmarshalling them again is the identity. */
  lemma DecodeEncode(w: seq<word>)
    ensures DecodeWords(EncodeWords(w)) == w
  {
    forall i: nat | i < |w|
      ensures DecodeWords(EncodeWords(w))[i] == w[i]
    {
      DecodedAt(w, i);
    }
  }

  lemma EncodeInjective(v: seq<word>, w: seq<word>)
    requires EncodeWords(v) == EncodeWords(w)
    ensures v == w
  {
    DecodeEncode(v);
    DecodeEncode(w);
  }

  /** Word-by-word exclusive or. */
  function Xor(a: seq<word>, b: seq<word>): (c: seq<word>)
    requires |a| == |b|
    ensures |c| == |a|
  {
    seq(|a|, i requires 0 <= i < |a| => Exor(a[i], b[i]))
  }

  // ---- What the operations are ----

  /** Addition: what subtracting the negative gives. */
  lemma PlusIsAddition(a: word, b: word)
    ensures Plus(a, b) == a - (0 - b)
  {
  }

  /** Exclusive or: the bits of one word that are not in the other. */
  lemma ExorIsExclusiveOr(a: word, b: word)
    ensures Exor(a, b) == (a | b) & !(a & b)
  {
  }

  /** Rotation: at the four distances in use. */
  lemma RotlRotates(w: word)
    ensures Rotl(w, 7) == w.RotateLeft(7) && Rotl(w, 9) == w.RotateLeft(9)
    ensures Rotl(w, 13) == w.RotateLeft(13) && Rotl(w, 18) == w.RotateLeft(18)
  {
  }
}
