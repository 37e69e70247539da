/**
 Words as numbers: the unsigned value of a 32-bit word, read byte by byte, and multiplication
 modulo 2^32 defined on values.
 */
module Unsigned {
  import opened Bytes
  import opened Words

  const MODULUS: int := 0x1_0000_0000

  function BytesOf(w: word): (b: seq<byte>)
    ensures |b| == 4
  {
    [ByteOf(w, 0), ByteOf(w, 1), ByteOf(w, 2), ByteOf(w, 3)]
  }

  function FromBytes(b: seq<byte>): word
    requires |b| == 4
  {
    Le32(b[0], b[1], b[2], b[3])
  }

  lemma FourBytes(k: nat)
    requires k == 4
    ensures Power256(k) == MODULUS
  {
    assert Power256(k - 3) == 0x100;
    assert Power256(k - 2) == 0x1_0000;
  }

  /** The unsigned value of a word. */
  function Value(w: word): (v: int)
    ensures 0 <= v < MODULUS
  {
    NumberBelow(BytesOf(w));
    FourBytes(|BytesOf(w)|);
    LittleNumber(BytesOf(w))
  }

  function OfValue(v: int): word
    requires 0 <= v < MODULUS
  {
    FromBytes(PutLittleEndian(v, 4))
  }

  lemma BytesOfFromBytes(b: seq<byte>)
    requires |b| == 4
    ensures BytesOf(FromBytes(b)) == b
  {
    BytesOfLe32(b[0], b[1], b[2], b[3]);
  }

  lemma FromBytesOf(w: word)
    ensures FromBytes(BytesOf(w)) == w
  {
    Le32OfBytes(w);
  }

  lemma ValueOfValue(v: int)
    requires 0 <= v < MODULUS
    ensures Value(OfValue(v)) == v
  {
    var b := PutLittleEndian(v, 4);
    BytesOfFromBytes(b);
    FourBytes(|b|);
    NumberOfLittleEndian(v, |b|);
  }

  lemma ValueInjective(a: word, c: word)
    ensures Value(a) == Value(c) ==> a == c
  {
    if Value(a) == Value(c) {
      NumberInjective(BytesOf(a), BytesOf(c));
      FromBytesOf(a);
      FromBytesOf(c);
    }
  }

  /** The product modulo 2^32, as uint32 multiplication defines it. */
  function Times(a: word, k: nat): word {
    OfValue(Value(a) * k % MODULUS)
  }

  /** Multiplying by k modulo 2^32 loses nothing when k has an inverse there. */
  lemma TimesInjective(a: word, c: word, k: nat, inverse: nat)
    requires k * inverse % MODULUS == 1
    ensures Times(a, k) == Times(c, k) ==> a == c
  {
    if Times(a, k) == Times(c, k) {
      ValueOfValue(Value(a) * k % MODULUS);
      ValueOfValue(Value(c) * k % MODULUS);
      ProductInjective(Value(a), Value(c), k, inverse);
      ValueInjective(a, c);
    }
  }

  lemma ProductInjective(x: int, y: int, k: nat, inverse: nat)
    requires 0 <= x < MODULUS && 0 <= y < MODULUS
    requires k * inverse % MODULUS == 1
    requires x * k % MODULUS == y * k % MODULUS
    ensures x == y
  {
    var p, q := x * k / MODULUS, y * k / MODULUS;
    assert (x - y) * k == (p - q) * MODULUS;
    var t := k * inverse / MODULUS;
    assert k * inverse == t * MODULUS + 1;
    var d := x - y;
    assert d * k * inverse == d * (k * inverse);
    assert d * (k * inverse) == d * t * MODULUS + d;
    assert d * k * inverse == (p - q) * inverse * MODULUS;
    assert d == ((p - q) * inverse - d * t) * MODULUS;
    SmallMultiple(d, (p - q) * inverse - d * t);
  }

  lemma SmallMultiple(d: int, m: int)
    requires d == m * MODULUS && -MODULUS < d < MODULUS
    ensures d == 0
  {
  }

  // ---- What the value is ----

  /**
   The value is the number of the word: it is a bijection onto 0 to 2^32 - 1 (`ValueInjective`,
   `ValueOfValue`) that keeps the order of words.
   */
  lemma ValueKeepsOrder(a: word, c: word)
    requires a < c
    ensures Value(a) < Value(c)
  {
    if ByteOf(a, 3) != ByteOf(c, 3) {
      TopByteDecides(a, c);
    } else if ByteOf(a, 2) != ByteOf(c, 2) {
      ThirdByteDecides(a, c);
    } else if ByteOf(a, 1) != ByteOf(c, 1) {
      SecondByteDecides(a, c);
    } else {
      LowByteDecides(a, c);
    }
  }

  lemma TopByteLess(a: word, c: word)
    requires a < c
    ensures ByteOf(a, 3) <= ByteOf(c, 3)
  {
  }

  lemma ThirdByteLess(a: word, c: word)
    requires a < c && ByteOf(a, 3) == ByteOf(c, 3)
    ensures ByteOf(a, 2) <= ByteOf(c, 2)
  {
  }

  lemma SecondByteLess(a: word, c: word)
    requires a < c && ByteOf(a, 3) == ByteOf(c, 3) && ByteOf(a, 2) == ByteOf(c, 2)
    ensures ByteOf(a, 1) <= ByteOf(c, 1)
  {
  }

  lemma LowByteLess(a: word, c: word)
    requires a < c && ByteOf(a, 3) == ByteOf(c, 3) && ByteOf(a, 2) == ByteOf(c, 2) && ByteOf(a, 1) == ByteOf(c, 1)
    ensures ByteOf(a, 0) < ByteOf(c, 0)
  {
  }

  lemma AtMost(x: byte, y: byte)
    requires x <= y && x != y
    ensures x < y
  {
  }

  lemma TopByteDecides(a: word, c: word)
    requires a < c && ByteOf(a, 3) != ByteOf(c, 3)
    ensures Value(a) < Value(c)
  {
    TopByteLess(a, c);
    AtMost(ByteOf(a, 3), ByteOf(c, 3));
    LessAt(BytesOf(a), BytesOf(c), 3);
  }

  lemma ThirdByteDecides(a: word, c: word)
    requires a < c && ByteOf(a, 3) == ByteOf(c, 3) && ByteOf(a, 2) != ByteOf(c, 2)
    ensures Value(a) < Value(c)
  {
    ThirdByteLess(a, c);
    AtMost(ByteOf(a, 2), ByteOf(c, 2));
    LessAt(BytesOf(a), BytesOf(c), 2);
  }

  lemma SecondByteDecides(a: word, c: word)
    requires a < c && ByteOf(a, 3) == ByteOf(c, 3) && ByteOf(a, 2) == ByteOf(c, 2) && ByteOf(a, 1) != ByteOf(c, 1)
    ensures Value(a) < Value(c)
  {
    SecondByteLess(a, c);
    AtMost(ByteOf(a, 1), ByteOf(c, 1));
    LessAt(BytesOf(a), BytesOf(c), 1);
  }

  lemma LowByteDecides(a: word, c: word)
    requires a < c && ByteOf(a, 3) == ByteOf(c, 3) && ByteOf(a, 2) == ByteOf(c, 2) && ByteOf(a, 1) == ByteOf(c, 1)
    ensures Value(a) < Value(c)
  {
    LowByteLess(a, c);
    LessAt(BytesOf(a), BytesOf(c), 0);
  }

  lemma LessAt(x: seq<byte>, y: seq<byte>, k: nat)
    requires |x| == |y| == 4 && k < 4 && x[k] < y[k] && forall j :: k < j < 4 ==> x[j] == y[j]
    ensures LittleNumber(x) < LittleNumber(y)
  {
    ByteLess(x[k], y[k]);
    LittleLess(x, y, k);
  }

  /** Among four bytes read little-endian the last that differs decides. */
  lemma LittleLess(x: seq<byte>, y: seq<byte>, k: nat)
    requires |x| == |y| == 4 && k < 4 && ValueOf(x[k]) < ValueOf(y[k]) && forall j :: k < j < 4 ==> x[j] == y[j]
    ensures LittleNumber(x) < LittleNumber(y)
  {
    ReversedAt(x);
    ReversedAt(y);
    LittleIsBigReversed(x);
    LittleIsBigReversed(y);
    var i := 3 - k;
    assert Reversed(x)[..i] == Reversed(y)[..i];
    FirstDifferenceDecides(Reversed(x), Reversed(y), i);
  }

  lemma {:induction false} ReversedAt(b: seq<byte>)
    ensures forall i :: 0 <= i < |b| ==> Reversed(b)[i] == b[|b| - 1 - i]
  {
    if |b| > 0 {
      ReversedAt(b[1..]);
    }
  }

  /** Words are written as bytes and read from them least significant byte first. */
  lemma EncodedLittleEndian(w: seq<word>, i: nat)
    requires i < |w|
    ensures LittleNumber(EncodeWords(w)[4 * i..4 * i + 4]) == Value(w[i])
  {
    EncodeAt(w, i, 0);
    EncodeAt(w, i, 1);
    EncodeAt(w, i, 2);
    EncodeAt(w, i, 3);
    SameFour(EncodeWords(w), 4 * i, w[i]);
  }

  lemma SameFour(b: seq<byte>, at: nat, w: word)
    requires at + 4 <= |b| && b[at] == ByteOf(w, 0) && b[at + 1] == ByteOf(w, 1)
    requires b[at + 2] == ByteOf(w, 2) && b[at + 3] == ByteOf(w, 3)
    ensures LittleNumber(b[at..at + 4]) == Value(w)
  {
    assert b[at..at + 4] == BytesOf(w);
  }

  lemma DecodedLittleEndian(b: seq<byte>, i: nat)
    requires |b| % 4 == 0 && i < |b| / 4
    ensures Value(DecodeWords(b)[i]) == LittleNumber(b[4 * i..4 * i + 4])
  {
    BytesOfFromBytes(b[4 * i..4 * i + 4]);
  }
}
