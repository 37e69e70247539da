/** Bytes, their values, and numbers as little-endian and big-endian bytes. */
module Bytes {
  import opened Arithmetic

  function ValueOf(b: bv8): (v: int)
    ensures 0 <= v < 0x100
  {
    b as int
  }

  lemma ByteValue(x: int)
    requires 0 <= x < 0x100
    ensures ValueOf(x as bv8) == x
  {
  }

  lemma ByteInjective(a: bv8, b: bv8)
    ensures ValueOf(a) == ValueOf(b) ==> a == b
  {
  }

  function LowByte(n: nat): bv8 {
    (n % 0x100) as bv8
  }

  lemma ValueOfLowByte(n: nat)
    ensures ValueOf(LowByte(n)) == n % 0x100
  {
    ByteValue(n % 0x100);
  }

  function Power256(k: nat): (p: nat)
    ensures p >= 1
  {
    if k == 0 then 1 else 0x100 * Power256(k - 1)
  }

  /** The number that bytes stand for, least significant first. */
  function LittleNumber(b: seq<bv8>): nat {
    if |b| == 0 then 0 else ValueOf(b[0]) + 0x100 * LittleNumber(b[1..])
  }

  /** k bytes, least significant first. */
  function PutLittleEndian(n: nat, k: nat): (b: seq<bv8>)
    ensures |b| == k
  {
    if k == 0 then [] else [LowByte(n)] + PutLittleEndian(n / 0x100, k - 1)
  }

  lemma {:induction false} NumberBelow(b: seq<bv8>)
    ensures LittleNumber(b) < Power256(|b|)
  {
    if |b| > 0 {
      NumberBelow(b[1..]);
    }
  }

  lemma LowDigitUnique(a: int, x: int, c: int, y: int)
    requires 0 <= a < 0x100 && 0 <= c < 0x100 && a + 0x100 * x == c + 0x100 * y
    ensures a == c && x == y
  {
  }

  lemma {:induction false} NumberInjective(b: seq<bv8>, c: seq<bv8>)
    requires |b| == |c| && LittleNumber(b) == LittleNumber(c)
    ensures b == c
  {
    if |b| > 0 {
      LowDigitUnique(ValueOf(b[0]), LittleNumber(b[1..]), ValueOf(c[0]), LittleNumber(c[1..]));
      ByteInjective(b[0], c[0]);
      NumberInjective(b[1..], c[1..]);
      assert b == [b[0]] + b[1..] && c == [c[0]] + c[1..];
    }
  }

  lemma {:induction false} NumberOfLittleEndian(n: nat, k: nat)
    requires n < Power256(k)
    ensures LittleNumber(PutLittleEndian(n, k)) == n
  {
    if k > 0 {
      var b := PutLittleEndian(n, k);
      NumberOfLittleEndian(n / 0x100, k - 1);
      ValueOfLowByte(n);
      assert b[0] == LowByte(n) && b[1..] == PutLittleEndian(n / 0x100, k - 1);
    }
  }

  lemma {:induction false} LittleConcat(a: seq<bv8>, b: seq<bv8>)
    ensures LittleNumber(a + b) == LittleNumber(a) + Power256(|a|) * LittleNumber(b)
  {
    if |a| == 0 {
      assert a + b == b;
    } else {
      LittleConcat(a[1..], b);
      assert (a + b)[1..] == a[1..] + b;
      ShiftTerm(ValueOf(a[0]), LittleNumber(a[1..]), Power256(|a| - 1), LittleNumber(b));
    }
  }

  lemma ShiftTerm(v: int, x: nat, p: nat, y: nat)
    ensures v + 0x100 * (x + p * y) == v + 0x100 * x + (0x100 * p) * y
  {
  }

  lemma ByteLess(a: bv8, b: bv8)
    ensures a < b ==> ValueOf(a) < ValueOf(b)
  {
  }

  // ---- Most significant byte first ----

  /** The number that bytes stand for, most significant first, as big integers are read from bytes. */
  function BigNumber(b: seq<bv8>): nat {
    if |b| == 0 then 0 else BigNumber(b[..|b| - 1]) * 0x100 + ValueOf(b[|b| - 1])
  }

  /** Minimal bytes: no leading zero, nothing at all for zero. */
  function BigEndian(n: nat): seq<bv8> {
    if n == 0 then [] else BigEndian(n / 0x100) + [LowByte(n)]
  }

  /** k bytes, most significant first. */
  function PutBigEndian(n: nat, k: nat): (b: seq<bv8>)
    ensures |b| == k
  {
    if k == 0 then [] else PutBigEndian(n / 0x100, k - 1) + [LowByte(n)]
  }

  lemma BigSnoc(b: seq<bv8>, x: bv8)
    ensures BigNumber(b + [x]) == BigNumber(b) * 0x100 + ValueOf(x)
  {
    assert (b + [x])[..|b|] == b;
  }

  lemma {:induction false} NumberOfPutBigEndian(n: nat, k: nat)
    requires n < Power256(k)
    ensures BigNumber(PutBigEndian(n, k)) == n
  {
    if k > 0 {
      NumberOfPutBigEndian(n / 0x100, k - 1);
      BigSnoc(PutBigEndian(n / 0x100, k - 1), LowByte(n));
      ValueOfLowByte(n);
    }
  }

  lemma {:induction false} NumberOfBigEndian(n: nat)
    ensures BigNumber(BigEndian(n)) == n
  {
    if n > 0 {
      NumberOfBigEndian(n / 0x100);
      BigSnoc(BigEndian(n / 0x100), LowByte(n));
      ValueOfLowByte(n);
    }
  }

  lemma {:induction false} BigBelow(b: seq<bv8>)
    ensures BigNumber(b) < Power256(|b|)
  {
    if |b| > 0 {
      BigBelow(b[..|b| - 1]);
    }
  }

  lemma ShiftSum(x: nat, p: nat, y: nat, v: int)
    ensures (x * p + y) * 0x100 + v == x * (0x100 * p) + (y * 0x100 + v)
  {
  }

  lemma {:induction false} BigConcat(a: seq<bv8>, b: seq<bv8>)
    ensures BigNumber(a + b) == BigNumber(a) * Power256(|b|) + BigNumber(b)
    decreases |b|
  {
    if |b| == 0 {
      assert a + b == a;
    } else {
      var front := b[..|b| - 1];
      BigConcat(a, front);
      assert a + b == a + front + [b[|b| - 1]];
      BigSnoc(a + front, b[|b| - 1]);
      ShiftSum(BigNumber(a), Power256(|front|), BigNumber(front), ValueOf(b[|b| - 1]));
    }
  }

  lemma SplitAt(a: seq<bv8>, i: nat)
    requires i < |a|
    ensures BigNumber(a) == BigNumber(a[..i + 1]) * Power256(|a| - i - 1) + BigNumber(a[i + 1..])
    ensures BigNumber(a[..i + 1]) == BigNumber(a[..i]) * 0x100 + ValueOf(a[i])
  {
    assert a == a[..i + 1] + a[i + 1..];
    BigConcat(a[..i + 1], a[i + 1..]);
    assert a[..i + 1] == a[..i] + [a[i]];
    BigSnoc(a[..i], a[i]);
  }

  lemma LessTimes(x: nat, y: nat, p: nat, r: nat, s: nat)
    requires x < y && r < p
    ensures x * p + r < y * p + s
  {
    Monotone(x + 1, y, p);
    assert (x + 1) * p == x * p + p;
  }

  /** At equal length the first byte that differs decides which number is less. */
  lemma FirstDifferenceDecides(a: seq<bv8>, b: seq<bv8>, i: nat)
    requires |a| == |b| && i < |a| && a[..i] == b[..i] && ValueOf(a[i]) < ValueOf(b[i])
    ensures BigNumber(a) < BigNumber(b)
  {
    SplitAt(a, i);
    SplitAt(b, i);
    BigBelow(a[i + 1..]);
    LessTimes(BigNumber(a[..i + 1]), BigNumber(b[..i + 1]), Power256(|a| - i - 1), BigNumber(a[i + 1..]), BigNumber(b[i + 1..]));
  }

  function Reversed(b: seq<bv8>): (r: seq<bv8>)
    ensures |r| == |b|
  {
    if |b| == 0 then [] else Reversed(b[1..]) + [b[0]]
  }

  /** The two readings differ in the order of the bytes alone. */
  lemma {:induction false} LittleIsBigReversed(b: seq<bv8>)
    ensures LittleNumber(b) == BigNumber(Reversed(b))
  {
    if |b| > 0 {
      LittleIsBigReversed(b[1..]);
      BigSnoc(Reversed(b[1..]), b[0]);
    }
  }

  lemma {:induction false} BigZeros(z: seq<bv8>)
    requires forall i :: 0 <= i < |z| ==> z[i] == 0
    ensures BigNumber(z) == 0
  {
    if |z| > 0 {
      BigZeros(z[..|z| - 1]);
      ByteValue(0);
    }
  }

  lemma {:induction false} PowersGrow(j: nat, k: nat)
    requires j <= k
    ensures 1 <= Power256(j) <= Power256(k)
  {
    if j < k {
      PowersGrow(j, k - 1);
    } else if j > 0 {
      PowersGrow(j - 1, k - 1);
    }
  }
}
