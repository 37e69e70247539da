/**
 The block header and its serialisation for the seal hash: fields written one after the other,
 without framing.  Number and Difficulty have variable length and no length prefix; the encoding
 is injective all the same on the headers the miner builds, because 24 zero bytes of the nonce
 separate the two.
 */
module Header {
  import opened Words
  import opened Arithmetic
  import opened Bytes

  type Address = a: seq<byte> | |a| == 20 witness seq(20, _ => 0)

  /** A `None` stands for a nil big integer. */
  datatype Header = Header(parentHash: Hash, coinbase: Address, root: Hash, txHash: Hash, number: Option<int>,
                           gasLimit: nat, time: nat, extra: seq<byte>, nonce: Hash, difficulty: Option<int>)

  datatype BlockHeader = BlockHeader(height: nat, prevHash: seq<byte>, merkleRoot: seq<byte>, stateRoot: seq<byte>,
                                     timestamp: int, difficulty: Option<int>, minerAddress: seq<byte>, chainID: nat)

  const TWO64: int := 0x1_0000_0000_0000_0000

  // ---- Numbers as bytes ----

  function Abs(n: int): (a: nat)
    ensures a == n || a == -n
  {
    if n < 0 then -n else n
  }

  /** The bytes of a big integer: its absolute value, and nothing for nil. */
  function Magnitude(n: Option<int>): nat {
    if n.None? then 0 else Abs(n.value)
  }

  // ---- The serialisation ----

  function Encoded(h: Header): seq<byte> {
    h.parentHash + h.coinbase + h.root + h.txHash + BigEndian(Magnitude(h.number)) + PutBigEndian(h.gasLimit, 8)
      + PutBigEndian(h.time, 8) + h.extra + h.nonce + BigEndian(Magnitude(h.difficulty))
  }

  class Writer {
    var written: seq<byte>

    constructor ()
      ensures written == []
    {
      written := [];
    }

    method Write(b: seq<byte>)
      modifies this
      ensures written == old(written) + b
    {
      written := written + b;
    }
  }

  method WriteNumber(w: Writer, n: Option<int>)
    modifies w
    ensures w.written == old(w.written) + BigEndian(Magnitude(n))
  {
    if n.Some? {
      w.Write(BigEndian(Abs(n.value)));
    }
  }

  /** The part of the encoding before the fixed-width numbers. */
  ghost function Front(h: Header): seq<byte> {
    h.parentHash + h.coinbase + h.root + h.txHash + BigEndian(Magnitude(h.number))
  }

  method WriteFront(w: Writer, h: Header)
    modifies w
    ensures w.written == old(w.written) + Front(h)
  {
    w.Write(h.parentHash);
    w.Write(h.coinbase);
    w.Write(h.root);
    w.Write(h.txHash);
    WriteNumber(w, h.number);
  }

  method RlpEncode(w: Writer, h: Header)
    modifies w
    ensures w.written == old(w.written) + Encoded(h)
  {
    ghost var start := w.written;
    WriteFront(w, h);
    var gasBytes := PutBigEndian(h.gasLimit, 8);
    w.Write(gasBytes);
    var timeBytes := PutBigEndian(h.time, 8);
    w.Write(timeBytes);
    if |h.extra| > 0 {
      w.Write(h.extra);
    }
    w.Write(h.nonce);
    WriteNumber(w, h.difficulty);
    Reassociate(start, Front(h), gasBytes, timeBytes, h.extra, h.nonce, BigEndian(Magnitude(h.difficulty)));
  }

  lemma Reassociate(s: seq<byte>, a: seq<byte>, b: seq<byte>, c: seq<byte>, d: seq<byte>, e: seq<byte>, f: seq<byte>)
    ensures s + (a + b + c + d + e + f) == s + a + b + c + d + e + f
    ensures |d| == 0 ==> s + (a + b + c + d + e + f) == s + a + b + c + e + f
  {
    if |d| == 0 {
      assert a + b + c + d == a + b + c;
    }
  }

  // ---- Where the fields are ----

  /**
   What a reader finds in the encoding: the four hashes, then the number, gas limit and time read big-endian,
   extra data and nonce, and the difficulty read big-endian.
   */
  ghost predicate Holds(e: seq<byte>, h: Header, n: nat, x: nat) {
    && 164 + n + x <= |e|
    && e[..32] == h.parentHash && e[32..52] == h.coinbase && e[52..84] == h.root && e[84..116] == h.txHash
    && BigNumber(e[116..116 + n]) == Magnitude(h.number) && (n > 0 ==> e[116] != 0)
    && BigNumber(e[116 + n..124 + n]) == h.gasLimit
    && BigNumber(e[124 + n..132 + n]) == h.time
    && e[132 + n..132 + n + x] == h.extra
    && e[132 + n + x..164 + n + x] == h.nonce
    && BigNumber(e[164 + n + x..]) == Magnitude(h.difficulty)
  }

  lemma TenParts(a: Hash, b: Address, c: Hash, d: Hash, number: seq<byte>, gas: seq<byte>, time: seq<byte>,
                 extra: seq<byte>, nonce: Hash, difficulty: seq<byte>, e: seq<byte>)
    requires |gas| == |time| == 8
    requires e == a + b + c + d + number + gas + time + extra + nonce + difficulty
    ensures var n, x := |number|, |extra|;
            && 164 + n + x <= |e|
            && e[..32] == a && e[32..52] == b && e[52..84] == c && e[84..116] == d
            && e[116..116 + n] == number && e[116 + n..124 + n] == gas && e[124 + n..132 + n] == time
            && e[132 + n..132 + n + x] == extra && e[132 + n + x..164 + n + x] == nonce
            && e[164 + n + x..] == difficulty
  {
  }

  /** Every field is in its place in the encoding, and numbers are big-endian. */
  lemma EncodedHoldsFields(h: Header)
    requires h.gasLimit < TWO64 && h.time < TWO64
    ensures Holds(Encoded(h), h, |BigEndian(Magnitude(h.number))|, |h.extra|)
  {
    var number, difficulty := BigEndian(Magnitude(h.number)), BigEndian(Magnitude(h.difficulty));
    var gas, time := PutBigEndian(h.gasLimit, 8), PutBigEndian(h.time, 8);
    TenParts(h.parentHash, h.coinbase, h.root, h.txHash, number, gas, time, h.extra, h.nonce, difficulty, Encoded(h));
    EightBytes(|gas|);
    NumberOfPutBigEndian(h.gasLimit, |gas|);
    NumberOfPutBigEndian(h.time, |time|);
    NumberOfBigEndian(Magnitude(h.number));
    NumberOfBigEndian(Magnitude(h.difficulty));
    BigEndianMinimal(Magnitude(h.number));
    if |number| > 0 {
      assert Encoded(h)[116..116 + |number|][0] == Encoded(h)[116];
    }
  }

  lemma EightBytes(k: nat)
    requires k == 8
    ensures Power256(k) == TWO64
  {
    assert Power256(k - 7) == 0x100;
    assert Power256(k - 6) == 0x1_0000;
    assert Power256(k - 5) == 0x100_0000;
    assert Power256(k - 4) == 0x1_0000_0000;
    assert Power256(k - 3) == 0x100_0000_0000;
    assert Power256(k - 2) == 0x1_0000_0000_0000;
  }

  // ---- The headers the miner builds ----

  /** The last 32 bytes, padded on the left. */
  function BytesToHash(b: seq<byte>): Hash {
    if |b| >= 32 then b[|b| - 32..] else seq(32 - |b|, _ => 0) + b
  }

  /** The first 32 bytes, padded on the right. */
  function CopiedHash(b: seq<byte>): Hash {
    if |b| >= 32 then b[..32] else b + seq(32 - |b|, _ => 0)
  }

  function NonceBytes(nonce: nat): Hash {
    PutLittleEndian(nonce, 8) + seq(24, _ => 0)
  }

  function Built(h: BlockHeader, nonce: nat): Header {
    Header(BytesToHash(h.prevHash), DecodeMinerAddress(h.minerAddress), CopiedHash(h.stateRoot),
           BytesToHash(h.merkleRoot), Some(h.height), 0, h.timestamp % TWO64, [], NonceBytes(nonce), h.difficulty)
  }

  /** Padding and cutting on the left keeps the number modulo 2^256. */
  lemma BytesToHashKeepsNumber(b: seq<byte>, k: nat)
    requires k == 32
    ensures BigNumber(BytesToHash(b)) == BigNumber(b) % Power256(k)
  {
    if |b| >= k {
      var cut := b[..|b| - k];
      assert b == cut + BytesToHash(b);
      CutNumber(cut, BytesToHash(b));
    } else {
      PaddedNumber(seq(k - |b|, _ => 0), b);
    }
  }

  lemma CutNumber(cut: seq<byte>, low: seq<byte>)
    ensures BigNumber(low) == BigNumber(cut + low) % Power256(|low|)
  {
    BigConcat(cut, low);
    BigBelow(low);
    RemainderIs(BigNumber(cut + low), Power256(|low|), BigNumber(cut), BigNumber(low));
  }

  lemma LeadingZeros(zeros: seq<byte>, b: seq<byte>)
    requires forall i :: 0 <= i < |zeros| ==> zeros[i] == 0
    ensures BigNumber(zeros + b) == BigNumber(b)
  {
    BigConcat(zeros, b);
    BigZeros(zeros);
    assert 0 * Power256(|b|) == 0;
  }

  lemma PaddedNumber(zeros: seq<byte>, b: seq<byte>)
    requires forall i :: 0 <= i < |zeros| ==> zeros[i] == 0
    ensures BigNumber(zeros + b) == BigNumber(b) % Power256(|zeros| + |b|)
  {
    LeadingZeros(zeros, b);
    BigBelow(b);
    PowersGrow(|b|, |zeros| + |b|);
    SmallRemainder(BigNumber(b), Power256(|zeros| + |b|));
  }

  /** Copying keeps the bytes there are in place, and zeros follow. */
  lemma CopiedHashAt(b: seq<byte>, i: nat)
    requires i < 32
    ensures CopiedHash(b)[i] == if i < |b| then b[i] else 0
  {
  }

  /**
   What a reader finds in the bytes the seal hash is taken of: the parent hash, address, state root and
   merkle root of the miner's header, its height, a gas limit of 0, its timestamp as 64 bits, the
   nonce little-endian followed by 24 zeros, and its difficulty.
   */
  lemma SealBytesHoldFields(h: BlockHeader, nonce: nat)
    requires InRange(h, nonce)
    ensures var e, n := Encoded(Built(h, nonce)), |BigEndian(h.height)|;
            && 164 + n <= |e|
            && e[..32] == BytesToHash(h.prevHash) && e[32..52] == DecodeMinerAddress(h.minerAddress)
            && e[52..84] == CopiedHash(h.stateRoot) && e[84..116] == BytesToHash(h.merkleRoot)
            && BigNumber(e[116..116 + n]) == h.height
            && BigNumber(e[116 + n..124 + n]) == 0
            && BigNumber(e[124 + n..132 + n]) == (if h.timestamp < 0 then h.timestamp + TWO64 else h.timestamp)
            && LittleNumber(e[132 + n..140 + n]) == nonce
            && (forall i :: 140 + n <= i < 164 + n ==> e[i] == 0)
            && BigNumber(e[164 + n..]) == Magnitude(h.difficulty)
  {
    var b, n := Built(h, nonce), |BigEndian(h.height)|;
    TimestampBits(h.timestamp);
    EncodedHoldsFields(b);
    NonceAt(Encoded(b), nonce, 132 + n);
  }

  lemma NonceAt(e: seq<byte>, nonce: nat, at: nat)
    requires nonce < TWO64 && at + 32 <= |e| && e[at..at + 32] == NonceBytes(nonce)
    ensures LittleNumber(e[at..at + 8]) == nonce && forall i :: at + 8 <= i < at + 32 ==> e[i] == 0
  {
    NonceReads(nonce);
    assert e[at..at + 32][..8] == e[at..at + 8];
    forall i | at + 8 <= i < at + 32
      ensures e[i] == 0
    {
      assert e[i] == e[at..at + 32][i - at];
    }
  }

  lemma TimestampBits(t: int)
    requires -TWO64 / 2 <= t < TWO64 / 2
    ensures t % TWO64 == if t < 0 then t + TWO64 else t
  {
  }

  lemma NonceReads(nonce: nat)
    requires nonce < TWO64
    ensures LittleNumber(NonceBytes(nonce)[..8]) == nonce
    ensures forall i :: 8 <= i < 32 ==> NonceBytes(nonce)[i] == 0
  {
    var low := PutLittleEndian(nonce, 8);
    assert NonceBytes(nonce)[..8] == low;
    EightBytes(|low|);
    NumberOfLittleEndian(nonce, |low|);
  }

  /** What the source's types promise: 64-bit height and nonce, signed 64-bit timestamp. */
  ghost predicate InRange(h: BlockHeader, nonce: nat) {
    h.height < TWO64 && nonce < TWO64 && -TWO64 / 2 <= h.timestamp < TWO64 / 2
  }

  /** The fields that reach the encoding, as the miner was given them. */
  ghost predicate SameFields(h: BlockHeader, m: nat, g: BlockHeader, n: nat) {
    && BytesToHash(h.prevHash) == BytesToHash(g.prevHash)
    && DecodeMinerAddress(h.minerAddress) == DecodeMinerAddress(g.minerAddress)
    && CopiedHash(h.stateRoot) == CopiedHash(g.stateRoot)
    && BytesToHash(h.merkleRoot) == BytesToHash(g.merkleRoot)
    && h.height == g.height && h.timestamp == g.timestamp && m == n
    && Magnitude(h.difficulty) == Magnitude(g.difficulty)
  }

  // ---- Injectivity ----

  lemma LowByteInjective(m: nat, n: nat)
    ensures LowByte(m) == LowByte(n) <==> m % 0x100 == n % 0x100
  {
    ValueOfLowByte(m);
    ValueOfLowByte(n);
  }

  lemma BigEndianInjective(m: nat, n: nat)
    requires BigEndian(m) == BigEndian(n)
    ensures m == n
  {
    NumberOfBigEndian(m);
    NumberOfBigEndian(n);
  }

  lemma {:induction false} BigEndianMinimal(n: nat)
    ensures |BigEndian(n)| > 0 ==> BigEndian(n)[0] != 0
  {
    if n > 0 {
      BigEndianMinimal(n / 0x100);
      if n < 0x100 {
        assert n / 0x100 == 0;
        assert LowByte(0) == 0;
        LowByteInjective(n, 0);
      }
    }
  }

  lemma {:induction false} BigEndianLength(n: nat, k: nat)
    requires n < Power256(k)
    ensures |BigEndian(n)| <= k
  {
    if n > 0 {
      BigEndianLength(n / 0x100, k - 1);
    }
  }

  lemma PutBigEndianInjective(m: nat, n: nat, k: nat)
    requires m < Power256(k) && n < Power256(k)
    requires PutBigEndian(m, k) == PutBigEndian(n, k)
    ensures m == n
  {
    NumberOfPutBigEndian(m, k);
    NumberOfPutBigEndian(n, k);
  }

  lemma PutLittleEndianInjective(m: nat, n: nat, k: nat)
    requires m < Power256(k) && n < Power256(k)
    requires PutLittleEndian(m, k) == PutLittleEndian(n, k)
    ensures m == n
  {
    NumberOfLittleEndian(m, k);
    NumberOfLittleEndian(n, k);
  }

  /** The encoding of a built header, with its parts apart. */
  ghost function Layout(fixed: seq<byte>, number: seq<byte>, middle: seq<byte>, zeros: seq<byte>, difficulty: seq<byte>): seq<byte> {
    fixed + number + middle + zeros + difficulty
  }

  ghost predicate WellLaidOut(fixed: seq<byte>, number: seq<byte>, middle: seq<byte>, zeros: seq<byte>, difficulty: seq<byte>) {
    && |fixed| == 116 && |number| <= 8 && |middle| == 24 && |zeros| == 24
    && (forall i :: 0 <= i < 24 ==> zeros[i] == 0)
    && (|difficulty| > 0 ==> difficulty[0] != 0)
  }

  lemma LayoutTail(f: seq<byte>, n: seq<byte>, m: seq<byte>, z: seq<byte>, d: seq<byte>, i: nat)
    requires WellLaidOut(f, n, m, z, d) && |f| + |n| + 24 <= i
    ensures var x := Layout(f, n, m, z, d);
            |x| == |f| + |n| + 48 + |d|
            && (i < |f| + |n| + 48 ==> x[i] == 0)
            && (|d| > 0 ==> x[|f| + |n| + 48] != 0)
  {
    var x := Layout(f, n, m, z, d);
    if i < |f| + |n| + 48 {
      assert x[i] == z[i - (|f| + |n| + 24)];
    }
  }

  /** The number cannot be shorter: the first difficulty byte would fall on a zero of the nonce. */
  lemma NumberNotShorter(f1: seq<byte>, n1: seq<byte>, m1: seq<byte>, z1: seq<byte>, d1: seq<byte>,
                         f2: seq<byte>, n2: seq<byte>, m2: seq<byte>, z2: seq<byte>, d2: seq<byte>)
    requires WellLaidOut(f1, n1, m1, z1, d1) && WellLaidOut(f2, n2, m2, z2, d2)
    requires Layout(f1, n1, m1, z1, d1) == Layout(f2, n2, m2, z2, d2)
    ensures |n1| >= |n2|
  {
    var at := 116 + |n1| + 48;
    LayoutTail(f1, n1, m1, z1, d1, at);
    if |n1| < |n2| {
      LayoutTail(f2, n2, m2, z2, d2, at);
    }
  }

  lemma LayoutInjective(f1: seq<byte>, n1: seq<byte>, m1: seq<byte>, z1: seq<byte>, d1: seq<byte>,
                        f2: seq<byte>, n2: seq<byte>, m2: seq<byte>, z2: seq<byte>, d2: seq<byte>)
    requires WellLaidOut(f1, n1, m1, z1, d1) && WellLaidOut(f2, n2, m2, z2, d2)
    requires Layout(f1, n1, m1, z1, d1) == Layout(f2, n2, m2, z2, d2)
    ensures f1 == f2 && n1 == n2 && m1 == m2 && d1 == d2
  {
    NumberNotShorter(f1, n1, m1, z1, d1, f2, n2, m2, z2, d2);
    NumberNotShorter(f2, n2, m2, z2, d2, f1, n1, m1, z1, d1);
    var x1, x2 := Layout(f1, n1, m1, z1, d1), Layout(f2, n2, m2, z2, d2);
    var k := |n1|;
    assert x1[..116] == f1 && x2[..116] == f2;
    assert x1[116..116 + k] == n1 && x2[116..116 + k] == n2;
    assert x1[116 + k..140 + k] == m1 && x2[116 + k..140 + k] == m2;
    assert x1[164 + k..] == d1 && x2[164 + k..] == d2;
  }

  ghost function Fixed(h: BlockHeader): (f: seq<byte>)
    ensures |f| == 116
  {
    BytesToHash(h.prevHash) + DecodeMinerAddress(h.minerAddress) + CopiedHash(h.stateRoot) + BytesToHash(h.merkleRoot)
  }

  ghost function Middle(h: BlockHeader, nonce: nat): (m: seq<byte>)
    ensures |m| == 24
  {
    PutBigEndian(0, 8) + PutBigEndian(h.timestamp % TWO64, 8) + PutLittleEndian(nonce, 8)
  }

  lemma BuiltLayout(h: BlockHeader, nonce: nat)
    requires InRange(h, nonce)
    ensures Encoded(Built(h, nonce)) == Layout(Fixed(h), BigEndian(h.height), Middle(h, nonce), seq(24, _ => 0),
                                               BigEndian(Magnitude(h.difficulty)))
    ensures WellLaidOut(Fixed(h), BigEndian(h.height), Middle(h, nonce), seq(24, _ => 0),
                        BigEndian(Magnitude(h.difficulty)))
  {
    var k := 8;
    EightBytes(k);
    BigEndianLength(h.height, k);
    BigEndianMinimal(Magnitude(h.difficulty));
    Regroup(Fixed(h), BigEndian(h.height), PutBigEndian(0, 8), PutBigEndian(h.timestamp % TWO64, 8),
            PutLittleEndian(nonce, 8), seq(24, _ => 0), BigEndian(Magnitude(h.difficulty)));
  }

  lemma Regroup(fixed: seq<byte>, number: seq<byte>, gas: seq<byte>, time: seq<byte>, nonce: seq<byte>, zeros: seq<byte>,
                difficulty: seq<byte>)
    ensures fixed + number + gas + time + [] + (nonce + zeros) + difficulty
         == fixed + number + (gas + time + nonce) + zeros + difficulty
  {
  }

  lemma FourParts(a: Hash, b: Address, c: Hash, d: Hash, e: Hash, f: Address, g: Hash, h: Hash)
    requires a + b + c + d == e + f + g + h
    ensures a == e && b == f && c == g && d == h
  {
    var x, y := a + b + c + d, e + f + g + h;
    assert x[..32] == a && y[..32] == e;
    assert x[32..52] == b && y[32..52] == f;
    assert x[52..84] == c && y[52..84] == g;
    assert x[84..] == d && y[84..] == h;
  }

  lemma SameFixed(h: BlockHeader, g: BlockHeader)
    requires Fixed(h) == Fixed(g)
    ensures BytesToHash(h.prevHash) == BytesToHash(g.prevHash)
    ensures DecodeMinerAddress(h.minerAddress) == DecodeMinerAddress(g.minerAddress)
    ensures CopiedHash(h.stateRoot) == CopiedHash(g.stateRoot)
    ensures BytesToHash(h.merkleRoot) == BytesToHash(g.merkleRoot)
  {
    FourParts(BytesToHash(h.prevHash), DecodeMinerAddress(h.minerAddress), CopiedHash(h.stateRoot), BytesToHash(h.merkleRoot),
              BytesToHash(g.prevHash), DecodeMinerAddress(g.minerAddress), CopiedHash(g.stateRoot), BytesToHash(g.merkleRoot));
  }

  lemma EightByteParts(a: seq<byte>, b: seq<byte>, c: seq<byte>, d: seq<byte>, e: seq<byte>, f: seq<byte>)
    requires |a| == |b| == |c| == |d| == |e| == |f| == 8
    requires a + b + c == d + e + f
    ensures b == e && c == f
  {
    var x, y := a + b + c, d + e + f;
    assert b == x[8..16] && e == y[8..16];
    assert c == x[16..] && f == y[16..];
  }

  lemma SameMiddle(h: BlockHeader, m: nat, g: BlockHeader, n: nat)
    requires InRange(h, m) && InRange(g, n) && Middle(h, m) == Middle(g, n)
    ensures h.timestamp == g.timestamp && m == n
  {
    var t, u := h.timestamp % TWO64, g.timestamp % TWO64;
    EightByteParts(PutBigEndian(0, 8), PutBigEndian(t, 8), PutLittleEndian(m, 8),
                   PutBigEndian(0, 8), PutBigEndian(u, 8), PutLittleEndian(n, 8));
    SameNumbers(t, u, m, n, 8);
    SameTimestamp(h.timestamp, g.timestamp);
  }

  lemma SameTimestamp(t: int, u: int)
    requires -TWO64 / 2 <= t < TWO64 / 2 && -TWO64 / 2 <= u < TWO64 / 2 && t % TWO64 == u % TWO64
    ensures t == u
  {
    assert t % TWO64 == if t < 0 then t + TWO64 else t;
    assert u % TWO64 == if u < 0 then u + TWO64 else u;
  }

  lemma SameNumbers(t: nat, u: nat, m: nat, n: nat, k: nat)
    requires PutBigEndian(t, k) == PutBigEndian(u, k) && PutLittleEndian(m, k) == PutLittleEndian(n, k)
    requires t < TWO64 && u < TWO64 && m < TWO64 && n < TWO64 && k == 8
    ensures t == u && m == n
  {
    EightBytes(k);
    PutBigEndianInjective(t, u, k);
    PutLittleEndianInjective(m, n, k);
  }

  /**
   Two headers the miner builds have the same encoding exactly when every field that reaches it is
   the same, the difficulty up to its sign (and nil counting as zero).
   */
  lemma EncodingInjective(h: BlockHeader, m: nat, g: BlockHeader, n: nat)
    requires InRange(h, m) && InRange(g, n)
    ensures Encoded(Built(h, m)) == Encoded(Built(g, n)) <==> SameFields(h, m, g, n)
  {
    if Encoded(Built(h, m)) == Encoded(Built(g, n)) {
      BuiltLayout(h, m);
      BuiltLayout(g, n);
      LayoutInjective(Fixed(h), BigEndian(h.height), Middle(h, m), seq(24, _ => 0), BigEndian(Magnitude(h.difficulty)),
                      Fixed(g), BigEndian(g.height), Middle(g, n), seq(24, _ => 0), BigEndian(Magnitude(g.difficulty)));
      SameFixed(h, g);
      SameMiddle(h, m, g, n);
      BigEndianInjective(h.height, g.height);
      BigEndianInjective(Magnitude(h.difficulty), Magnitude(g.difficulty));
    }
  }

  /** Without the zero tail of the nonce the encoding is not injective: Extra can take a zero from it. */
  lemma ArbitraryHeadersCollide(h: Header)
    ensures var a := h.(extra := [0], nonce := seq(31, _ => 0) + [1], difficulty := Some(0));
            var b := h.(extra := [], nonce := seq(32, _ => 0), difficulty := Some(1));
            a != b && Encoded(a) == Encoded(b)
  {
    var a := h.(extra := [0], nonce := seq(31, _ => 0) + [1], difficulty := Some(0));
    var b := h.(extra := [], nonce := seq(32, _ => 0), difficulty := Some(1));
    assert BigEndian(1) == [1] by {
      assert BigEndian(1) == BigEndian(0) + [LowByte(1)];
      assert LowByte(1) == 1;
    }
    SameTail(a.extra, a.nonce, b.nonce);
    SameEncoding(a, b);
  }

  lemma SameTail(extra: seq<byte>, a: seq<byte>, b: seq<byte>)
    requires extra == [0] && a == seq(31, _ => 0) + [1] && b == seq(32, _ => 0)
    ensures extra + a + [] == [] + b + [1]
  {
  }

  lemma SameEncoding(a: Header, b: Header)
    requires a == b.(extra := a.extra, nonce := a.nonce, difficulty := a.difficulty)
    requires a.extra + a.nonce + BigEndian(Magnitude(a.difficulty)) == b.extra + b.nonce + BigEndian(Magnitude(b.difficulty))
    ensures Encoded(a) == Encoded(b)
  {
    var front := Front(a) + PutBigEndian(a.gasLimit, 8) + PutBigEndian(a.time, 8);
    assert Encoded(a) == front + (a.extra + a.nonce + BigEndian(Magnitude(a.difficulty)));
    assert Encoded(b) == front + (b.extra + b.nonce + BigEndian(Magnitude(b.difficulty)));
  }

  // ---- The miner address ----

  function HexDigit(c: byte): Option<byte> {
    if 48 <= c <= 57 then Some(c - 48)
    else if 97 <= c <= 102 then Some(c - 87)
    else if 65 <= c <= 70 then Some(c - 55)
    else None
  }

  /** Two digits a byte; an odd length or any other character is an error. */
  function HexDecode(s: seq<byte>): (r: Option<seq<byte>>)
    ensures r.Some? ==> |s| == 2 * |r.value|
  {
    if |s| == 0 then Some([])
    else if |s| == 1 then None
    else
      match (HexDigit(s[0]), HexDigit(s[1]), HexDecode(s[2..]))
      case (Some(hi), Some(lo), Some(rest)) => Some([(hi << 4) | lo] + rest)
      case _ => None
  }

  const PREFIX: seq<byte> := [78, 79, 71, 79]

  /** Strip "NOGO", decode the hex digits, keep 20 bytes; the zero address on any error. */
  function DecodeMinerAddress(b: seq<byte>): Address {
    var encoded := if |b| >= 4 && b[..4] == PREFIX then b[4..] else b;
    var decoded := HexDecode(encoded);
    if decoded.Some? && |decoded.value| >= 20 then decoded.value[..20] else seq(20, _ => 0)
  }

  function HexChar(n: byte): byte {
    if n < 10 then 48 + n else 87 + n
  }

  function HexEncode(b: seq<byte>): (s: seq<byte>)
    ensures |s| == 2 * |b|
  {
    if |b| == 0 then [] else [HexChar(b[0] >> 4), HexChar(b[0] & 0xf)] + HexEncode(b[1..])
  }

  lemma HexByte(b: byte)
    ensures HexDigit(HexChar(b >> 4)) == Some(b >> 4) && HexDigit(HexChar(b & 0xf)) == Some(b & 0xf)
    ensures ((b >> 4) << 4) | (b & 0xf) == b
  {
  }

  /** Two hex digits, of either case, are a byte, the first digit the higher one. */
  lemma HexPair(i: byte, j: byte)
    requires i < 16 && j < 16
    ensures HexDecode([if i < 10 then 48 + i else 87 + i, if j < 10 then 48 + j else 87 + j]) == Some([16 * i + j])
    ensures HexDecode([if i < 10 then 48 + i else 55 + i, if j < 10 then 48 + j else 55 + j]) == Some([16 * i + j])
  {
    assert (i << 4) | j == 16 * i + j;
    OnePair(if i < 10 then 48 + i else 87 + i, if j < 10 then 48 + j else 87 + j, i, j);
    OnePair(if i < 10 then 48 + i else 55 + i, if j < 10 then 48 + j else 55 + j, i, j);
  }

  lemma OnePair(a: byte, b: byte, i: byte, j: byte)
    requires HexDigit(a) == Some(i) && HexDigit(b) == Some(j)
    ensures HexDecode([a, b]) == Some([(i << 4) | j])
  {
    assert [a, b][2..] == [];
    assert HexDecode([a, b][2..]) == Some([]);
    assert [(i << 4) | j] + [] == [(i << 4) | j];
  }

  lemma HeadAndTail(b: seq<byte>, r: seq<byte>)
    requires |b| > 0
    ensures [b[0]] + (b[1..] + r) == b + r
  {
  }

  lemma HexEncodeFirst(b: seq<byte>, rest: seq<byte>)
    requires |b| > 0
    ensures HexEncode(b) + rest == [HexChar(b[0] >> 4), HexChar(b[0] & 0xf)] + (HexEncode(b[1..]) + rest)
  {
  }

  lemma HexFirst(b: byte, s: seq<byte>, rest: seq<byte>)
    requires s == [HexChar(b >> 4), HexChar(b & 0xf)] + rest && HexDecode(rest).Some?
    ensures HexDecode(s) == Some([b] + HexDecode(rest).value)
  {
    HexByte(b);
    assert s[2..] == rest;
  }

  lemma {:induction false} HexRoundTrip(b: seq<byte>, rest: seq<byte>)
    requires HexDecode(rest).Some?
    ensures HexDecode(HexEncode(b) + rest) == Some(b + HexDecode(rest).value)
  {
    if |b| == 0 {
      assert HexEncode(b) + rest == rest;
      assert b + HexDecode(rest).value == HexDecode(rest).value;
    } else {
      HexRoundTrip(b[1..], rest);
      HexEncodeFirst(b, rest);
      HexFirst(b[0], HexEncode(b) + rest, HexEncode(b[1..]) + rest);
      HeadAndTail(b, HexDecode(rest).value);
    }
  }

  /** The address survives its textual form, with the prefix and any checksum digits after it. */
  lemma AddressRoundTrip(a: Address, rest: seq<byte>)
    requires HexDecode(rest).Some?
    ensures DecodeMinerAddress(PREFIX + HexEncode(a) + rest) == a
  {
    var text := PREFIX + HexEncode(a) + rest;
    assert text[..4] == PREFIX && text[4..] == HexEncode(a) + rest;
    HexRoundTrip(a, rest);
  }

  lemma HexCharIsNotPrefix(b: byte)
    ensures HexChar(b >> 4) != PREFIX[0]
  {
  }

  /** So it does without the prefix. */
  lemma BareAddressRoundTrip(a: Address, rest: seq<byte>)
    requires HexDecode(rest).Some?
    ensures DecodeMinerAddress(HexEncode(a) + rest) == a
  {
    var text := HexEncode(a) + rest;
    HexCharIsNotPrefix(a[0]);
    assert text[0] == HexEncode(a)[0] == HexChar(a[0] >> 4);
    assert text[..4][0] != PREFIX[0];
    HexRoundTrip(a, rest);
  }

  /** Text that does not decode, or decodes to fewer than 20 bytes, gives the zero address. */
  lemma UnreadableAddressIsZero(text: seq<byte>, i: nat)
    requires i < 20
    requires HexDecode(text).None? || |HexDecode(text).value| < 20
    ensures DecodeMinerAddress(PREFIX + text)[i] == 0
    ensures |text| < 4 || text[..4] != PREFIX ==> DecodeMinerAddress(text)[i] == 0
  {
    assert (PREFIX + text)[..4] == PREFIX && (PREFIX + text)[4..] == text;
  }
}
