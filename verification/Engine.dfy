/**
 The engine: the whole proof-of-work pipeline from a header and a nonce to a hash, and `Mine`.

 `PowOf` composes the specifications of the stages.  `ComputeBlockHash` runs the stages and
 returns exactly that, whatever the state of the seed cache; `Mine` scans nonces with it.
 */
module Engine {
  import opened Words
  import opened Salsa
  import opened ROMix
  import opened SeedCache
  import opened MatrixChain
  import opened BlockedProduct
  import opened Saturating
  import opened Fold
  import opened Header
  import opened Target
  import opened Scan

  /** Table rows, chunks and matrix side agree with each other and with the fixed word count. */
  ghost predicate Sized(rows: nat, chunks: nat, side: nat) {
    && 1 <= rows && side <= MAX_SIDE
    && chunks * (32 * rows) == CACHE_WORDS
    && side * side == AREA
  }

  ghost function CacheOf(keccak: Keccak, mix: Mixing, seed: Hash, rows: nat, chunks: nat): (cache: seq<word>)
    requires 1 <= rows && chunks * (32 * rows) == CACHE_WORDS
    ensures |cache| == CACHE_WORDS
  {
    ChunksLength(mix, FirstRow(keccak, seed), rows, chunks);
    SeedWords(keccak, mix, seed, rows, chunks)
  }

  /** The result matrix for a header hash and a cache. */
  ghost function ResultOf(keccak: Keccak, headerHash: Hash, cache: seq<word>, side: nat): (r: seq<byte>)
    requires |cache| == CACHE_WORDS && side * side == AREA
    ensures |r| == AREA
  {
    ResultRows(ChainResults(keccak, headerHash, Regrouped(cache), side), side, side)
  }

  /** The proof of work for a header hash and a seed. */
  ghost function PowOf(keccak: Keccak, mix: Mixing, fnv: Combine, rows: nat, chunks: nat, side: nat,
                       headerHash: Hash, seed: Hash): Hash
    requires Sized(rows, chunks, side)
  {
    MatrixHash(keccak, fnv, ResultOf(keccak, headerHash, CacheOf(keccak, mix, seed, rows, chunks), side))
  }

  ghost function SealOf(keccak: Keccak, header: BlockHeader, nonce: nat): Hash {
    keccak(Encoded(Built(header, nonce)))
  }

  /**
   The hash of a header and a nonce, with all stages in place: the cache comes from the parent hash, the
   four chains from the seal hash, and the last hash is of the column roots of the result.
   */
  lemma BlockHashStages(keccak: Keccak, mix: Mixing, fnv: Combine, rows: nat, chunks: nat, side: nat,
                        header: BlockHeader, nonce: nat, seed: Hash, seal: Hash, cache: seq<word>, ms: seq<Matrix>, result: seq<byte>)
    requires Sized(rows, chunks, side)
    requires seed == BytesToHash(header.prevHash) && seal == keccak(Encoded(Built(header, nonce)))
    requires cache == SeedWords(keccak, mix, seed, rows, chunks) && |cache| == CACHE_WORDS
    requires |ms| == 4 && forall c: nat :: c < 4 ==> ms[c] == ChainResult(keccak, seal, Regrouped(cache), side, c)
    requires AllInt8(ms, side) && result == ResultRows(ms, side, side)
    ensures PowOfHeader(keccak, mix, fnv, rows, chunks, side, header, nonce) == keccak(EncodeWords(FinalWords(fnv, result)))
  {
    assert ms == ChainResults(keccak, seal, Regrouped(cache), side);
  }

  /** The proof of work for a header and a nonce. */
  ghost function PowOfHeader(keccak: Keccak, mix: Mixing, fnv: Combine, rows: nat, chunks: nat, side: nat,
                             header: BlockHeader, nonce: nat): Hash
    requires Sized(rows, chunks, side)
  {
    PowOf(keccak, mix, fnv, rows, chunks, side, SealOf(keccak, header, nonce), BytesToHash(header.prevHash))
  }

  /**
   The regrouped cache of a seed in closed form: word group j of matrix 2i + p, which is half a row,
   is the (2j + p)-fold BlockMix of the i-fold ROMix of the Keccak-extended seed.
   */
  lemma MatrixClosedForm(keccak: Keccak, mix: Mixing, seed: Hash, rows: nat, chunks: nat, cache: seq<word>,
                         i: nat, p: nat, j: nat)
    requires 32 * rows == 32768 && chunks * (32 * rows) == CACHE_WORDS
    requires cache == SeedWords(keccak, mix, seed, rows, chunks) && |cache| == CACHE_WORDS
    requires i < 128 && p < 2 && j < 512
    ensures Group(cache, i, p, j) == Power(mix, ChunkSeed(mix, FirstRow(keccak, seed), rows, i), 2 * j + p)
  {
    var k := 2 * j + p;
    CacheRowAt(keccak, mix, seed, rows, chunks, cache, i, k);
    GroupIs(cache, i, p, j, k, Power(mix, ChunkSeed(mix, FirstRow(keccak, seed), rows, i), k));
  }

  /**
   And entry by entry: entry (r, 128 half + 4w + k) of matrix 2i + p, one of the matrices the chains
   multiply with, is byte k of word w, as a signed byte, of the (2j + p)-fold BlockMix of the i-fold
   ROMix of the Keccak-extended seed, where j = 2r + half: it lies between -128 and 127 and is
   congruent to the byte modulo 256.
   */
  lemma EntryClosedForm(keccak: Keccak, mix: Mixing, seed: Hash, rows: nat, chunks: nat, side: nat, cache: seq<word>,
                        i: nat, p: nat, r: nat, half: nat, w: nat, k: nat, j: nat)
    requires 32 * rows == 32768 && chunks * (32 * rows) == CACHE_WORDS && side == 256
    requires cache == SeedWords(keccak, mix, seed, rows, chunks) && |cache| == CACHE_WORDS
    requires i < 128 && p < 2 && r < 256 && half < 2 && w < 32 && k < 4 && j == 2 * r + half
    ensures IsSignedByte(MatrixOf(Regrouped(cache), side, 2 * i + p)[r][128 * half + 4 * w + k],
                         ByteOf(Power(mix, ChunkSeed(mix, FirstRow(keccak, seed), rows, i), 2 * j + p)[w], k))
  {
    MatrixClosedForm(keccak, mix, seed, rows, chunks, cache, i, p, j);
    EntryFromRow(cache, side, i, p, r, half, w, k, j, Power(mix, ChunkSeed(mix, FirstRow(keccak, seed), rows, i), 2 * j + p));
  }

  lemma CacheRowAt(keccak: Keccak, mix: Mixing, seed: Hash, rows: nat, chunks: nat, cache: seq<word>, i: nat, k: nat)
    requires 32 * rows == 32768 && chunks * (32 * rows) == CACHE_WORDS && i < 128 && k < 1024
    requires cache == SeedWords(keccak, mix, seed, rows, chunks) && |cache| == CACHE_WORDS
    ensures RowAt(cache, 1024 * i + k) == Power(mix, ChunkSeed(mix, FirstRow(keccak, seed), rows, i), k)
  {
    assert 32768 * i == i * (32 * rows);
    assert 32 * (1024 * i + k) == 32768 * i + 32 * k;
    CacheRowClosedForm(keccak, mix, seed, rows, chunks, i, k, 32768 * i);
  }

  datatype MiningResult = MiningResult(nonce: nat, blockHash: seq<byte>, success: bool, hashesTried: nat)

  /** What `Mine` reports for an outcome of the scan. */
  ghost function ResultFor(pow: nat -> Hash, o: Outcome, tried: nat): MiningResult {
    match o
    case Found(n) => MiningResult(n, pow(n), true, tried)
    case Stopped(n) => MiningResult(n, [], false, tried)
    case Exhausted => MiningResult(MAX_NONCE, [], false, tried)
  }

  /** What one call makes of the counters and reports, from what its loop leaves behind. */
  lemma CallMeaning(s: Counters, c: Call, pow: nat -> Hash, lastN: nat, hashCount: nat, r: MiningResult)
    requires var start := Start(s.lastNonce, c.clock);
             var o := ScanFrom(c.pass, c.stop, start);
             && lastN == LastN(o) && r == ResultFor(pow, o, r.hashesTried)
             && start + r.hashesTried == EndOf(o, start)
             && hashCount + (if o.Found? then 1 else 0) == s.hashCount + r.hashesTried
    ensures After(s, c) == Counters(if lastN > s.lastNonce then lastN else s.lastNonce, hashCount)
    ensures r == ResultFor(pow, OutcomeOf(s, c), Tried(s, c))
  {
  }

  /**
   A truthful report of a call from `start` on.  A success names the least nonce from there on that passes,
   with its own hash; a failure has no hash; and in both cases `hashesTried` counts the nonces
   evaluated, of which no other passes.
   */
  ghost predicate Truthful(r: MiningResult, pow: nat -> Hash, pass: nat -> bool, stop: nat -> bool, start: nat) {
    && (r.success ==> start <= r.nonce < MAX_NONCE && pass(r.nonce) && r.blockHash == pow(r.nonce)
                      && r.hashesTried == r.nonce - start + 1)
    && (!r.success ==> r.blockHash == []
                       && if start < MAX_NONCE then start <= r.nonce <= MAX_NONCE && r.hashesTried == r.nonce - start
                          else r.nonce == MAX_NONCE && r.hashesTried == 0)
    && (!r.success && r.nonce < MAX_NONCE ==> stop(r.nonce))
    && (forall k: nat :: start <= k < r.nonce && k < MAX_NONCE ==> !pass(k) && !stop(k))
  }

  lemma ReportIsTruthful(pow: nat -> Hash, pass: nat -> bool, stop: nat -> bool, start: nat, r: MiningResult)
    requires var o := ScanFrom(pass, stop, start);
             r == ResultFor(pow, o, r.hashesTried) && start + r.hashesTried == EndOf(o, start)
    ensures Truthful(r, pow, pass, stop, start)
  {
    ScanMeaning(pass, stop, start);
  }

  class Engine {
    const keccak: Keccak
    const side: nat
    const cache: Cache
    ghost const fnv: Combine
    var running: bool
    var lastNonce: nat
    var hashCount: nat

    ghost predicate Valid()
      reads this, cache
    {
      && cache.Valid() && cache.keccak == keccak && IsFnv(fnv)
      && Sized(cache.n, cache.chunks, side)
      && lastNonce <= MAX_NONCE
    }

    ghost function Counts(): Counters
      reads this
    {
      Counters(lastNonce, hashCount)
    }

    /** The hash this engine computes, in terms of its configuration alone. */
    ghost function Pow(header: BlockHeader, nonce: nat): Hash
      requires Sized(cache.n, cache.chunks, side)
    {
      PowOfHeader(keccak, cache.mix, fnv, cache.n, cache.chunks, side, header, nonce)
    }

    ghost function Passes(header: BlockHeader): nat -> bool
      requires Sized(cache.n, cache.chunks, side)
    {
      (nonce: nat) => Meets(Pow(header, nonce), header.difficulty)
    }

    /** The configuration of the repository: 1024 table rows, 128 chunks, 256 x 256 matrices. */
    constructor (keccak: Keccak)
      ensures Valid() && !running && Counts() == Counters(0, 0)
      ensures this.keccak == keccak && side == 256 && fnv == FnvCombine()
      ensures cache.n == 1024 && cache.chunks == 128 && cache.mix == ScryptMix(Salsa208)
    {
      this.keccak := keccak;
      side := 256;
      cache := new Cache(keccak, 1024, 128);
      fnv := FnvCombine();
      running, lastNonce, hashCount := false, 0, 0;
      new;
      FnvIsFnv();
    }

    method ComputePoW(headerHash: Hash, seed: Hash) returns (h: Hash)
      requires Valid()
      modifies cache
      ensures Valid()
      ensures h == PowOf(keccak, cache.mix, fnv, cache.n, cache.chunks, side, headerHash, seed)
    {
      var data := cache.GetData(seed);
      ChunksLength(cache.mix, FirstRow(keccak, seed), cache.n, cache.chunks);
      assert data == CacheOf(keccak, cache.mix, seed, cache.n, cache.chunks);
      var result := MulMatrix(keccak, headerHash, data, side);
      h := HashMatrix(keccak, result, fnv);
    }

    method SealHash(header: BlockHeader, nonce: nat) returns (h: Hash)
      ensures h == SealOf(keccak, header, nonce)
    {
      var w := new Writer();
      RlpEncode(w, Built(header, nonce));
      assert w.written == Encoded(Built(header, nonce));
      h := keccak(w.written);
    }

    method ComputeBlockHash(header: BlockHeader, nonce: nat) returns (h: Hash)
      requires Valid()
      modifies cache
      ensures Valid()
      ensures h == Pow(header, nonce)
    {
      var sealHash := SealHash(header, nonce);
      h := ComputePoW(sealHash, BytesToHash(header.prevHash));
    }

    /** `pow` and `pass` are this engine's hash and test for the header, kept folded. */
    ghost predicate Agrees(header: BlockHeader, pow: nat -> Hash, pass: nat -> bool)
      requires Sized(cache.n, cache.chunks, side)
    {
      forall n: nat {:trigger Pow(header, n)} ::
        pow(n) == Pow(header, n) && pass(n) == Meets(Pow(header, n), header.difficulty)
    }

    ghost function Hashes(header: BlockHeader): nat -> Hash
      requires Sized(cache.n, cache.chunks, side)
    {
      (nonce: nat) => Pow(header, nonce)
    }

    method TryNonce(header: BlockHeader, nonce: nat, ghost pow: nat -> Hash, ghost pass: nat -> bool)
      returns (blockHash: Hash, meets: bool)
      requires Valid() && Agrees(header, pow, pass)
      modifies cache
      ensures Valid() && blockHash == pow(nonce) && meets == pass(nonce)
    {
      blockHash := ComputeBlockHash(header, nonce);
      meets := Meets(blockHash, header.difficulty);
    }

    /** The nonce loop. */
    method ScanLoop(header: BlockHeader, stop: nat -> bool, start: nat, ghost pow: nat -> Hash, ghost pass: nat -> bool)
      returns (lastN: nat, r: MiningResult)
      requires Valid() && Agrees(header, pow, pass)
      modifies this`hashCount, cache
      ensures Valid()
      ensures var o := ScanFrom(pass, stop, start);
              && lastN == LastN(o)
              && r == ResultFor(pow, o, r.hashesTried)
              && start + r.hashesTried == EndOf(o, start)
              && hashCount + (if o.Found? then 1 else 0) == old(hashCount) + r.hashesTried
    {
      var localHashCount := 0;
      var nonce := start;
      while nonce < MAX_NONCE
        invariant Valid()
        invariant nonce == start + localHashCount && (nonce <= MAX_NONCE || nonce == start)
        invariant hashCount == old(hashCount) + localHashCount
        invariant ScanFrom(pass, stop, start) == ScanFrom(pass, stop, nonce)
        decreases MAX_NONCE - nonce
      {
        if stop(nonce) {
          return nonce, MiningResult(nonce, [], false, localHashCount);
        }
        var blockHash, meets := TryNonce(header, nonce, pow, pass);
        localHashCount := localHashCount + 1;
        if meets {
          return nonce + 1, MiningResult(nonce, blockHash, true, localHashCount);
        }
        hashCount := hashCount + 1;
        nonce := nonce + 1;
      }
      return 0, MiningResult(MAX_NONCE, [], false, localHashCount);
    }

    /** The nonce loop, and that its report is truthful. */
    method ScanTruthfully(header: BlockHeader, stop: nat -> bool, start: nat, ghost pow: nat -> Hash, ghost pass: nat -> bool)
      returns (lastN: nat, r: MiningResult)
      requires Valid() && Agrees(header, pow, pass)
      modifies this`hashCount, cache
      ensures Valid()
      ensures var o := ScanFrom(pass, stop, start);
              && lastN == LastN(o)
              && r == ResultFor(pow, o, r.hashesTried)
              && start + r.hashesTried == EndOf(o, start)
              && hashCount + (if o.Found? then 1 else 0) == old(hashCount) + r.hashesTried
      ensures Truthful(r, pow, pass, stop, start)
    {
      lastN, r := ScanLoop(header, stop, start, pow, pass);
      ReportIsTruthful(pow, pass, stop, start, r);
    }

    /**
     One call.  `stop` says at which nonces the stop channel is found closed, `clock` is the time
     that chooses the first start.  A call while another one runs returns nothing.  A success names a
     nonce whose own hash it carries and passes the target test, the least one from the start on.
     */
    method Mine(header: BlockHeader, stop: nat -> bool, clock: nat) returns (r: Option<MiningResult>)
      requires Valid()
      modifies this, cache
      ensures Valid()
      ensures old(running) ==> r.None? && running && Counts() == old(Counts())
      ensures !old(running) ==>
        var c := Call(Passes(header), stop, clock);
        var s := old(Counts());
        && !running && Counts() == After(s, c)
        && r == Some(ResultFor(Hashes(header), OutcomeOf(s, c), Tried(s, c)))
        && Truthful(r.value, Hashes(header), c.pass, stop, Start(s.lastNonce, clock))
    {
      if running {
        return None;
      }
      running := true;
      ghost var s, c := Counts(), Call(Passes(header), stop, clock);
      var unused := cache.GetData(BytesToHash(header.prevHash));
      var start := Start(lastNonce, clock);
      var lastN, result := ScanTruthfully(header, stop, start, Hashes(header), Passes(header));
      CallMeaning(s, c, Hashes(header), lastN, hashCount, result);
      Finish(lastN);
      r := Some(result);
    }

    /** The deferred epilogue: `lastNonce` only ever moves forward. */
    method Finish(lastN: nat)
      requires Valid() && lastN <= MAX_NONCE
      modifies this`running, this`lastNonce
      ensures Valid() && !running
      ensures lastNonce == if lastN > old(lastNonce) then lastN else old(lastNonce)
    {
      running := false;
      if lastN > lastNonce {
        lastNonce := lastN;
      }
    }
  }
}
