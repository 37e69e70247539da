/**
 The seed cache contents: `extendBytes`, `calcSeedCache` and `GetData`.

 The seed is extended to 128 bytes by chaining Keccak-256, and then mixed `chunks` times (128 in
 the repository).  Every call of `Smix` leaves its table of `n` rows (1024 in the repository) in
 `v`, and the cache is those tables one after the other.  `CacheRowClosedForm` gives every row of
 the cache as a power of BlockMix.
 */
module SeedCache {
  import opened Arithmetic
  import opened Words
  import opened Salsa
  import opened ROMix
  import opened CacheProtocol

  // ---- extendBytes ----

  /** The seed hashed i times. */
  function HashChain(keccak: Keccak, seed: Hash, i: nat): Hash {
    if i == 0 then seed else keccak(HashChain(keccak, seed, i - 1))
  }

  /** The seed followed by its first `rounds` chained hashes. */
  function Extended(keccak: Keccak, seed: Hash, rounds: nat): (ext: seq<byte>)
    ensures |ext| == 32 * (rounds + 1)
  {
    if rounds == 0 then seed else Extended(keccak, seed, rounds - 1) + HashChain(keccak, seed, rounds)
  }

  lemma {:induction false} ExtendedAt(keccak: Keccak, seed: Hash, rounds: nat, i: nat, at: nat)
    requires i <= rounds && at == 32 * i
    ensures Extended(keccak, seed, rounds)[at..at + 32] == HashChain(keccak, seed, i)
  {
    if rounds > 0 {
      var front, last := Extended(keccak, seed, rounds - 1), HashChain(keccak, seed, rounds);
      if i < rounds {
        ExtendedAt(keccak, seed, rounds - 1, i, at);
        assert (front + last)[at..at + 32] == front[at..at + 32];
      } else {
        LastHash(front, last, at);
      }
    }
  }

  /** The first 32 bytes are the seed, and every 32 bytes after it are the hash of the 32 bytes before them. */
  lemma ExtendedIsChain(keccak: Keccak, seed: Hash, rounds: nat, i: nat)
    requires i < rounds
    ensures var ext := Extended(keccak, seed, rounds);
            ext[..32] == seed && ext[32 * i + 32..32 * i + 64] == keccak(ext[32 * i..32 * i + 32])
  {
    ExtendedAt(keccak, seed, rounds, 0, 0);
    ExtendedAt(keccak, seed, rounds, i, 32 * i);
    ExtendedAt(keccak, seed, rounds, i + 1, 32 * i + 32);
  }

  method PutHash(ext: array<byte>, at: nat, h: Hash)
    requires at + 32 <= ext.Length
    modifies ext
    ensures ext[..at + 32] == old(ext[..at]) + h
  {
    forall k | 0 <= k < 32 { ext[at + k] := h[k]; }
  }

  lemma LastHash(front: seq<byte>, h: Hash, at: nat)
    requires |front| == at
    ensures (front + h)[at..at + 32] == h
  {
  }

  method ExtendBytes(keccak: Keccak, seed: Hash, rounds: nat) returns (ext: array<byte>)
    ensures fresh(ext) && ext[..] == Extended(keccak, seed, rounds)
  {
    ext := new byte[32 * (rounds + 1)];
    forall k | 0 <= k < 32 { ext[k] := seed[k]; }
    for i := 0 to rounds
      invariant ext[..32 * (i + 1)] == Extended(keccak, seed, i)
      invariant ext[32 * i..32 * i + 32] == HashChain(keccak, seed, i)
    {
      var start := i * 32;
      var h := keccak(ext[start..start + 32]);
      ghost var before := ext[..start + 32];
      PutHash(ext, start + 32, h);
      LastHash(before, h, start + 32);
      assert ext[start + 32..start + 64] == ext[..start + 64][start + 32..];
    }
    assert ext[..] == ext[..32 * (rounds + 1)];
  }

  // ---- calcSeedCache ----

  /** The 32 words mixed by call i of `Smix`: the i-fold ROMix of the first ones. */
  ghost function ChunkSeed(mix: Mixing, b: Row, n: nat, i: nat): Row
    requires 1 <= n
    decreases i
  {
    if i == 0 then b else RomixRow(mix, ChunkSeed(mix, b, n, i - 1), n)
  }

  /** The first k rows of the table of x. */
  ghost function Table(mix: Mixing, x: Row, k: nat): (t: seq<word>)
    ensures |t| == 32 * k
  {
    if k == 0 then [] else Table(mix, x, k - 1) + Power(mix, x, k - 1)
  }

  lemma {:induction false} TableRow(mix: Mixing, x: Row, k: nat, j: nat)
    requires j < k
    ensures RowAt(Table(mix, x, k), j) == Power(mix, x, j)
  {
    if j < k - 1 {
      TableRow(mix, x, k - 1, j);
      assert RowAt(Table(mix, x, k), j) == RowAt(Table(mix, x, k - 1), j);
    }
  }

  lemma {:induction false} HeldIsTable(mix: Mixing, v: seq<word>, x: Row, k: nat)
    requires TableHolds(mix, v, x, k)
    ensures v[..32 * k] == Table(mix, x, k)
  {
    if k > 0 {
      assert TableHolds(mix, v, x, k - 1);
      HeldIsTable(mix, v, x, k - 1);
      assert v[..32 * k] == v[..32 * (k - 1)] + RowAt(v, k - 1);
    }
  }

  /** `chunks` tables one after the other. */
  ghost function Chunks(mix: Mixing, b: Row, n: nat, chunks: nat): seq<word>
    requires 1 <= n
    decreases chunks
  {
    if chunks == 0 then [] else Chunks(mix, b, n, chunks - 1) + Table(mix, ChunkSeed(mix, b, n, chunks - 1), n)
  }

  lemma {:induction false} ChunksLength(mix: Mixing, b: Row, n: nat, chunks: nat)
    requires 1 <= n
    ensures |Chunks(mix, b, n, chunks)| == chunks * (32 * n)
    decreases chunks
  {
    if chunks > 0 {
      ChunksLength(mix, b, n, chunks - 1);
      assert chunks * (32 * n) == (chunks - 1) * (32 * n) + 32 * n;
    }
  }

  lemma SliceOfSum(front: seq<word>, back: seq<word>, at: nat, width: nat)
    requires at + width <= |front| + |back| && |back| == width
    requires at + width <= |front| || at == |front|
    ensures (front + back)[at..at + width] == if at == |front| then back else front[at..at + width]
  {
  }

  lemma PlaceOfChunk(i: nat, chunks: nat, width: nat, at: nat, length: nat)
    requires i < chunks && at == i * width && length == (chunks - 1) * width
    ensures if i < chunks - 1 then at + width <= length else at == length
  {
    if i < chunks - 1 {
      ItemFits(i, chunks - 1, width);
    }
  }

  /** `all` lists the chunks one after the other. */
  ghost predicate Lists(all: nat -> seq<word>, chunk: nat -> seq<word>, width: nat) {
    && |all(0)| == 0
    && (forall k: nat {:trigger all(k + 1)} {:trigger chunk(k)} :: all(k + 1) == all(k) + chunk(k))
    && (forall k: nat :: |chunk(k)| == width)
  }

  lemma {:induction false} ListLength(all: nat -> seq<word>, chunk: nat -> seq<word>, width: nat, k: nat)
    requires Lists(all, chunk, width)
    ensures |all(k)| == k * width
  {
    if k > 0 {
      ListLength(all, chunk, width, k - 1);
      assert all(k - 1 + 1) == all(k - 1) + chunk(k - 1);
      assert k * width == (k - 1) * width + width;
    }
  }

  lemma {:induction false} ListedAt(all: nat -> seq<word>, chunk: nat -> seq<word>, width: nat, chunks: nat, i: nat, at: nat)
    requires Lists(all, chunk, width) && i < chunks && at == i * width
    ensures at + width <= |all(chunks)| && all(chunks)[at..at + width] == chunk(i)
    decreases chunks
  {
    assert all(chunks - 1 + 1) == all(chunks - 1) + chunk(chunks - 1);
    ListLength(all, chunk, width, chunks - 1);
    if i < chunks - 1 {
      ListedAt(all, chunk, width, chunks - 1, i, at);
    }
    PlaceOfChunk(i, chunks, width, at, |all(chunks - 1)|);
    SliceOfSum(all(chunks - 1), chunk(chunks - 1), at, width);
  }

  lemma ChunkAt(mix: Mixing, b: Row, n: nat, chunks: nat, i: nat, at: nat, width: nat)
    requires 1 <= n && i < chunks && width == 32 * n && at == i * width
    ensures at + width <= |Chunks(mix, b, n, chunks)|
    ensures Chunks(mix, b, n, chunks)[at..at + width] == Table(mix, ChunkSeed(mix, b, n, i), n)
  {
    var all := (k: nat) => Chunks(mix, b, n, k);
    var chunk := (k: nat) => Table(mix, ChunkSeed(mix, b, n, k), n);
    assert Lists(all, chunk, width);
    ListedAt(all, chunk, width, chunks, i, at);
  }

  /** The words the chain of `Smix` calls starts from. */
  ghost function FirstRow(keccak: Keccak, seed: Hash): Row {
    DecodeWords(Extended(keccak, seed, 3))
  }

  ghost function SeedWords(keccak: Keccak, mix: Mixing, seed: Hash, n: nat, chunks: nat): seq<word>
    requires 1 <= n
  {
    Chunks(mix, FirstRow(keccak, seed), n, chunks)
  }

  lemma SliceOfSlice(s: seq<word>, a: nat, b: nat, c: nat, d: nat)
    requires a <= b <= |s| && c <= d <= b - a
    ensures s[a..b][c..d] == s[a + c..a + d]
  {
    var t := s[a..b];
    forall k | 0 <= k < d - c
      ensures t[c..d][k] == s[a + c..a + d][k]
    {
      assert t[c + k] == s[a + c + k];
    }
  }

  lemma RowInChunk(cache: seq<word>, table: seq<word>, at: nat, n: nat, j: nat)
    requires j < n && |table| == 32 * n && at + 32 * n <= |cache|
    requires cache[at..at + 32 * n] == table
    ensures cache[at + 32 * j..at + 32 * j + 32] == RowAt(table, j)
  {
    SliceOfSlice(cache, at, at + 32 * n, 32 * j, 32 * j + 32);
  }

  /** Row j of chunk i of the cache is the j-fold BlockMix of the i-fold ROMix of the extended seed. */
  lemma CacheRowClosedForm(keccak: Keccak, mix: Mixing, seed: Hash, n: nat, chunks: nat, i: nat, j: nat, at: nat)
    requires 1 <= n && i < chunks && j < n && at == i * (32 * n)
    ensures var cache := SeedWords(keccak, mix, seed, n, chunks);
            |cache| == chunks * (32 * n)
            && at + 32 * j + 32 <= |cache|
            && cache[at + 32 * j..at + 32 * j + 32] == Power(mix, ChunkSeed(mix, FirstRow(keccak, seed), n, i), j)
  {
    var b := FirstRow(keccak, seed);
    ChunksLength(mix, b, n, chunks);
    ChunkAt(mix, b, n, chunks, i, at, 32 * n);
    TableRow(mix, ChunkSeed(mix, b, n, i), n, j);
    RowInChunk(Chunks(mix, b, n, chunks), Table(mix, ChunkSeed(mix, b, n, i), n), at, n, j);
  }

  /** One call of `Smix` moves the chain on and leaves its table. */
  method MixSeed(ext: array<byte>, v: array<word>, n: nat, ghost mix: Mixing, ghost b: Row)
    requires IsMix(mix) && 1 <= n && ext.Length == 128 && v.Length == 32 * n
    requires DecodeWords(ext[..]) == b
    modifies ext, v
    ensures DecodeWords(ext[..]) == RomixRow(mix, b, n)
    ensures v[..] == Table(mix, b, n)
  {
    assert ext[..128] == ext[..];
    Smix(ext, v, n, mix);
    assert ext[..128] == ext[..];
    DecodeEncode(RomixRow(mix, b, n));
    HeldIsTable(mix, v[..], b, n);
    assert v[..32 * n] == v[..];
  }

  method CopyChunk(v: array<word>, cache: array<word>, at: nat)
    requires v != cache && at + v.Length <= cache.Length
    modifies cache
    ensures cache[..at + v.Length] == old(cache[..at]) + v[..]
  {
    forall k | 0 <= k < v.Length { cache[at + k] := v[k]; }
  }

  /** One pass of the chunk loop: mix, then copy the table into place. */
  method FillChunk(ext: array<byte>, v: array<word>, cache: array<word>, at: nat, n: nat,
                   ghost mix: Mixing, ghost b: Row)
    requires IsMix(mix) && 1 <= n && ext.Length == 128 && v.Length == 32 * n && v != cache
    requires at + 32 * n <= cache.Length
    requires DecodeWords(ext[..]) == b
    modifies ext, v, cache
    ensures DecodeWords(ext[..]) == RomixRow(mix, b, n)
    ensures cache[..at + 32 * n] == old(cache[..at]) + Table(mix, b, n)
  {
    MixSeed(ext, v, n, mix, b);
    CopyChunk(v, cache, at);
  }

  /** The chunk loop. */
  method FillChunks(ext: array<byte>, n: nat, chunks: nat, ghost mix: Mixing, ghost b: Row) returns (words: seq<word>)
    requires IsMix(mix) && 1 <= n && ext.Length == 128
    requires DecodeWords(ext[..]) == b
    modifies ext
    ensures words == Chunks(mix, b, n, chunks)
  {
    var width := 32 * n;
    var v := new word[width];
    var cache := new word[chunks * width];
    for i := 0 to chunks
      invariant DecodeWords(ext[..]) == ChunkSeed(mix, b, n, i)
      invariant 0 <= i * width <= cache.Length
      invariant cache[..i * width] == Chunks(mix, b, n, i)
    {
      ItemFits(i, chunks, width);
      FillChunk(ext, v, cache, i * width, n, mix, ChunkSeed(mix, b, n, i));
    }
    words := cache[..];
    assert words == cache[..chunks * width];
  }

  method CalcSeedCache(keccak: Keccak, seed: Hash, n: nat, chunks: nat, ghost mix: Mixing) returns (words: seq<word>)
    requires IsMix(mix) && 1 <= n
    ensures words == SeedWords(keccak, mix, seed, n, chunks)
  {
    var ext := ExtendBytes(keccak, seed, 3);
    words := FillChunks(ext, n, chunks, mix, FirstRow(keccak, seed));
  }

  // ---- GetData ----

  /** What a cache of this configuration should hold for a seed. */
  ghost function Contents(keccak: Keccak, mix: Mixing, n: nat, chunks: nat): Hash -> seq<word>
    requires 1 <= n
  {
    (seed: Hash) => SeedWords(keccak, mix, seed, n, chunks)
  }

  /** What one uninterrupted call of `GetData` makes of the cache. */
  ghost function AfterGet(compute: Hash -> seq<word>, s: State<seq<word>>, seed: Hash): State<seq<word>>
    requires |s.data| >= MAX_CACHE_ITEMS ==> |s.order| > 0
  {
    if seed in s.data then s else Inserted(s, seed, compute(seed))
  }

  class Cache {
    const keccak: Keccak
    const n: nat
    const chunks: nat
    ghost const mix: Mixing
    var data: map<Hash, seq<word>>
    var order: seq<Hash>

    ghost function View(): State<seq<word>>
      reads this
    {
      State(data, order)
    }

    ghost function Compute(): Hash -> seq<word>
      requires 1 <= n
    {
      Contents(keccak, mix, n, chunks)
    }

    ghost predicate Valid()
      reads this
    {
      1 <= n && IsMix(mix) && Consistent(Compute(), View())
    }

    constructor (keccak: Keccak, n: nat, chunks: nat)
      requires 1 <= n
      ensures Valid() && View() == State(map[], [])
      ensures this.keccak == keccak && this.n == n && this.chunks == chunks && mix == ScryptMix(Salsa208)
    {
      this.keccak := keccak;
      this.n := n;
      this.chunks := chunks;
      this.mix := ScryptMix(Salsa208);
      data := map[];
      order := [];
      new;
      ScryptMixIsMix();
    }

    /** With no other caller in between, both critical sections see the same cache. */
    method GetData(seed: Hash) returns (words: seq<word>)
      requires Valid()
      modifies this`data, this`order
      ensures Valid()
      ensures words == SeedWords(keccak, mix, seed, n, chunks)
      ensures |old(data)| >= MAX_CACHE_ITEMS ==> |old(order)| > 0
      ensures View() == AfterGet(Compute(), old(View()), seed)
    {
      ghost var before := View();
      DistinctSize(data, order);
      if seed in data {
        return data[seed];
      }
      InsertKeeps(Compute(), before, seed);
      if |data| >= MAX_CACHE_ITEMS {
        var oldest := order[0];
        data := data - {oldest};
        order := order[1..];
      }
      words := CalcSeedCache(keccak, seed, n, chunks, mix);
      data := data[seed := words];
      order := order + [seed];
      assert View() == Inserted(before, seed, words);
    }
  }
}
