# Verification of the Nogo miner

A Dafny 4.11 model of the Nogo proof-of-work miner, with proofs.  It covers three cores of the
program: the NogoPow engine, the path of a share from a job to a counted answer, and the life of a
pool connection with failover between pools.

`dafny verify dfyconfig.toml` checks everything.

## How the model is laid out

**The engine.** Code that changes arrays in place is a method over arrays, proved against a
specification function; what the function means is proved beside it.  Keccak-256 is a parameter, so
every theorem holds for any function to 32 bytes.  Sizes are symbolic, and the repository's sizes
enter in the constructor of `Engine.Engine`.

| file | what it models |
|---|---|
| `Bytes`, `Words`, `Unsigned`, `Arithmetic` | bytes and the numbers they stand for, 32-bit words and what their operations are, products modulo 2^32 |
| `Salsa` | the 16-word core; its rounds as a list of steps |
| `Scrypt`, `ROMix` | `blockMix` and `Smix` against sections 4 and 5 of RFC 7914 |
| `CacheProtocol`, `SeedCache` | the cache of seeds: as a protocol of interleaved callers, and as a class with the computation of its entries |
| `FixedPoint`, `BlockedProduct`, `Saturating`, `MatrixChain` | fixed point in 64-bit arithmetic, the tiled product, the saturating product of signed bytes, and `mulMatrix` |
| `Fold` | `fnv` and `hashMatrix` |
| `Header`, `Target` | header serialisation, addresses, difficulty |
| `Scan`, `Engine` | the nonce scan over runs of calls, and the class that ties all stages together |

**Concurrency.** `CacheProtocol`, `SharePath`, `HashReport` and `Lifecycle` are state machines: a
step is a stretch of code between two points where another goroutine can get in, every step is
total, and main results speak of the state after any list of steps.

`SubmittedWork` puts the engine's hash and target into the share path.

**Failover.** `Failover` says on values what the choice of a pool means; `PoolManager` has the
classes that are updated in place and proves each method against it; `ClientView` proves that the
two flags by which they model a client agree with `Lifecycle`.

## What the proofs found

Each of these comes with the exact condition, and with a run that reaches it where it takes a run.

* The column round of the core is not that of section 3 of RFC 7914 (`Salsa.ColumnRoundIsNotRfc`
  gives the inputs), but it is that round seen through a rotation of each column
  (`Salsa.ColumnRoundIsShiftedRfc`).  The row round agrees.
* The seed cache is called LRU and is first in, first out: a hit protects nothing
  (`CacheProtocol.HitDoesNotProtect`; `CacheProtocol.HitSeedIsEvicted` is the run); what stays is
  exactly the seeds of the last 64 misses.
* The restart from nonce 0 after exhaustion never takes effect (`Scan.ExhaustionDoesNotWrap`,
  reached in `Scan.ExhaustionIsReached`), and an engine evaluates nothing any more, whatever it is
  given, exactly when it has found the last nonce (`Scan.StuckIffFoundLast`, reached in
  `Scan.LastNonceCanBeFound`).
* The header encoding has no length prefixes, and arbitrary headers collide
  (`Header.ArbitraryHeadersCollide`); headers as the miner builds them do not
  (`Header.EncodingInjective`).
* An answer can make the read loop panic exactly when its id is registered and not yet written
  (`SharePath.PanicIffEarly`); answers to unknown, dropped or failed ids are harmless.
  `SharePath.PanicIsReached` is the run.
* After a failed first dial, `Connect` reports success without connecting, `IsAlive` is wrong, and
  `Close` never returns; without one, `Close` always can (`Lifecycle.FailedConnectSticks`,
  `Lifecycle.IsAliveIsRight`, `Lifecycle.CloseReturnsUnlessDialFailed`; the run is
  `Lifecycle.RefusedConnectIsReached`).
* Failover takes a pool that refused it before without dialing, and leaving that pool hangs with its
  flag down (`Failover.StalePoolIsTakenBlindly`).  After one `Start`, flagged connected is
  equivalent to current exactly as long as no failover hangs (`Failover.OneStartKeepsOneFlag`); two
  pools are enough for a hang (`Failover.SecondFailoverHangs`).
* A second `Start` of the pool manager can leave two pools flagged as connected; the exact condition
  is in `Failover.StartKeepsOneFlag`, the run in `Failover.SecondStartFlagsTwo`.

## Model

| member | source | states |
|---|---|---|
| Salsa.RoundsBijective | pkg/nogopow/engine.go:843-889 | The four double rounds before the feed-forward are a bijection on 16-word states: the steps run backwards restore every input, from both sides. |
| Salsa.BackwardsRestores | pkg/nogopow/engine.go:849-888 | Any schedule of xor-rotate-add steps on distinct places, run forwards and then backwards, restores every state. |
| Salsa.ForwardsRestores | pkg/nogopow/engine.go:849-888 | The same schedule run backwards and then forwards restores every state. |
| Salsa.ColumnRoundIsShiftedRfc | pkg/nogopow/engine.go:850-868 | The column round is that of section 3 of RFC 7914 conjugated by a rotation of each column. |
| Salsa.ColumnRoundIsNotRfc | pkg/nogopow/engine.go:850-868 | States on which the column round and that of RFC 7914 give different words in place 4. |
| Salsa.RowRoundIsTransposedRfc | pkg/nogopow/engine.go:869-887 | The row round is that of RFC 7914: its column round on the transposed square. |
| Salsa.QuarterValues | pkg/nogopow/engine.go:851-854 | A quarter round sets its four words to the four xor-rotate-add equations of the RFC and leaves the others. |
| Salsa.FeedForward | pkg/nogopow/engine.go:890-897 | The core adds word by word to its input what 128 steps make of it. |
| Salsa.SalsaCore | pkg/nogopow/engine.go:843-897 | In place, the array becomes its old contents plus the four double rounds of them, word by word. |
| Salsa.Rounds | pkg/nogopow/engine.go:849-888 | The loop over double rounds computes the scheduled steps in order. |
| Salsa.DoubleRound | pkg/nogopow/engine.go:850-887 | The assignments of one pass are the column round followed by the row round. |
| Words.DecodeEncode | pkg/nogopow/engine.go:787-816 | Writing words as little-endian bytes and reading them again is the identity. |
| Words.EncodeInjective | pkg/nogopow/engine.go:420-423 | Different word lists have different little-endian bytes. |
| Words.RotlRotates | pkg/nogopow/engine.go:899-901 | At the four distances in use the shifts and the or are a rotation to the left. |
| Words.ExorIsExclusiveOr | pkg/nogopow/engine.go:851 | The xor of two words has the bits that are in exactly one of them. |
| Words.PlusIsAddition | pkg/nogopow/engine.go:851 | Adding is subtracting the negative, modulo 2^32. |
| Unsigned.ValueKeepsOrder | pkg/nogopow/engine.go:680-684 | The value of a word, a bijection with 0 to 2^32 - 1, keeps the order of words, so it is the number the word stands for. |
| Unsigned.ValueOfValue | pkg/nogopow/engine.go:680-684 | Every number below 2^32 is the value of a word. |
| Unsigned.ValueInjective | pkg/nogopow/engine.go:680-684 | Words with the same value are the same. |
| Unsigned.DecodedLittleEndian | pkg/nogopow/engine.go:792-795 | A word read from four bytes has their value, least significant first. |
| Unsigned.EncodedLittleEndian | pkg/nogopow/engine.go:812-815 | The four bytes written for a word have its value, least significant first. |
| Scrypt.SlotBijective | pkg/nogopow/engine.go:832-837 | The write index (i mod 2) r + i/2 is a bijection on the 2r block places, with its inverse. |
| Scrypt.SlotsFilled | pkg/nogopow/engine.go:819-840 | Writing every chained block to its computed place gives all even blocks followed by all odd blocks, section 4 of RFC 7914. |
| Scrypt.MixBlocks | pkg/nogopow/engine.go:819-840 | For every r >= 1 the block loop computes scryptBlockMix of section 4 of RFC 7914 over the repository's core. |
| Scrypt.BlockMixOfTwo | pkg/nogopow/engine.go:819-840 | For the two blocks of the repository: the first output block is the core of the second input block xor the first, the second is the core of that xor the second. |
| ROMix.FillTable | pkg/nogopow/engine.go:797-801 | After the first loop, row j of the table is the j-fold BlockMix of the input for every j, the state is the n-fold one, and the rest of the table array is as before. |
| ROMix.Scramble | pkg/nogopow/engine.go:803-810 | The second loop, reading the table, equals the recursion that recomputes V[j] for the row the code chooses. |
| ROMix.IntegerifyIsRfc | pkg/nogopow/engine.go:804-805 | For every table size that divides 2^32, 1024 among them, the row chosen from one word is the little-endian number of the last 64 bytes modulo the size, Integerify of RFC 7914. |
| ROMix.WalkIsRfc | pkg/nogopow/engine.go:803-810 | For those sizes the second loop is step 3 of scryptROMix, with the RFC's choice of rows. |
| ROMix.Smix | pkg/nogopow/engine.go:787-816 | Bytes to bytes, for every table size that divides 2^32 the call is scryptROMix of section 5 of RFC 7914 with r = 1, row choice included; for every size it leaves V in the caller's table and touches nothing else. |
| SeedCache.ExtendBytes | pkg/nogopow/engine.go:754-771 | The bytes are the seed followed by its repeated Keccak images, each the hash of the one before. |
| SeedCache.ExtendedIsChain | pkg/nogopow/engine.go:754-771 | The first 32 bytes are the seed and every 32 bytes after it are the hash of the 32 before them. |
| SeedCache.CacheRowClosedForm | pkg/nogopow/engine.go:734-751 | Row j of chunk i of the cache is the j-fold BlockMix of the i-fold ROMix of the extended seed. |
| SeedCache.FillChunks | pkg/nogopow/engine.go:741-749 | The chained Smix calls, each followed by a copy of V, leave the tables of all chunks one after the other. |
| SeedCache.CalcSeedCache | pkg/nogopow/engine.go:734-751 | The words are the specified cache of the seed. |
| SeedCache.Cache.constructor | pkg/nogopow/engine.go:696-701 | A new cache is empty and consistent. |
| SeedCache.Cache.GetData | pkg/nogopow/engine.go:704-731 | The result is the computed cache of the seed; a hit changes nothing, a miss evicts the front of a full order and appends. |
| CacheProtocol.CacheIsTransparent | pkg/nogopow/engine.go:704-731 | In every interleaving of double-checked lookups and fills, every value returned is the computed one, order lists the keys once each, and at most 64 are held. |
| CacheProtocol.OrderIsRecentMisses | pkg/nogopow/engine.go:718-728 | In every interleaving the resident seeds are exactly those of the last 64 misses, which are distinct. |
| CacheProtocol.SeedSurvives | pkg/nogopow/engine.go:718-728 | A seed just inserted is resident until 64 further misses, and not after the 64th. |
| CacheProtocol.HitDoesNotProtect | pkg/nogopow/engine.go:705-710 | In a full cache the next miss evicts the oldest seed even when it was hit a moment ago. |
| CacheProtocol.HitSeedIsEvicted | pkg/nogopow/engine.go:704-731 | A run from the empty cache: 64 seeds, the first one again, which is a hit, another seed, and the first one is gone while the others stay. |
| CacheProtocol.SeedsExist | pkg/nogopow/engine.go:704-731 | There are 65 different seeds, so that run exists. |
| CacheProtocol.StepKeepsInv | pkg/nogopow/engine.go:704-731 | Every critical section of every caller keeps the cache consistent with the history of misses. |
| CacheProtocol.InsertKeeps | pkg/nogopow/engine.go:718-728 | Eviction and insertion of a new seed keep order and data in step and within 64. |
| FixedPoint.ToFixedOfInt | pkg/nogopow/engine.go:546-566 | The conversion by multiplication and the one by shift agree on every signed byte. |
| FixedPoint.FromFixedOfWhole | pkg/nogopow/engine.go:551-561 | Converting back any whole fixed-point number that fits in 64 bits saturates it to a signed byte. |
| FixedPoint.FromFixedRounds | pkg/nogopow/engine.go:551-561 | Converting back rounds to the nearest unit, halves upwards, and saturates. |
| FixedPoint.TermRounds | pkg/nogopow/engine.go:594-603 | Where nothing wraps a product is rounded to the nearest unit, halves upwards. |
| FixedPoint.WrapIsCongruent | pkg/nogopow/engine.go:594-603 | Wrapping to 64 bits changes a number by a multiple of 2^64. |
| BlockedProduct.AccIsWrappedSum | pkg/nogopow/engine.go:589-606 | Accumulating with 64-bit wrap-around at every addition is the exact sum, wrapped once. |
| BlockedProduct.ZeroSkip | pkg/nogopow/engine.go:590-592 | Skipping a zero factor does not change the accumulated value. |
| BlockedProduct.MulMatrixBlocked | pkg/nogopow/engine.go:568-616 | For every size, divisible by 32 or not, and targets apart from the inputs, the tiled loops leave in each cell the naive sum of rounded products. |
| Saturating.TermOfInt8 | pkg/nogopow/engine.go:594-603 | For signed bytes in fixed point a rounded product is exact and its intermediate value fits in 64 bits. |
| Saturating.AccIsDot | pkg/nogopow/engine.go:589-606 | Over signed bytes, sides up to the limit, the accumulated value is the exact inner product in fixed point, without wrap-around. |
| Saturating.RescaledProduct | pkg/nogopow/engine.go:461-469 | Converting a product back and forth is the saturated matrix product. |
| MatrixChain.SourceBijective | pkg/nogopow/engine.go:412-418 | The regrouping of even and odd rows is a permutation of the rows of the cache. |
| MatrixChain.Deinterleave | pkg/nogopow/engine.go:410-418 | Every row of the regrouped data is the row of the cache the permutation names. |
| MatrixChain.RegroupedRow | pkg/nogopow/engine.go:410-418 | Row j of part p of chunk i of the regrouped words is row 2j + p of that chunk of the cache. |
| MatrixChain.EntryOfGroup | pkg/nogopow/engine.go:420-436 | Entry (r, 128 half + 4w + k) of the matrix the chains multiply with lies in -128 to 127 and is congruent modulo 256 to byte k of word w of group 2r + half. |
| MatrixChain.IdentityIsNeutral | pkg/nogopow/engine.go:430-433 | The start of a chain is neutral: the first product is the first matrix. |
| MatrixChain.ChainResultIsFold | pkg/nogopow/engine.go:437-476 | Chain c folds, from the left and from the identity, the saturating products with the matrices named by the hash of bytes 8c to 8c + 7 of the header hash, read twice. |
| MatrixChain.QuartersTile | pkg/nogopow/engine.go:445-452 | The four chains share the header hash out among them, in order. |
| MatrixChain.ChainStep | pkg/nogopow/engine.go:455-472 | One product and rescale is one saturating product with the matrix the sequence byte selects. |
| MatrixChain.ChainPasses | pkg/nogopow/engine.go:453-474 | The two nested loops apply 32 saturating products per pass, in the order of the sequence, the two buffers swapping roles. |
| MatrixChain.Chain | pkg/nogopow/engine.go:437-476 | Chain c, from the identity and the hash of its quarter of the header hash, ends in the 64-fold saturating product. |
| MatrixChain.SumChains | pkg/nogopow/engine.go:478-486 | The four chain results are added entry by entry. |
| MatrixChain.MulMatrix | pkg/nogopow/engine.go:409-496 | The result holds, row by row, the saturated sums of the four chains over the regrouped cache. |
| MatrixChain.ResultEntry | pkg/nogopow/engine.go:478-495 | Byte (i, j) of it is congruent modulo 256 to the sum of entry (i, j) of the four chains, saturated to a signed byte. |
| MatrixChain.ToByteRoundTrip | pkg/nogopow/engine.go:488-494 | The cast of a signed byte to a byte is undone by the cast back. |
| Unsigned.TimesInjective | pkg/nogopow/engine.go:680-684 | Multiplication modulo 2^32 by a number with an inverse is injective. |
| Fold.FnvInjective | pkg/nogopow/engine.go:680-684 | fnv is injective in its first and in its second argument. |
| Fold.FnvIsFnv | pkg/nogopow/engine.go:680-684 | fnv satisfies what the fold needs of its combining function. |
| Fold.FnvMeaning | pkg/nogopow/engine.go:680-684 | The value of fnv xor its second argument is the value of its first times 16777619, modulo 2^32. |
| Fold.RootOfTwo | pkg/nogopow/engine.go:518-529 | In a column of two words the upper one is the first argument. |
| Fold.ByteIsPacked | pkg/nogopow/engine.go:507-516 | Byte p of the result is byte (p mod 256) / 64 of the word in row p / 256 of column p mod 64. |
| Fold.RootIsTree | pkg/nogopow/engine.go:518-529 | For any power-of-two height, repeated halving of a column is the recursive tree N(j, k) = fnv(N(j, 2k), N(j + k, 2k)). |
| Fold.OneLeafChangesRoot | pkg/nogopow/engine.go:518-529 | Changing exactly one leaf of a column changes its root. |
| Fold.OneByteChangesOneWord | pkg/nogopow/engine.go:499-544 | Changing exactly one byte of the result matrix changes exactly one of the 64 words given to the last hash. |
| Fold.FoldColumns | pkg/nogopow/engine.go:518-529 | The in-place halving loop leaves the root of every column in row 0, reading no row after it was overwritten. |
| Fold.HashMatrix | pkg/nogopow/engine.go:499-544 | The result is the hash of the little-endian roots of the packed columns. |
| Header.RlpEncode | pkg/nogopow/engine.go:345-389 | The writes, in order, append exactly the encoding of the header. |
| Header.EncodedHoldsFields | pkg/nogopow/engine.go:345-389 | Every field is in its place in the encoding; number, gas limit, time and difficulty read big-endian are those fields. |
| Header.SealBytesHoldFields | pkg/nogopow/engine.go:175-200 | The bytes the seal hash is taken of hold the parent hash, address, state root, merkle root, height, a zero gas limit, the timestamp as 64 bits, the nonce little-endian before 24 zeros, and the difficulty. |
| Header.BytesToHashKeepsNumber | pkg/nogopow/engine.go:392-399 | Padding and cutting to 32 bytes keep the number, read big-endian, modulo 2^256. |
| Header.CopiedHashAt | pkg/nogopow/engine.go:186-190 | The state root keeps its bytes in place, zeros after them. |
| Header.BareAddressRoundTrip | pkg/nogopow/engine.go:281-309 | The same without the prefix. |
| Header.UnreadableAddressIsZero | pkg/nogopow/engine.go:299-302 | Text that does not decode, or to fewer than 20 bytes, gives the zero address. |
| Bytes.NumberOfPutBigEndian | pkg/nogopow/engine.go:369-375 | Eight bytes written big-endian read as the number. |
| Bytes.NumberOfBigEndian | pkg/nogopow/engine.go:361-364 | The bytes of a big integer read as its absolute value. |
| Bytes.FirstDifferenceDecides | pkg/nogopow/engine.go:133 | Of two byte strings of equal length, read as a big integer, the first byte that differs decides which is less. |
| Bytes.LittleIsBigReversed | pkg/nogopow/engine.go:259-263 | Reading least significant first is reading the reversed bytes most significant first. |
| Header.EncodingInjective | pkg/nogopow/engine.go:175-203 | Two headers the miner builds have equal encodings if and only if all encoded fields agree, although two variable-length numbers carry no length. |
| Header.LayoutInjective | pkg/nogopow/engine.go:345-389 | A number, a fixed part, a run of zeros and a number without leading zero can be taken apart in one way only. |
| Header.ArbitraryHeadersCollide | pkg/nogopow/engine.go:345-389 | For every header there are two variants, differing in extra data, nonce and difficulty, with the same bytes. |
| Header.AddressRoundTrip | pkg/nogopow/engine.go:281-325 | Decoding NOGO followed by the hex digits of an address and anything longer in hex gives the address. |
| Header.HexRoundTrip | pkg/nogopow/engine.go:296-300 | Hex digits of bytes decode to the bytes. |
| Header.HexPair | pkg/nogopow/engine.go:299 | Two hex digits of either case are the byte 16 times the first plus the second. |
| Target.TargetExact | pkg/nogopow/engine.go:228-256 | For 1 <= d <= 2^256 - 1 a hash h passes the test of Mine exactly when h d <= 2^256 - 1; above that the raised target lets hash 1 pass as well, and nothing else. |
| Target.MeetsExact | pkg/nogopow/engine.go:133-134 | The test of Mine, exactly, for nil, nonpositive and all other difficulties. |
| Target.TargetAntitone | pkg/nogopow/engine.go:228-256 | A greater difficulty never has a greater target, also past the point where the quotient is zero. |
| Target.TargetInRange | pkg/nogopow/engine.go:228-256 | For every difficulty, nil and negative ones included, the target is between 1 and 2^256 - 1. |
| Scan.ScanMeaning | pkg/nogopow/engine.go:112-160 | A success is the least passing nonce from the start on with no stop before it; exhaustion means none passes. |
| Scan.RunAccounts | pkg/nogopow/engine.go:78-87 | Over any run of calls lastNonce grows and stays within the limit, and the nonces evaluated are hashCount plus the successes. |
| Scan.RangesTile | pkg/nogopow/engine.go:98-111 | The ranges scanned by calls that do not exhaust the nonces form one interval without gap or overlap, ending at lastNonce. |
| Scan.SuccessesIncrease | pkg/nogopow/engine.go:135-142 | In every run the winning nonces of successive successes increase. |
| Scan.ExhaustionDoesNotWrap | pkg/nogopow/engine.go:151-152 | After exhaustion lastNonce is as before; the next start is 0 exactly when no nonce was kept and the clock says so. |
| Scan.StuckAtTheEnd | pkg/nogopow/engine.go:112-113 | From lastNonce at the limit every later call evaluates nothing and changes nothing. |
| Scan.EndIsFindingLast | pkg/nogopow/engine.go:135-136 | A run that starts below the limit reaches it if and only if one of its calls finds the last nonce. |
| Scan.CanTryUnlessAtTheEnd | pkg/nogopow/engine.go:102-113 | There is a call that evaluates a nonce if and only if the limit has not been reached. |
| Scan.StuckIffFoundLast | pkg/nogopow/engine.go:112-136 | Every continuation of a run evaluates nothing if and only if the run has found the last nonce. |
| Scan.LastNonceCanBeFound | pkg/nogopow/engine.go:112-136 | A first call of a new engine that finds the last nonce. |
| Scan.ExhaustionIsReached | pkg/nogopow/engine.go:151-152 | A first call that tries its nonces, exhausts them, and leaves lastNonce at 0. |
| Engine.MatrixClosedForm | pkg/nogopow/engine.go:410-418 | For every seed, word group j of part p of chunk i of the regrouped cache is the (2j + p)-fold BlockMix of the i-fold ROMix of the Keccak-extended seed. |
| Engine.EntryClosedForm | pkg/nogopow/engine.go:410-436 | For every seed, every entry of every matrix the chains multiply with lies in -128 to 127 and is congruent modulo 256 to the byte, at the place its row and column give, of the (2j + p)-fold BlockMix of the i-fold ROMix of the Keccak-extended seed. |
| Engine.BlockHashStages | pkg/nogopow/engine.go:175-223 | The hash of a header and a nonce is the hash of the column roots of the matrix result of the four chains of its seal hash over the cache of its parent hash. |
| Engine.Engine.constructor | pkg/nogopow/engine.go:59-63 | A new engine has zero counters and the repository's sizes, core and fold function. |
| Engine.Engine.ComputePoW | pkg/nogopow/engine.go:219-223 | The hash is the fold of the matrix result over the cache of the seed. |
| Engine.Engine.SealHash | pkg/nogopow/engine.go:212-216 | The hash of exactly the encoded header. |
| Engine.Engine.ComputeBlockHash | pkg/nogopow/engine.go:175-209 | The hash Mine tests is the proof-of-work hash of the header built for that nonce, under the seed of its parent. |
| Engine.ReportIsTruthful | pkg/nogopow/engine.go:112-160 | What the loop reports is true: a success names the least passing nonce from the start on, with its own hash; a failure carries no hash and none of the nonces it counts passes; hashesTried is their number. |
| Engine.Engine.ScanLoop | pkg/nogopow/engine.go:112-160 | The loop reports what the scan specification says, and hashCount grows by the nonces tried less a success. |
| Engine.Engine.Mine | pkg/nogopow/engine.go:66-161 | One call changes the counters as the scan specification says; its report is true for the engine's own hash and target: a success carries the hash of the nonce it names, which passes and is the least one from the start on, a failure tried only nonces that do not pass, and hashesTried is their number. A call while another runs reports nothing and changes nothing. |
| SharePath.SubmittedSharesAreValid | internal/miner/miner.go:160-174 | In every interleaving every share on the wire passes the test of a delivered job with the id it names, however far the current job has moved on. |
| SharePath.DeliveredWereOffered | internal/miner/miner.go:398-470 | Over every run, every delivered job is what the miner makes of a job the pool has sent in that run. |
| SharePath.AcceptedMeaning | internal/miner/miner.go:398-470 | A job is refused unless its roots decode and the state root has 32 bytes; each root is in the header field of its name, a difficulty below 1 becomes 1, the rest is as sent. |
| SubmittedWork.SubmittedSharesAreWork | internal/miner/miner.go:160-196 | With the test of the engine, for every difficulty: every share on the wire belongs to a job the pool has offered under the id it names and meets its target; its hash times the difficulty d is at most 2^256 - 1, or d is greater than that and the hash is 1. |
| SubmittedWork.TestIsEnginesTest | pkg/nogopow/engine.go:113-135 | That test is the one Mine makes in an engine as its constructor leaves it. |
| SharePath.RoutingIsSafe | internal/stratum/client.go:562-615 | In every interleaving without an answer to a registered, unwritten id: no id is written twice, each channel gets at most one value, which the pool has given in the run to its own request, other replies reach no submitter, and the read loop neither blocks nor panics. |
| SharePath.WorkersGetTheirOwnAnswer | internal/miner/miner.go:309-332 | What a waiting worker can take from its channel is an answer the pool has given in the run, with that verdict, to its own request. |
| SharePath.AcceptedWorkIsBounded | internal/miner/miner.go:320-322 | Accepted work never exceeds the number of different ids the pool has accepted in the run, whatever is answered twice, late or never. |
| SharePath.AnswersAreSent | internal/stratum/client.go:585-611 | Every verdict that is routed is one the pool has given in the run. |
| SharePath.AnswerIsCounted | internal/miner/miner.go:316-328 | When the pool answers a waiting worker, the worker goes on, and accepted work grows by one exactly if the answer was accepted. |
| SharePath.ReceiveCounts | internal/miner/miner.go:316-328 | Taking an accepted verdict counts its id once, taking a rejected one counts nothing. |
| SharePath.LateAnswerIsNotCounted | internal/miner/miner.go:329-331 | After a timeout the answer still finds its entry, removes it, and counts for nothing. |
| SharePath.ShareGoesOut | internal/stratum/client.go:815-892 | A share whose write succeeds is on the wire under a new id, with the id and nonce of its own job, and answerable. |
| SharePath.ShareIsGivenUp | internal/stratum/client.go:856-875 | A share that cannot be sent leaves nothing on the wire and frees its entry and its worker. |
| SharePath.MineEnds | internal/miner/miner.go:160-174 | A call of Mine leaves the worker with the share it found, or idle, and its counters as the scan says, and no other worker changed. |
| SharePath.NothingToCapture | internal/miner/miner.go:346-358 | When the client is gone no worker captures a job. |
| SharePath.PanicNeedsEarlyAnswer | internal/stratum/client.go:866-875 | If the read loop has panicked in a run, it had taken an answer to an id that was registered and not yet written. |
| SharePath.EarlyAnswerPanics | internal/stratum/client.go:866-875 | Such an answer, followed by the failing write and the close of the channel, makes the loop panic. |
| SharePath.PanicIffEarly | internal/stratum/client.go:562-579 | From every safe state with the loop reading, an answer has a panicking continuation without a further early answer if and only if its id is registered and not yet written. |
| SharePath.PanicIffEarlyInRuns | internal/stratum/client.go:562-579 | The same after every run from the start without an early answer. |
| SharePath.PanicIsReached | internal/stratum/client.go:815-875 | For every job the miner accepts and every test its first nonce passes, a run from the start that can be continued to a panic. |
| SharePath.JobsExist | internal/miner/miner.go:398-470 | The miner accepts some jobs: those with 32-byte roots in hex. |
| SharePath.StepKeepsJobs | internal/miner/miner.go:141-187 | Every step keeps every captured job delivered and every share in hand passing for its own job. |
| SharePath.StepKeepsSafe | internal/stratum/client.go:815-892 | Every step but an early answer keeps the table, the channels, the ids on the wire, the counts and the busy workers consistent. |
| SharePath.RunKeepsSafe | internal/stratum/client.go:815-892 | And so does every run without an early answer. |
| SharePath.MineFindsPassing | internal/miner/miner.go:183-200 | A nonce found for a captured job passes the test of that job. |
| HashReport.ReportsConserve | internal/miner/miner.go:237-272 | Over every run the increments handed over telescope to lastReported; each reached the pool, was lost or is on its way; and none of it exceeds the nonces evaluated without a win. |
| HashReport.CountersCountLosses | internal/miner/miner.go:183-200 | Over every run the counters add up to the nonces evaluated in the run less those that won. |
| HashReport.TickIsCovered | internal/miner/miner.go:557-573 | Whatever the counters hold when a waiting loop ticks is covered when its report is done, whatever the workers do in between. |
| HashReport.ReportCoversTick | internal/miner/miner.go:557-573 | A finished report covers all that was counted when its tick came, though the counters were read one by one. |
| HashReport.PoolCatchesUp | internal/miner/miner.go:253-262 | When nothing gets lost, the pool's total is what was reported. |
| HashReport.LostReportsStayLost | internal/miner/miner.go:259-268 | A lost increment is never made up for by later reports. |
| HashReport.StepKeepsInv | internal/miner/miner.go:237-272 | Every nonce of every worker and every access of the loop keep the accounts. |
| Lifecycle.LifecycleIsSafe | internal/stratum/client.go:416-529 | Over every run of Connect, drops, reconnects, failing writers and Close: at most one read loop, conn, bufReader and connected agree, no channel is closed twice, nobody waits for another's dial, no socket leaks. |
| Lifecycle.CloseLeavesNothing | internal/stratum/client.go:924-957 | When Close returns no loop is alive, nothing is connected and no socket is open, even if the loop was in a handshake. |
| Lifecycle.FailedConnectSticks | internal/stratum/client.go:181-205 | After a failed dial Connect does nothing, for ever, with nothing connected; otherwise it does nothing exactly when a loop is alive. |
| Lifecycle.IsAliveIsRight | internal/stratum/client.go:901-912 | Between calls IsAlive tells whether a loop is running exactly when no dial of Connect has failed. |
| Lifecycle.CloseReturnsUnlessDialFailed | internal/stratum/client.go:945-949 | A waiting Close has a continuation in which it returns if and only if no dial of Connect has failed. |
| Lifecycle.StuckForever | internal/stratum/client.go:945-949 | A Close that waits for a loop that was never started waits in every continuation. |
| Lifecycle.RefusedConnectIsReached | internal/stratum/client.go:181-198 | A run from a new client: the first dial is refused; then Connect is a no-op, IsAlive is wrong, and a Close waits in every continuation. |
| Lifecycle.AnsweredConnectSucceeds | internal/stratum/client.go:181-205 | When the network answers, Connect leaves a client connected on an open socket with a loop that reads it. |
| Lifecycle.StepKeepsInv | internal/stratum/client.go:212-385 | Every step of the caller, of a loop and of a dial keeps the invariant that all of this rests on. |
| ClientView.ManagerSeesClient | internal/stratum/client.go:181-205 | The two flags by which failover models a client are right in every reachable state between calls: Connect is a no-op exactly when started, a client is stale exactly when a dial of Connect failed, and Close can return exactly when not stale. |
| ClientView.ConnectIsDialed | internal/stratum/client.go:181-205 | A whole Connect, from call to return in any interleaving, changes the two flags as the model says: a started client is left alone, otherwise running is the outcome of the dial. |
| ClientView.CloseIsUnused | internal/stratum/client.go:924-957 | A whole Close that returns leaves an unused client. |
| Failover.OrderIsCyclic | internal/pool/manager.go:243-251 | The probes go to every other pool exactly once, counting on from the current pool and from 0 again at the end; a lone pool is probed itself. |
| Failover.CandidateIsRemainder | internal/pool/manager.go:244 | Counting so is the remainder the source computes. |
| Failover.SearchMeaning | internal/pool/manager.go:243-300 | The search settles on the first pool that answers, and changes the pools up to there and no other. |
| Failover.SwitchMeaning | internal/pool/manager.go:219-306 | Failover, from any fleet, settles on the first answering pool in cyclic order, or on -1 when all were tried and refused; what refused is left stale, what lies behind is untouched, and flagged connected stays equivalent to current if it was. |
| Failover.NoneLeft | internal/pool/manager.go:302-305 | From any fleet the index becomes -1 if and only if every other pool refuses, or the only one does. |
| Failover.StalePoolIsTakenBlindly | internal/pool/manager.go:256-297 | Leaving the chosen pool hangs if and only if its client had failed before; a flagged pool is taken as it is, another one has a running read loop if and only if its client had not failed. |
| Failover.StartKeepsOneFlag | internal/pool/manager.go:103-125 | Start keeps flagged connected equivalent to current if and only if nothing was current or nothing else connects. |
| Failover.StartMeaning | internal/pool/manager.go:110-119 | With nothing connected Start settles on the first pool that connects, or on none, leaving those before it stale and those behind it untouched. |
| Failover.FailoverKeepsOneFlag | internal/pool/manager.go:226-240 | One failover hangs if and only if the current pool is stale, and keeps flagged connected equivalent to current if and only if it does not hang. |
| Failover.FailoversKeepOneFlag | internal/pool/manager.go:219-306 | Any number of failovers keeps flagged connected equivalent to current if and only if none has hung. |
| Failover.OneStartKeepsOneFlag | internal/pool/manager.go:103-125 | After one Start, over any number of failovers, flagged connected is equivalent to current if and only if none has hung. |
| Failover.SecondFailoverHangs | internal/pool/manager.go:219-306 | A run with two pools, the first refusing at the start: the second failover hangs and leaves the flag down on the current pool. |
| Failover.SecondStartFlagsTwo | internal/pool/manager.go:103-125 | A run with two pools that both answer: a second Start flags both. |
| Failover.StopMeaning | internal/pool/manager.go:412-417 | Stop hangs on the first connected pool whose read loop never started, leaving the later ones as they were; without one it leaves every pool. |
| PoolManager.SortPoolsByPriority | internal/pool/manager.go:92-100 | In place, the pools end up sorted by priority and are the same pools. |
| PoolManager.EnabledMeaning | internal/pool/manager.go:64-83 | Exactly the enabled configurations become pools, each as often as it was given. |
| PoolManager.Manager.constructor | internal/pool/manager.go:50-89 | The manager has one unconnected pool for each enabled configuration, by priority, and none is current. |
| PoolManager.Manager.ConnectToPool | internal/pool/manager.go:129-166 | An invalid index or a connected pool fails without change; a refusal leaves the client stale; a success flags the pool and makes it current. |
| PoolManager.Manager.Start | internal/pool/manager.go:103-125 | No pools is an error; otherwise the pools are tried in order until one connects, and nothing else changes. |
| PoolManager.Manager.SwitchToNextPool | internal/pool/manager.go:219-306 | The call hangs exactly when the current pool's close would, with only its flag down; otherwise it leaves the pools and the index that failover specifies. |
| PoolManager.Manager.Stop | internal/pool/manager.go:406-423 | A second Stop panics; the first hangs on a stale connected pool or leaves every pool and resets the index. |

## Left out

- Keccak-256 is a parameter of every theorem; nothing about it is used but the length of its result.
- The four chains of `mulMatrix` run as goroutines in the source. They share only data they do not write, and are modelled one after the other.
- Slices: `calcSeedCache` and `GetData` give their words as a value; that callers share one slice of the cache is not modelled (nobody writes to it).
- SeedCache.Cache.GetData: one uninterrupted call; interleaved calls are the subject of `CacheProtocol`, whose cached value is any function of the seed.
- `isLittleEndian` and `swap`: the model is the little-endian machine.
- Engine.Engine.Mine: `Engine.Stop` clearing `running` in the middle of a call, elapsed times and the hash rate are not modelled. The stop channel is a function of the nonce at which it is looked at.
- Scan: hash counts are unbounded integers; reaching 2^64 is out of range of the program.
- Header.EncodingInjective: the precondition gives the widths the Go types have (64-bit height, nonce and timestamp).
- Header.AddressRoundTrip: the address decoder is modelled on bytes; invalid input gives the zero address, as in the source.
- SharePath: one client; what happens to a request when the manager changes pools in between is not modelled. Request ids are unbounded integers. A job's Go pointer is its value.
- SharePath.RoutingIsSafe: assumes that no answer comes to an id between its registration and its write; `PanicIffEarly` says that this is exactly what is needed.
- That no worker mines a stale job is not claimed: a worker may read the old job and then the new stop channel.
- HashReport: `lastMonitorSyncHashes` and the monitor's totals, which the main program also feeds from elsewhere, and the cumulative total sent along with a share.
- Lifecycle: one controlling caller. Backoff lengths, deadlines and the buffered job channel are left out; the outcome of a dial, handshake or read is free. That a read or a dial ends at all is not claimed.
- Failover.SwitchMeaning: says what a call does, not that it happens; `checkPoolHealth` returns early while the client calls itself alive. The manager's methods run one at a time in the model.
- PoolManager: `lastPing`, `hashRate`, the accepted and rejected counters and the statistics.
- JSON, the wire format of `mining.submit` (extraNonce2 and nTime come from the clock), TCP, keepalive, logging, configuration, the monitor, start scripts and `rpc/client.go`.
- `GetMatrix`, `PutMatrix`, `Reset`, `GetResultChannel`: unused or deprecated.
