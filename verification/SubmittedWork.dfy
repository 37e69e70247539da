/** The engine and the share path together: what a share on the wire is worth. */
module SubmittedWork {
  import opened Bytes
  import opened Words
  import opened Salsa
  import opened ROMix
  import opened Fold
  import opened Header
  import opened Target
  import E = Engine
  import S = SharePath

  /** The hash of the engine, in the configuration its constructor sets up, for a job and a nonce. */
  ghost function PowOfJob(keccak: Keccak, rows: nat, chunks: nat, side: nat, job: S.Job, nonce: nat): Hash
    requires E.Sized(rows, chunks, side)
  {
    E.PowOfHeader(keccak, ScryptMix(Salsa208), FnvCombine(), rows, chunks, side, job.header, nonce)
  }

  /** The test `Mine` makes for a captured job. */
  ghost function TestOf(keccak: Keccak, rows: nat, chunks: nat, side: nat): S.Test
    requires E.Sized(rows, chunks, side)
  {
    (job: S.Job, nonce: nat) => Meets(PowOfJob(keccak, rows, chunks, side, job, nonce), job.header.difficulty)
  }

  /** As the constructor of `Engine.Engine` leaves an engine. */
  ghost predicate Constructed(e: E.Engine, keccak: Keccak)
    reads e, e.cache
  {
    && e.Valid() && e.keccak == keccak && e.fnv == FnvCombine() && e.cache.mix == ScryptMix(Salsa208)
    && e.cache.n == 1024 && e.cache.chunks == 128 && e.side == 256
  }

  /** The test of the share path is the one an engine makes that comes from its constructor. */
  lemma TestIsEnginesTest(e: E.Engine, keccak: Keccak, rows: nat, chunks: nat, side: nat, job: S.Job, nonce: nat)
    requires Constructed(e, keccak) && rows == e.cache.n && chunks == e.cache.chunks && side == e.side
    ensures TestOf(keccak, rows, chunks, side)(job, nonce) == e.Passes(job.header)(nonce)
  {
    assert E.Sized(rows, chunks, side);
  }

  method NewEngine(keccak: Keccak) returns (e: E.Engine)
    ensures fresh(e) && Constructed(e, keccak)
  {
    e := new E.Engine(keccak);
  }

  /**
   The share passes the target test of its job, whose difficulty d is at least 1: its hash times d
   is at most 2^256 - 1, or d is greater than that and the hash is 1.
   */
  ghost predicate IsWork(keccak: Keccak, rows: nat, chunks: nat, side: nat, job: S.Job, nonce: nat)
    requires E.Sized(rows, chunks, side)
  {
    var h := BigNumber(PowOfJob(keccak, rows, chunks, side, job, nonce));
    && h <= DifficultyToTarget(job.header.difficulty)
    && job.header.difficulty.Some? && job.header.difficulty.value >= 1
    && (h * job.header.difficulty.value <= MAX_TARGET || (job.header.difficulty.value > MAX_TARGET && h == 1))
  }

  /** The share is work for a job with the id it names that the pool has offered in the run. */
  ghost predicate Worthy(keccak: Keccak, rows: nat, chunks: nat, side: nat, actions: seq<S.Action>, e: S.Share)
    requires E.Sized(rows, chunks, side)
  {
    exists job :: S.Offered(actions, job) && job.id == e.jobId && IsWork(keccak, rows, chunks, side, job, e.nonce)
  }

  lemma PassingIsWork(keccak: Keccak, rows: nat, chunks: nat, side: nat, job: S.Job, nonce: nat)
    requires E.Sized(rows, chunks, side) && TestOf(keccak, rows, chunks, side)(job, nonce)
    requires exists raw :: S.Accepted(raw) == Some(job)
    ensures IsWork(keccak, rows, chunks, side, job, nonce)
  {
    var raw :| S.Accepted(raw) == Some(job);
    S.AcceptedMeaning(raw);
    TargetExact(job.header.difficulty.value, BigNumber(PowOfJob(keccak, rows, chunks, side, job, nonce)));
  }

  lemma ValidIsWorthy(keccak: Keccak, rows: nat, chunks: nat, side: nat, actions: seq<S.Action>, t: S.State, e: S.Share)
    requires E.Sized(rows, chunks, side) && S.Valid(TestOf(keccak, rows, chunks, side), t, e)
    requires forall job :: job in t.delivered ==> S.Offered(actions, job)
    ensures Worthy(keccak, rows, chunks, side, actions, e)
  {
    var test := TestOf(keccak, rows, chunks, side);
    var job :| job in t.delivered && job.id == e.jobId && test(job, e.nonce);
    PassingIsWork(keccak, rows, chunks, side, job, e.nonce);
  }

  /** Over every interleaving, every share on the wire is work for a job the pool has offered under the id it names. */
  lemma SubmittedSharesAreWork(keccak: Keccak, rows: nat, chunks: nat, side: nat, actions: seq<S.Action>)
    requires E.Sized(rows, chunks, side)
    ensures var t := S.Run(TestOf(keccak, rows, chunks, side), S.INITIAL, actions);
            forall e :: e in t.wire ==> Worthy(keccak, rows, chunks, side, actions, e)
  {
    var test := TestOf(keccak, rows, chunks, side);
    var t := S.Run(test, S.INITIAL, actions);
    S.SubmittedSharesAreValid(test, actions);
    S.DeliveredWereOffered(test, S.INITIAL, actions);
    assert S.AllValid(test, t);
    forall e | e in t.wire
      ensures Worthy(keccak, rows, chunks, side, actions, e)
    {
      assert S.Valid(test, t, e);
      ValidIsWorthy(keccak, rows, chunks, side, actions, t, e);
    }
  }
}
