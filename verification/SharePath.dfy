/**
 From a job to a counted share: several workers capture jobs, mine, submit and wait, while jobs
 change underneath them, hash reports and handshakes use the same request ids, and one read loop
 routes the responses of the pool.

 The system is a state machine.  A step is a stretch of code between two points where another
 goroutine can get in: a critical section, an atomic counter, a channel operation, a write.
 Mining is one step, because it touches nothing the others see; its effect is that of
 `Scan.After`.  What the pool does, whether writes succeed, and when waits time out is left open.

 Every step is total: an action that is not enabled leaves the state alone.
 */
module SharePath {
  import opened Words
  import opened Header
  import opened Scan

  // ---- Jobs ----

  /** A job as the pool sends it, with hex strings. */
  datatype RawJob = RawJob(jobId: nat, height: nat, prevHash: seq<byte>, merkleRoot: seq<byte>, stateRoot: seq<byte>,
                           difficulty: int, timestamp: int, minerAddress: seq<byte>)

  datatype Job = Job(id: nat, header: BlockHeader)

  /** `handleNotify` raises a difficulty that is not positive to 1. */
  function JobDifficulty(parsed: int): (d: nat)
    ensures d == if parsed >= 1 then parsed else 1
  {
    if parsed <= 0 then 1 else parsed
  }

  /** What `handleNewJob` makes of a raw job; nothing when it refuses to mine. */
  function Accepted(raw: RawJob): Option<Job> {
    match (HexDecode(raw.prevHash), HexDecode(raw.merkleRoot), HexDecode(raw.stateRoot))
    case (Some(prevHash), Some(merkleRoot), Some(stateRoot)) =>
      if |stateRoot| != 32 then None
      else Some(Job(raw.jobId, BlockHeader(raw.height, prevHash, merkleRoot, stateRoot, raw.timestamp,
                                           Some(JobDifficulty(raw.difficulty)), raw.minerAddress, 1)))
    case _ => None
  }

  // ---- State ----

  datatype Phase =
    | Allocated   // has a request id
    | Registered  // its channel is in the pending table
    | Written     // the write succeeded; the worker waits
    | Unsent      // the write failed, the table entry is gone
    | Dropped     // given up before or after closing the channel

  datatype Request = Request(worker: nat, job: Job, nonce: nat, phase: Phase, chan: nat)

  datatype Verdict = Verdict(id: nat, accepted: bool)

  /** A response channel of capacity one, and the request it was made for. */
  datatype Chan = Chan(id: nat, queue: seq<Verdict>, closed: bool)

  datatype Worker =
    | Idle
    | Captured(job: Job)
    | HasShare(job: Job, nonce: nat)
    | Busy(id: nat)

  datatype ReadLoop = Reading | Routing(chan: nat, verdict: Verdict)

  /** A share on the wire. */
  datatype Share = Share(id: nat, jobId: nat, nonce: nat)

  /** `delivered`, `wire`, `answers`, `deliveries` and `counted` are histories. */
  datatype State = State(
    currentJob: Option<Job>,
    delivered: set<Job>,
    workers: map<nat, Worker>,
    counters: map<nat, Counters>,
    nextId: nat,
    nextChan: nat,
    requests: map<nat, Request>,
    otherIds: set<nat>,
    answerable: set<nat>,
    pending: map<nat, nat>,
    chans: map<nat, Chan>,
    loop: ReadLoop,
    wire: seq<Share>,
    answers: set<Verdict>,
    deliveries: seq<nat>,
    counted: seq<nat>,
    acceptedWork: nat,
    panicked: bool)

  const INITIAL: State :=
    State(None, {}, map[], map[], 0, 0, map[], {}, {}, map[], map[], Reading, [], {}, [], [], 0, false)

  datatype Action =
    | NewJob(raw: RawJob)
    | ClientGone                                   // monitorJobs clears the current job
    | Capture(w: nat)
    | Mine(w: nat, stop: nat -> bool, clock: nat)
    | NoClient(w: nat)                             // submitSolution finds no client
    | Allocate(w: nat)
    | Register(w: nat)
    | NotConnected(w: nat)
    | WriteOk(w: nat)
    | WriteFails(w: nat)                           // the table entry is deleted
    | CloseChannel(w: nat)                         // and then the channel is closed
    | OtherRequest(sent: bool)                     // hash report, subscribe or authorize
    | Respond(id: nat, accepted: bool)             // the loop reads a response and looks the id up
    | Send                                         // the loop sends on the channel it found
    | Receive(w: nat)
    | Timeout(w: nat)

  function WorkerOf(s: State, w: nat): Worker {
    if w in s.workers then s.workers[w] else Idle
  }

  function CountersOf(s: State, w: nat): Counters {
    if w in s.counters then s.counters[w] else Counters(0, 0)
  }

  /** The request worker w is busy with, in the given phase. */
  predicate InPhase(s: State, w: nat, phase: Phase) {
    var p := WorkerOf(s, w);
    p.Busy? && p.id in s.requests && s.requests[p.id].phase == phase
  }

  function SetPhase(s: State, id: nat, phase: Phase): State
    requires id in s.requests
  {
    s.(requests := s.requests[id := s.requests[id].(phase := phase)])
  }

  function SetWorker(s: State, w: nat, p: Worker): State {
    s.(workers := s.workers[w := p])
  }

  // ---- Steps ----

  type Test = (Job, nat) -> bool

  function NewJobStep(s: State, raw: RawJob): State {
    match Accepted(raw)
    case Some(job) => s.(currentJob := Some(job), delivered := s.delivered + {job})
    case None => s
  }

  function CaptureStep(s: State, w: nat): State {
    if WorkerOf(s, w).Idle? && s.currentJob.Some? then SetWorker(s, w, Captured(s.currentJob.value)) else s
  }

  /** One call of `Mine` on the captured job. */
  function MineStep(meets: Test, s: State, w: nat, stop: nat -> bool, clock: nat): State {
    if !WorkerOf(s, w).Captured? then s
    else
      var job := WorkerOf(s, w).job;
      var c := Call((n: nat) => meets(job, n), stop, clock);
      var counts := CountersOf(s, w);
      var t := s.(counters := s.counters[w := After(counts, c)]);
      match OutcomeOf(counts, c)
      case Found(n) => SetWorker(t, w, HasShare(job, n))
      case _ => SetWorker(t, w, Idle)
  }

  function AllocateStep(s: State, w: nat): State {
    match WorkerOf(s, w)
    case HasShare(job, nonce) =>
      var id := s.nextId + 1;
      SetWorker(s.(nextId := id, requests := s.requests[id := Request(w, job, nonce, Allocated, 0)]), w, Busy(id))
    case _ => s
  }

  function RegisterStep(s: State, w: nat): State {
    if !InPhase(s, w, Allocated) then s
    else
      var id := s.workers[w].id;
      var c := s.nextChan;
      s.(nextChan := c + 1,
         chans := s.chans[c := Chan(id, [], false)],
         pending := s.pending[id := c],
         requests := s.requests[id := s.requests[id].(phase := Registered, chan := c)])
  }

  function NotConnectedStep(s: State, w: nat): State {
    if !InPhase(s, w, Registered) then s
    else
      var id := s.workers[w].id;
      SetWorker(SetPhase(s.(pending := s.pending - {id}), id, Dropped), w, Idle)
  }

  function WriteOkStep(s: State, w: nat): State {
    if !InPhase(s, w, Registered) then s
    else
      var id := s.workers[w].id;
      var r := s.requests[id];
      SetPhase(s.(answerable := s.answerable + {id}, wire := s.wire + [Share(id, r.job.id, r.nonce)]), id, Written)
  }

  function WriteFailsStep(s: State, w: nat): State {
    if !InPhase(s, w, Registered) then s
    else
      var id := s.workers[w].id;
      SetPhase(s.(pending := s.pending - {id}), id, Unsent)
  }

  function CloseChannelStep(s: State, w: nat): State {
    if !InPhase(s, w, Unsent) then s
    else
      var id := s.workers[w].id;
      var c := s.requests[id].chan;
      var t := if c in s.chans then s.(chans := s.chans[c := s.chans[c].(closed := true)]) else s;
      SetWorker(SetPhase(t, id, Dropped), w, Idle)
  }

  function OtherRequestStep(s: State, sent: bool): State {
    var id := s.nextId + 1;
    s.(nextId := id, otherIds := s.otherIds + {id}, answerable := if sent then s.answerable + {id} else s.answerable)
  }

  /** The critical section of `handleSubmitResponse`: find the channel and forget the id. */
  function RespondStep(s: State, id: nat, accepted: bool): State {
    if s.panicked || !s.loop.Reading? then s
    else
      var t := s.(answers := s.answers + {Verdict(id, accepted)});
      if id in s.pending then t.(pending := s.pending - {id}, loop := Routing(s.pending[id], Verdict(id, accepted)))
      else t
  }

  /** A send on a closed channel panics; a send on a full one does not return. */
  function SendStep(s: State): State {
    if s.panicked || !s.loop.Routing? || s.loop.chan !in s.chans then s
    else
      var c, v := s.loop.chan, s.loop.verdict;
      var ch := s.chans[c];
      if ch.closed then s.(panicked := true)
      else if |ch.queue| >= 1 then s
      else s.(chans := s.chans[c := ch.(queue := ch.queue + [v])], loop := Reading, deliveries := s.deliveries + [c])
  }

  function ReceiveStep(s: State, w: nat): State {
    if !InPhase(s, w, Written) then s
    else
      var id := s.workers[w].id;
      var c := s.requests[id].chan;
      if c !in s.chans || |s.chans[c].queue| == 0 then s
      else
        var v := s.chans[c].queue[0];
        var t := SetWorker(s.(chans := s.chans[c := s.chans[c].(queue := s.chans[c].queue[1..])]), w, Idle);
        if v.accepted then t.(acceptedWork := s.acceptedWork + 1, counted := s.counted + [v.id]) else t
  }

  /** The pending entry stays behind; a late response finds an empty channel nobody reads. */
  function TimeoutStep(s: State, w: nat): State {
    if InPhase(s, w, Written) then SetWorker(s, w, Idle) else s
  }

  function Step(meets: Test, s: State, a: Action): State {
    match a
    case NewJob(raw) => NewJobStep(s, raw)
    case ClientGone => s.(currentJob := None)
    case Capture(w) => CaptureStep(s, w)
    case Mine(w, stop, clock) => MineStep(meets, s, w, stop, clock)
    case NoClient(w) => if WorkerOf(s, w).HasShare? then SetWorker(s, w, Idle) else s
    case Allocate(w) => AllocateStep(s, w)
    case Register(w) => RegisterStep(s, w)
    case NotConnected(w) => NotConnectedStep(s, w)
    case WriteOk(w) => WriteOkStep(s, w)
    case WriteFails(w) => WriteFailsStep(s, w)
    case CloseChannel(w) => CloseChannelStep(s, w)
    case OtherRequest(sent) => OtherRequestStep(s, sent)
    case Respond(id, accepted) => RespondStep(s, id, accepted)
    case Send => SendStep(s)
    case Receive(w) => ReceiveStep(s, w)
    case Timeout(w) => TimeoutStep(s, w)
  }

  function Run(meets: Test, s: State, actions: seq<Action>): State {
    if |actions| == 0 then s else Step(meets, Run(meets, s, actions[..|actions| - 1]), actions[|actions| - 1])
  }

  /** The read loop takes an answer to an id that is registered but has not been written. */
  predicate Early(s: State, a: Action) {
    a.Respond? && s.loop.Reading? && a.id in s.pending && a.id !in s.answerable
  }

  /** No answer of the run is early; answers to unknown, dropped or failed ids may come at any time. */
  ghost predicate NeverEarly(meets: Test, s: State, actions: seq<Action>) {
    forall i :: 0 <= i < |actions| ==> !Early(Run(meets, s, actions[..i]), actions[i])
  }

  // ---- Invariant: shares ----

  /** Every job in hand was delivered, and every share in hand passes the test of its job. */
  ghost predicate JobsDelivered(meets: Test, s: State) {
    && (forall id :: id in s.requests ==> id <= s.nextId)
    && (s.currentJob.Some? ==> s.currentJob.value in s.delivered)
    && (forall w :: w in s.workers ==> match s.workers[w]
          case Captured(job) => job in s.delivered
          case HasShare(job, nonce) => job in s.delivered && meets(job, nonce)
          case _ => true)
    && (forall id :: id in s.requests ==> s.requests[id].job in s.delivered && meets(s.requests[id].job, s.requests[id].nonce))
    && (forall i :: 0 <= i < |s.wire| ==>
          var e := s.wire[i];
          e.id in s.requests && e.jobId == s.requests[e.id].job.id && e.nonce == s.requests[e.id].nonce)
  }

  /** A share that passes, for a job the pool delivered under that id. */
  ghost predicate Valid(meets: Test, s: State, e: Share) {
    exists job :: job in s.delivered && job.id == e.jobId && meets(job, e.nonce)
  }

  ghost predicate AllValid(meets: Test, s: State) {
    forall e :: e in s.wire ==> Valid(meets, s, e)
  }

  lemma MineFindsPassing(meets: Test, job: Job, counts: Counters, stop: nat -> bool, clock: nat)
    ensures var o := OutcomeOf(counts, Call((n: nat) => meets(job, n), stop, clock));
            o.Found? ==> meets(job, o.nonce)
  {
    ScanMeaning((n: nat) => meets(job, n), stop, Start(counts.lastNonce, clock));
  }

  lemma NewJobKeepsJobs(meets: Test, s: State, raw: RawJob)
    requires JobsDelivered(meets, s)
    ensures JobsDelivered(meets, NewJobStep(s, raw))
  {
  }

  lemma CaptureKeepsJobs(meets: Test, s: State, w: nat)
    requires JobsDelivered(meets, s)
    ensures JobsDelivered(meets, CaptureStep(s, w))
  {
  }

  lemma MineKeepsJobs(meets: Test, s: State, w: nat, stop: nat -> bool, clock: nat)
    requires JobsDelivered(meets, s)
    ensures JobsDelivered(meets, MineStep(meets, s, w, stop, clock))
  {
    if WorkerOf(s, w).Captured? {
      MineFindsPassing(meets, s.workers[w].job, CountersOf(s, w), stop, clock);
    }
  }

  lemma MiningKeepsJobs(meets: Test, s: State, a: Action)
    requires JobsDelivered(meets, s) && (a.NewJob? || a.ClientGone? || a.Capture? || a.Mine? || a.NoClient?)
    ensures JobsDelivered(meets, Step(meets, s, a))
  {
    match a
    case NewJob(raw) => NewJobKeepsJobs(meets, s, raw);
    case Capture(w) => CaptureKeepsJobs(meets, s, w);
    case Mine(w, stop, clock) => MineKeepsJobs(meets, s, w, stop, clock);
    case _ =>
  }

  lemma SubmittingKeepsJobs(meets: Test, s: State, a: Action)
    requires JobsDelivered(meets, s) && (a.Allocate? || a.Register? || a.NotConnected? || a.WriteOk?)
    ensures JobsDelivered(meets, Step(meets, s, a))
  {
  }

  lemma FailingKeepsJobs(meets: Test, s: State, a: Action)
    requires JobsDelivered(meets, s) && (a.WriteFails? || a.CloseChannel? || a.OtherRequest?)
    ensures JobsDelivered(meets, Step(meets, s, a))
  {
  }

  lemma RoutingKeepsJobs(meets: Test, s: State, t: State)
    requires JobsDelivered(meets, s) && t == s.(answers := t.answers, pending := t.pending, loop := t.loop,
                                                panicked := t.panicked, chans := t.chans, deliveries := t.deliveries)
    ensures JobsDelivered(meets, t)
  {
  }

  lemma RespondKeepsJobs(meets: Test, s: State, id: nat, accepted: bool)
    requires JobsDelivered(meets, s)
    ensures JobsDelivered(meets, RespondStep(s, id, accepted))
  {
    RoutingKeepsJobs(meets, s, RespondStep(s, id, accepted));
  }

  lemma SendKeepsJobs(meets: Test, s: State)
    requires JobsDelivered(meets, s)
    ensures JobsDelivered(meets, SendStep(s))
  {
    RoutingKeepsJobs(meets, s, SendStep(s));
  }

  lemma TimeoutKeepsJobs(meets: Test, s: State, w: nat)
    requires JobsDelivered(meets, s)
    ensures JobsDelivered(meets, TimeoutStep(s, w))
  {
  }

  lemma ReceivingKeepsJobs(meets: Test, s: State, w: nat)
    requires JobsDelivered(meets, s)
    ensures JobsDelivered(meets, ReceiveStep(s, w))
  {
  }

  lemma StepKeepsJobs(meets: Test, s: State, a: Action)
    requires JobsDelivered(meets, s)
    ensures JobsDelivered(meets, Step(meets, s, a))
  {
    if a.NewJob? || a.ClientGone? || a.Capture? || a.Mine? || a.NoClient? {
      MiningKeepsJobs(meets, s, a);
    } else if a.Allocate? || a.Register? || a.NotConnected? || a.WriteOk? {
      SubmittingKeepsJobs(meets, s, a);
    } else if a.WriteFails? || a.CloseChannel? || a.OtherRequest? {
      FailingKeepsJobs(meets, s, a);
    } else if a.Receive? {
      ReceivingKeepsJobs(meets, s, a.w);
    } else if a.Timeout? {
      TimeoutKeepsJobs(meets, s, a.w);
    } else if a.Respond? {
      RespondKeepsJobs(meets, s, a.id, a.accepted);
    } else {
      SendKeepsJobs(meets, s);
    }
  }

  lemma {:induction false} RunKeepsJobs(meets: Test, s: State, actions: seq<Action>)
    requires JobsDelivered(meets, s)
    ensures JobsDelivered(meets, Run(meets, s, actions))
  {
    if |actions| > 0 {
      RunKeepsJobs(meets, s, actions[..|actions| - 1]);
      StepKeepsJobs(meets, Run(meets, s, actions[..|actions| - 1]), actions[|actions| - 1]);
    }
  }

  /**
   Every share on the wire is valid for the job it names, in every interleaving, however far the
   current job has moved on, and whatever the pool answers.
   */
  lemma SubmittedSharesAreValid(meets: Test, actions: seq<Action>)
    ensures AllValid(meets, Run(meets, INITIAL, actions))
  {
    RunKeepsJobs(meets, INITIAL, actions);
    var t := Run(meets, INITIAL, actions);
    forall e | e in t.wire
      ensures Valid(meets, t, e)
    {
      var i :| 0 <= i < |t.wire| && t.wire[i] == e;
      var r := t.requests[e.id];
      assert r.job in t.delivered && r.job.id == e.jobId && meets(r.job, e.nonce);
    }
  }

  /** The pool has offered this job in the run, and the miner did not refuse it. */
  ghost predicate Offered(actions: seq<Action>, job: Job) {
    exists raw :: NewJob(raw) in actions && Accepted(raw) == Some(job)
  }

  lemma DeliveredOnlyByNewJob(meets: Test, s: State, a: Action, job: Job)
    requires job in Step(meets, s, a).delivered
    ensures job in s.delivered || (a.NewJob? && Accepted(a.raw) == Some(job))
  {
    if !a.NewJob? {
      HistoriesKept(meets, s, a);
    }
  }

  lemma SubmittingKeepsHistories(meets: Test, s: State, a: Action)
    requires a.Allocate? || a.Register? || a.NotConnected? || a.WriteOk? || a.WriteFails? || a.CloseChannel?
    ensures Step(meets, s, a).delivered == s.delivered && Step(meets, s, a).answers == s.answers
  {
  }

  lemma MineKeepsHistories(meets: Test, s: State, w: nat, stop: nat -> bool, clock: nat)
    ensures MineStep(meets, s, w, stop, clock).delivered == s.delivered
    ensures MineStep(meets, s, w, stop, clock).answers == s.answers
  {
  }

  lemma HistoriesKept(meets: Test, s: State, a: Action)
    requires !a.NewJob?
    ensures Step(meets, s, a).delivered == s.delivered
    ensures !a.Respond? ==> Step(meets, s, a).answers == s.answers
  {
    if a.Mine? {
      MineKeepsHistories(meets, s, a.w, a.stop, a.clock);
    } else if a.Allocate? || a.Register? || a.NotConnected? || a.WriteOk? || a.WriteFails? || a.CloseChannel? {
      SubmittingKeepsHistories(meets, s, a);
    }
  }

  lemma {:induction false} DeliveredWereOffered(meets: Test, s: State, actions: seq<Action>)
    requires s.delivered == {}
    ensures forall job :: job in Run(meets, s, actions).delivered ==> Offered(actions, job)
  {
    if |actions| > 0 {
      var front, a := actions[..|actions| - 1], actions[|actions| - 1];
      DeliveredWereOffered(meets, s, front);
      assert actions == front + [a];
      forall job | job in Run(meets, s, actions).delivered
        ensures Offered(actions, job)
      {
        DeliveredOnlyByNewJob(meets, Run(meets, s, front), a, job);
        if job in Run(meets, s, front).delivered {
          var raw :| NewJob(raw) in front && Accepted(raw) == Some(job);
          assert NewJob(raw) in actions;
        } else {
          assert NewJob(a.raw) in actions;
        }
      }
    }
  }

  /**
   What the miner makes of a raw job: it refuses unless all three roots decode and the state root has
   32 bytes; each decoded root is in the header field of its name, a difficulty below 1 has become 1,
   and everything else is as sent.
   */
  lemma AcceptedMeaning(raw: RawJob)
    ensures Accepted(raw).Some? <==> HexDecode(raw.prevHash).Some? && HexDecode(raw.merkleRoot).Some?
                                     && HexDecode(raw.stateRoot).Some? && |HexDecode(raw.stateRoot).value| == 32
    ensures Accepted(raw).Some? ==>
              var job := Accepted(raw).value;
              && job.id == raw.jobId && job.header.height == raw.height && job.header.timestamp == raw.timestamp
              && Some(job.header.prevHash) == HexDecode(raw.prevHash)
              && Some(job.header.merkleRoot) == HexDecode(raw.merkleRoot)
              && Some(job.header.stateRoot) == HexDecode(raw.stateRoot)
              && job.header.minerAddress == raw.minerAddress && job.header.chainID == 1
              && job.header.difficulty == Some(if raw.difficulty >= 1 then raw.difficulty else 1)
  {
  }

  // ---- Invariant: routing ----

  /** Ids are used once: for one submission or for one other request. */
  ghost predicate IdsInv(s: State) {
    && (forall id :: id in s.requests ==> id <= s.nextId && id !in s.otherIds)
    && (forall id :: id in s.otherIds ==> id <= s.nextId)
    && (forall id :: id in s.answerable ==> id in s.otherIds || id in s.requests)
  }

  /** How far the request has come, as the table of pending requests and the pool see it. */
  ghost predicate RequestInv(s: State, id: nat, r: Request) {
    && (id in s.answerable <==> r.phase == Written)
    && (r.phase == Registered ==> id in s.pending)
    && (id in s.pending ==> (r.phase == Registered || r.phase == Written) && s.pending[id] == r.chan)
    && (r.phase != Allocated ==> r.chan in s.chans && s.chans[r.chan].id == id)
  }

  /** A channel belongs to one request, is closed only if that was never written, and holds at most its answer. */
  ghost predicate ChanInv(s: State, c: nat, ch: Chan) {
    && c < s.nextChan && ch.id in s.requests
    && s.requests[ch.id].phase != Allocated && s.requests[ch.id].chan == c
    && (ch.closed ==> s.requests[ch.id].phase == Dropped)
    && |ch.queue| <= 1
    && (forall v :: v in ch.queue ==> v.id == ch.id && v in s.answers)
    && (ch.id in s.pending || c !in s.deliveries ==> |ch.queue| == 0)
  }

  ghost predicate LoopInv(s: State) {
    s.loop.Routing? ==>
      var c, v := s.loop.chan, s.loop.verdict;
      && c in s.chans && s.chans[c].id == v.id && v.id in s.requests && s.requests[v.id].phase == Written
      && v.id !in s.pending && c !in s.deliveries && v in s.answers
  }

  ghost predicate DeliveriesInv(s: State) {
    && (forall i, j :: 0 <= i < j < |s.deliveries| ==> s.deliveries[i] != s.deliveries[j])
    && (forall c :: c in s.deliveries ==> c in s.chans && s.chans[c].id !in s.pending)
  }

  ghost predicate WorkersInv(s: State) {
    forall w :: w in s.workers && s.workers[w].Busy? ==>
      s.workers[w].id in s.requests && s.requests[s.workers[w].id].worker == w
  }

  ghost predicate TableInv(s: State) {
    && IdsInv(s)
    && (forall id :: id in s.pending ==> id in s.requests)
    && (forall id :: id in s.requests ==> RequestInv(s, id, s.requests[id]))
    && WorkersInv(s)
  }

  ghost predicate ChannelsInv(s: State) {
    && (forall c :: c in s.chans ==> ChanInv(s, c, s.chans[c]))
    && LoopInv(s) && DeliveriesInv(s)
    && !s.panicked
  }

  lemma AllocateKeepsTable(s: State, w: nat)
    requires TableInv(s) && ChannelsInv(s)
    ensures TableInv(AllocateStep(s, w))
  {
  }

  lemma AllocateKeepsChannels(s: State, w: nat)
    requires TableInv(s) && ChannelsInv(s)
    ensures ChannelsInv(AllocateStep(s, w))
  {
  }

  lemma RegisterKeepsTable(s: State, w: nat)
    requires TableInv(s) && ChannelsInv(s)
    ensures TableInv(RegisterStep(s, w))
  {
  }

  lemma RegisterKeepsChannels(s: State, w: nat)
    requires TableInv(s) && ChannelsInv(s)
    ensures ChannelsInv(RegisterStep(s, w))
  {
  }

  lemma NotConnectedKeepsTable(s: State, w: nat)
    requires TableInv(s) && ChannelsInv(s)
    ensures TableInv(NotConnectedStep(s, w))
  {
  }

  lemma NotConnectedKeepsChannels(s: State, w: nat)
    requires TableInv(s) && ChannelsInv(s)
    ensures ChannelsInv(NotConnectedStep(s, w))
  {
  }

  lemma WriteOkKeepsTable(s: State, w: nat)
    requires TableInv(s) && ChannelsInv(s)
    ensures TableInv(WriteOkStep(s, w))
  {
  }

  lemma WriteOkKeepsChannels(s: State, w: nat)
    requires TableInv(s) && ChannelsInv(s)
    ensures ChannelsInv(WriteOkStep(s, w))
  {
  }

  lemma WriteFailsKeepsTable(s: State, w: nat)
    requires TableInv(s) && ChannelsInv(s)
    ensures TableInv(WriteFailsStep(s, w))
  {
  }

  lemma WriteFailsKeepsChannels(s: State, w: nat)
    requires TableInv(s) && ChannelsInv(s)
    ensures ChannelsInv(WriteFailsStep(s, w))
  {
  }

  lemma CloseChannelKeepsRequests(s: State, w: nat)
    requires TableInv(s)
    ensures var t := CloseChannelStep(s, w);
            && (forall id :: id in t.pending ==> id in t.requests)
            && (forall id :: id in t.requests ==> RequestInv(t, id, t.requests[id]))
  {
  }

  lemma CloseChannelKeepsIds(s: State, w: nat)
    requires TableInv(s)
    ensures IdsInv(CloseChannelStep(s, w)) && WorkersInv(CloseChannelStep(s, w))
  {
  }

  lemma CloseChannelKeepsTable(s: State, w: nat)
    requires TableInv(s) && ChannelsInv(s)
    ensures TableInv(CloseChannelStep(s, w))
  {
    CloseChannelKeepsRequests(s, w);
    CloseChannelKeepsIds(s, w);
  }

  lemma CloseChannelKeepsChans(s: State, w: nat)
    requires TableInv(s) && ChannelsInv(s)
    ensures var t := CloseChannelStep(s, w); forall c :: c in t.chans ==> ChanInv(t, c, t.chans[c])
  {
  }

  lemma CloseChannelKeepsLoop(s: State, w: nat)
    requires TableInv(s) && ChannelsInv(s)
    ensures var t := CloseChannelStep(s, w); LoopInv(t) && DeliveriesInv(t) && !t.panicked
  {
  }

  lemma CloseChannelKeepsChannels(s: State, w: nat)
    requires TableInv(s) && ChannelsInv(s)
    ensures ChannelsInv(CloseChannelStep(s, w))
  {
    CloseChannelKeepsChans(s, w);
    CloseChannelKeepsLoop(s, w);
  }

  lemma OtherRequestKeepsTable(s: State, sent: bool)
    requires TableInv(s) && ChannelsInv(s)
    ensures TableInv(OtherRequestStep(s, sent))
  {
  }

  lemma OtherRequestKeepsChannels(s: State, sent: bool)
    requires TableInv(s) && ChannelsInv(s)
    ensures ChannelsInv(OtherRequestStep(s, sent))
  {
  }

  lemma RespondKeepsTable(s: State, id: nat, accepted: bool)
    requires TableInv(s) && ChannelsInv(s) && !Early(s, Respond(id, accepted))
    ensures TableInv(RespondStep(s, id, accepted))
  {
  }

  lemma RespondKeepsChannels(s: State, id: nat, accepted: bool)
    requires TableInv(s) && ChannelsInv(s) && !Early(s, Respond(id, accepted))
    ensures ChannelsInv(RespondStep(s, id, accepted))
  {
  }

  lemma SendKeepsTable(s: State)
    requires TableInv(s) && ChannelsInv(s)
    ensures TableInv(SendStep(s))
  {
  }

  lemma SendKeepsChannels(s: State)
    requires TableInv(s) && ChannelsInv(s)
    ensures ChannelsInv(SendStep(s))
  {
  }

  /** After a receive the channel is empty; nothing else about channels changes. */
  lemma ReceiveEmpties(s: State, w: nat)
    requires TableInv(s) && ChannelsInv(s) && ReceiveStep(s, w) != s
    ensures InPhase(s, w, Written)
    ensures var id := s.workers[w].id;
            var c := s.requests[id].chan;
            var t := ReceiveStep(s, w);
            && c in s.chans && s.chans[c].id == id && |s.chans[c].queue| == 1 && s.chans[c].queue[0].id == id
            && t.chans == s.chans[c := Chan(id, [], s.chans[c].closed)]
            && t.workers == s.workers[w := Idle]
            && t == s.(chans := t.chans, workers := t.workers, acceptedWork := t.acceptedWork, counted := t.counted)
  {
    var c := s.requests[s.workers[w].id].chan;
    assert ChanInv(s, c, s.chans[c]);
    assert s.chans[c].queue[0] in s.chans[c].queue;
    assert s.chans[c].queue[1..] == [];
  }

  /** s with channel c emptied and worker w idle. */
  ghost predicate Emptied(s: State, t: State, c: nat, w: nat) {
    c in s.chans &&
    t == s.(chans := s.chans[c := Chan(s.chans[c].id, [], s.chans[c].closed)], workers := s.workers[w := Idle],
            acceptedWork := t.acceptedWork, counted := t.counted)
  }

  lemma EmptiedKeepsTable(s: State, t: State, c: nat, w: nat)
    requires TableInv(s) && ChannelsInv(s) && Emptied(s, t, c, w)
    ensures TableInv(t)
  {
  }

  lemma EmptiedKeepsChannels(s: State, t: State, c: nat, w: nat)
    requires TableInv(s) && ChannelsInv(s) && Emptied(s, t, c, w)
    ensures ChannelsInv(t)
  {
  }

  lemma ReceiveKeeps(s: State, w: nat)
    requires TableInv(s) && ChannelsInv(s)
    ensures TableInv(ReceiveStep(s, w)) && ChannelsInv(ReceiveStep(s, w))
  {
    var t := ReceiveStep(s, w);
    if t != s {
      ReceiveEmpties(s, w);
      EmptiedKeepsTable(s, t, s.requests[s.workers[w].id].chan, w);
      EmptiedKeepsChannels(s, t, s.requests[s.workers[w].id].chan, w);
    }
  }

  /** Steps that touch no request: s and t differ in jobs, counters and idle or mining workers only. */
  ghost predicate Quiet(s: State, t: State) {
    && t == s.(currentJob := t.currentJob, delivered := t.delivered, workers := t.workers, counters := t.counters)
    && forall w :: w in t.workers && t.workers[w].Busy? ==> w in s.workers && s.workers[w] == t.workers[w]
  }

  predicate QuietAction(a: Action) {
    a.NewJob? || a.ClientGone? || a.Capture? || a.Mine? || a.NoClient? || a.Timeout?
  }

  lemma MineIsQuiet(meets: Test, s: State, w: nat, stop: nat -> bool, clock: nat)
    ensures Quiet(s, MineStep(meets, s, w, stop, clock))
  {
  }

  lemma StepIsQuiet(meets: Test, s: State, a: Action)
    requires QuietAction(a)
    ensures Quiet(s, Step(meets, s, a))
  {
    match a
    case Mine(w, stop, clock) => MineIsQuiet(meets, s, w, stop, clock);
    case NewJob(raw) => NewJobIsQuiet(s, raw);
    case Capture(w) => CaptureIsQuiet(s, w);
    case _ =>
  }

  lemma NewJobIsQuiet(s: State, raw: RawJob)
    ensures Quiet(s, NewJobStep(s, raw))
  {
  }

  lemma CaptureIsQuiet(s: State, w: nat)
    ensures Quiet(s, CaptureStep(s, w))
  {
  }

  lemma QuietKeepsTable(s: State, t: State)
    requires TableInv(s) && Quiet(s, t)
    ensures TableInv(t)
  {
  }

  lemma QuietKeepsChannels(s: State, t: State)
    requires ChannelsInv(s) && Quiet(s, t)
    ensures ChannelsInv(t)
  {
  }

  lemma QuietStepKeeps(meets: Test, s: State, a: Action)
    requires TableInv(s) && ChannelsInv(s) && QuietAction(a)
    ensures TableInv(Step(meets, s, a)) && ChannelsInv(Step(meets, s, a))
  {
    StepIsQuiet(meets, s, a);
    QuietKeepsTable(s, Step(meets, s, a));
    QuietKeepsChannels(s, Step(meets, s, a));
  }

  lemma StepKeepsRouting(meets: Test, s: State, a: Action)
    requires TableInv(s) && ChannelsInv(s) && !Early(s, a)
    ensures TableInv(Step(meets, s, a)) && ChannelsInv(Step(meets, s, a))
  {
    match a
    case Allocate(w) => AllocateKeepsTable(s, w); AllocateKeepsChannels(s, w);
    case Register(w) => RegisterKeepsTable(s, w); RegisterKeepsChannels(s, w);
    case NotConnected(w) => NotConnectedKeepsTable(s, w); NotConnectedKeepsChannels(s, w);
    case WriteOk(w) => WriteOkKeepsTable(s, w); WriteOkKeepsChannels(s, w);
    case WriteFails(w) => WriteFailsKeepsTable(s, w); WriteFailsKeepsChannels(s, w);
    case CloseChannel(w) => CloseChannelKeepsTable(s, w); CloseChannelKeepsChannels(s, w);
    case OtherRequest(sent) => OtherRequestKeepsTable(s, sent); OtherRequestKeepsChannels(s, sent);
    case Respond(id, accepted) => RespondKeepsTable(s, id, accepted); RespondKeepsChannels(s, id, accepted);
    case Send => SendKeepsTable(s); SendKeepsChannels(s);
    case Receive(w) => ReceiveKeeps(s, w);
    case _ => QuietStepKeeps(meets, s, a);
  }

  // ---- Invariant: each share is written once and counted once ----

  ghost predicate WireInv(s: State) {
    && (forall i :: 0 <= i < |s.wire| ==> s.wire[i].id in s.requests && s.requests[s.wire[i].id].phase == Written)
    && (forall i, j :: 0 <= i < j < |s.wire| ==> s.wire[i].id != s.wire[j].id)
  }

  /** A counted id was answered with true, and its one answer has been taken from its channel. */
  ghost predicate CountInv(s: State) {
    && s.acceptedWork == |s.counted|
    && (forall i, j :: 0 <= i < j < |s.counted| ==> s.counted[i] != s.counted[j])
    && (forall id :: id in s.counted ==>
          && Verdict(id, true) in s.answers && id in s.requests && s.requests[id].phase == Written
          && s.requests[id].chan in s.deliveries
          && s.requests[id].chan in s.chans && s.chans[s.requests[id].chan].queue == [])
  }

  lemma SubmittingKeepsWire(meets: Test, s: State, a: Action)
    requires TableInv(s) && WireInv(s) && (a.Allocate? || a.Register? || a.NotConnected? || a.WriteOk?)
    ensures WireInv(Step(meets, s, a))
  {
  }

  lemma FailingKeepsWire(meets: Test, s: State, a: Action)
    requires TableInv(s) && WireInv(s) && (a.WriteFails? || a.CloseChannel?)
    ensures WireInv(Step(meets, s, a))
  {
  }

  lemma StepKeepsWire(meets: Test, s: State, a: Action)
    requires TableInv(s) && WireInv(s)
    ensures WireInv(Step(meets, s, a))
  {
    if a.Allocate? || a.Register? || a.NotConnected? || a.WriteOk? {
      SubmittingKeepsWire(meets, s, a);
    } else if a.WriteFails? || a.CloseChannel? {
      FailingKeepsWire(meets, s, a);
    } else {
      OtherLeavesWire(meets, s, a);
      SameWire(s, Step(meets, s, a));
    }
  }

  lemma OtherLeavesWire(meets: Test, s: State, a: Action)
    requires QuietAction(a) || a.OtherRequest? || a.Respond? || a.Send? || a.Receive?
    ensures Step(meets, s, a).wire == s.wire && Step(meets, s, a).requests == s.requests
  {
    if QuietAction(a) {
      StepIsQuiet(meets, s, a);
    }
  }

  lemma SameWire(s: State, t: State)
    requires WireInv(s) && t.wire == s.wire && t.requests == s.requests
    ensures WireInv(t)
  {
  }

  lemma SubmittingKeepsCount(meets: Test, s: State, a: Action)
    requires TableInv(s) && ChannelsInv(s) && CountInv(s) && (a.Allocate? || a.Register? || a.NotConnected? || a.WriteOk?)
    ensures CountInv(Step(meets, s, a))
  {
  }

  lemma FailingKeepsCount(meets: Test, s: State, a: Action)
    requires TableInv(s) && ChannelsInv(s) && CountInv(s) && (a.WriteFails? || a.CloseChannel?)
    ensures CountInv(Step(meets, s, a))
  {
  }

  lemma OtherKeepsCount(meets: Test, s: State, a: Action)
    requires CountInv(s) && (a.OtherRequest? || a.Respond?)
    ensures CountInv(Step(meets, s, a))
  {
  }

  lemma RequestStepKeepsCount(meets: Test, s: State, a: Action)
    requires TableInv(s) && ChannelsInv(s) && CountInv(s) && !a.Send? && !a.Receive?
    ensures CountInv(Step(meets, s, a))
  {
    if a.Allocate? || a.Register? || a.NotConnected? || a.WriteOk? {
      SubmittingKeepsCount(meets, s, a);
    } else if a.WriteFails? || a.CloseChannel? {
      FailingKeepsCount(meets, s, a);
    } else if QuietAction(a) {
      StepIsQuiet(meets, s, a);
    } else {
      OtherKeepsCount(meets, s, a);
    }
  }

  lemma SendKeepsCount(s: State)
    requires TableInv(s) && ChannelsInv(s) && CountInv(s)
    ensures CountInv(SendStep(s))
  {
  }

  lemma ReceiveKeepsCount(s: State, w: nat)
    requires TableInv(s) && ChannelsInv(s) && CountInv(s)
    ensures CountInv(ReceiveStep(s, w))
  {
    if ReceiveStep(s, w) != s {
      ReceiveEmpties(s, w);
      var c := s.requests[s.workers[w].id].chan;
      assert ChanInv(s, c, s.chans[c]);
      assert s.chans[c].queue[0] in s.chans[c].queue;
    }
  }

  // ---- Invariant: a request on its way to the wire has its worker ----

  predicate OnItsWay(phase: Phase) {
    phase.Allocated? || phase.Registered? || phase.Unsent?
  }

  ghost predicate BusyInv(s: State) {
    forall id :: id in s.requests && OnItsWay(s.requests[id].phase) ==>
      s.requests[id].worker in s.workers && s.workers[s.requests[id].worker] == Busy(id)
  }

  lemma AllocateKeepsBusy(s: State, w: nat)
    requires TableInv(s) && BusyInv(s)
    ensures BusyInv(AllocateStep(s, w))
  {
  }

  lemma SubmittingKeepsBusy(meets: Test, s: State, a: Action)
    requires TableInv(s) && BusyInv(s) && (a.Register? || a.NotConnected? || a.WriteOk?)
    ensures BusyInv(Step(meets, s, a))
  {
  }

  lemma FailingKeepsBusy(meets: Test, s: State, a: Action)
    requires TableInv(s) && BusyInv(s) && (a.WriteFails? || a.CloseChannel?)
    ensures BusyInv(Step(meets, s, a))
  {
  }

  lemma QuietKeepsBusy(s: State, t: State)
    requires BusyInv(s) && t == s.(currentJob := t.currentJob, delivered := t.delivered, workers := t.workers, counters := t.counters)
    requires BusyStay(s, t)
    ensures BusyInv(t)
  {
  }

  lemma WaitingKeepsBusy(s: State, w: nat)
    requires BusyInv(s) && InPhase(s, w, Written)
    ensures BusyInv(SetWorker(s, w, Idle))
  {
  }

  lemma ReceiveKeepsBusy(s: State, w: nat)
    requires BusyInv(s)
    ensures BusyInv(ReceiveStep(s, w))
  {
    if InPhase(s, w, Written) {
      WaitingKeepsBusy(s, w);
    }
  }

  predicate BusyStay(s: State, t: State) {
    forall w :: w in s.workers && s.workers[w].Busy? ==> w in t.workers && t.workers[w] == s.workers[w]
  }

  lemma MineLeavesBusy(meets: Test, s: State, w: nat, stop: nat -> bool, clock: nat)
    ensures BusyStay(s, MineStep(meets, s, w, stop, clock))
  {
  }

  lemma QuietLeavesBusy(meets: Test, s: State, a: Action)
    requires QuietAction(a) && !a.Timeout?
    ensures BusyStay(s, Step(meets, s, a))
  {
    if a.Mine? {
      MineLeavesBusy(meets, s, a.w, a.stop, a.clock);
    }
  }

  lemma QuietStepKeepsBusy(meets: Test, s: State, a: Action)
    requires BusyInv(s) && QuietAction(a) && !a.Timeout?
    ensures BusyInv(Step(meets, s, a))
  {
    StepIsQuiet(meets, s, a);
    QuietLeavesBusy(meets, s, a);
    QuietKeepsBusy(s, Step(meets, s, a));
  }

  lemma RoutingKeepsBusy(meets: Test, s: State, a: Action)
    requires TableInv(s) && BusyInv(s) && (a.OtherRequest? || a.Respond? || a.Send?)
    ensures BusyInv(Step(meets, s, a))
  {
  }

  lemma StepKeepsBusy(meets: Test, s: State, a: Action)
    requires TableInv(s) && BusyInv(s)
    ensures BusyInv(Step(meets, s, a))
  {
    if a.Allocate? {
      AllocateKeepsBusy(s, a.w);
    } else if a.Register? || a.NotConnected? || a.WriteOk? {
      SubmittingKeepsBusy(meets, s, a);
    } else if a.WriteFails? || a.CloseChannel? {
      FailingKeepsBusy(meets, s, a);
    } else if a.Receive? {
      ReceiveKeepsBusy(s, a.w);
    } else if a.Timeout? {
      if InPhase(s, a.w, Written) {
        WaitingKeepsBusy(s, a.w);
      }
    } else if QuietAction(a) {
      QuietStepKeepsBusy(meets, s, a);
    } else {
      RoutingKeepsBusy(meets, s, a);
    }
  }

  ghost predicate Safe(s: State) {
    TableInv(s) && ChannelsInv(s) && WireInv(s) && CountInv(s) && BusyInv(s)
  }

  lemma StepKeepsSafe(meets: Test, s: State, a: Action)
    requires Safe(s) && !Early(s, a)
    ensures Safe(Step(meets, s, a))
  {
    StepKeepsRouting(meets, s, a);
    StepKeepsWire(meets, s, a);
    StepKeepsBusy(meets, s, a);
    if a.Send? {
      SendKeepsCount(s);
    } else if a.Receive? {
      ReceiveKeepsCount(s, a.w);
    } else {
      RequestStepKeepsCount(meets, s, a);
    }
  }

  lemma {:induction false} RunKeepsSafe(meets: Test, s: State, actions: seq<Action>)
    requires Safe(s) && NeverEarly(meets, s, actions)
    ensures Safe(Run(meets, s, actions))
  {
    if |actions| > 0 {
      var front := actions[..|actions| - 1];
      forall i | 0 <= i < |front|
        ensures !Early(Run(meets, s, front[..i]), front[i])
      {
        assert front[..i] == actions[..i];
      }
      RunKeepsSafe(meets, s, front);
      StepKeepsSafe(meets, Run(meets, s, front), actions[|actions| - 1]);
    }
  }

  /** The pool has given this answer in the run. */
  ghost predicate Sent(actions: seq<Action>, v: Verdict) {
    Respond(v.id, v.accepted) in actions
  }

  lemma AnswersComeFromPool(meets: Test, s: State, a: Action, v: Verdict)
    requires v in Step(meets, s, a).answers
    ensures v in s.answers || a == Respond(v.id, v.accepted)
  {
    if !a.NewJob? && !a.Respond? {
      HistoriesKept(meets, s, a);
    }
  }

  lemma {:induction false} AnswersAreSent(meets: Test, s: State, actions: seq<Action>)
    requires s.answers == {}
    ensures forall v :: v in Run(meets, s, actions).answers ==> Sent(actions, v)
  {
    if |actions| > 0 {
      var front, a := actions[..|actions| - 1], actions[|actions| - 1];
      AnswersAreSent(meets, s, front);
      forall v | v in Run(meets, s, actions).answers
        ensures Sent(actions, v)
      {
        AnswersComeFromPool(meets, Run(meets, s, front), a, v);
        assert actions == front + [a];
      }
    }
  }

  /**
   Response routing, over all interleavings in which no answer is early: no id is written twice;
   every channel gets at most one value, and only what the pool has answered to its own request;
   answers to hash reports and handshakes reach no channel; the read loop never panics, and a send
   it is about to make goes through.
   */
  lemma RoutingIsSafe(meets: Test, actions: seq<Action>)
    requires NeverEarly(meets, INITIAL, actions)
    ensures var t := Run(meets, INITIAL, actions);
            && !t.panicked
            && (forall i, j :: 0 <= i < j < |t.wire| ==> t.wire[i].id != t.wire[j].id)
            && (forall i, j :: 0 <= i < j < |t.deliveries| ==> t.deliveries[i] != t.deliveries[j])
            && (forall c, v :: c in t.chans && v in t.chans[c].queue ==> v.id == t.chans[c].id && Sent(actions, v))
            && (forall c :: c in t.chans ==> t.chans[c].id !in t.otherIds)
            && (t.loop.Routing? ==> SendStep(t).loop == Reading && !SendStep(t).panicked)
  {
    RunKeepsSafe(meets, INITIAL, actions);
    AnswersAreSent(meets, INITIAL, actions);
    var t := Run(meets, INITIAL, actions);
    if t.loop.Routing? {
      assert ChanInv(t, t.loop.chan, t.chans[t.loop.chan]);
    }
    QueuesHoldAnswers(t);
  }

  lemma QueuesHoldAnswers(s: State)
    requires ChannelsInv(s)
    ensures forall c, v :: c in s.chans && v in s.chans[c].queue ==> v.id == s.chans[c].id && v in s.answers
  {
    forall c, v | c in s.chans && v in s.chans[c].queue
      ensures v.id == s.chans[c].id && v in s.answers
    {
      assert ChanInv(s, c, s.chans[c]);
    }
  }

  /** What a worker takes from its channel is the pool's answer to the request it made. */
  lemma WorkersGetTheirOwnAnswer(meets: Test, actions: seq<Action>, w: nat)
    requires NeverEarly(meets, INITIAL, actions)
    requires InPhase(Run(meets, INITIAL, actions), w, Written)
    ensures var t := Run(meets, INITIAL, actions);
            var r := t.requests[t.workers[w].id];
            && r.worker == w && r.chan in t.chans
            && forall v :: v in t.chans[r.chan].queue ==> v.id == t.workers[w].id && Sent(actions, v)
  {
    RunKeepsSafe(meets, INITIAL, actions);
    AnswersAreSent(meets, INITIAL, actions);
    var t := Run(meets, INITIAL, actions);
    var id := t.workers[w].id;
    assert RequestInv(t, id, t.requests[id]);
    assert ChanInv(t, t.requests[id].chan, t.chans[t.requests[id].chan]);
  }

  /** The ids the pool has accepted in a run. */
  ghost function AcceptedIds(actions: seq<Action>): set<nat> {
    set a | a in actions && a.Respond? && a.accepted :: a.id
  }

  lemma {:induction false} DistinctCount(ids: seq<nat>, all: set<nat>)
    requires forall i, j :: 0 <= i < j < |ids| ==> ids[i] != ids[j]
    requires forall id :: id in ids ==> id in all
    ensures |ids| <= |all|
  {
    if |ids| > 0 {
      var last, front := ids[|ids| - 1], ids[..|ids| - 1];
      forall id | id in front
        ensures id in all - {last}
      {
        var i :| 0 <= i < |front| && front[i] == id;
        assert ids[i] == id;
      }
      DistinctCount(front, all - {last});
    }
  }

  /** Duplicate answers, timeouts and failed writes never make a share count twice. */
  lemma AcceptedWorkIsBounded(meets: Test, actions: seq<Action>)
    requires NeverEarly(meets, INITIAL, actions)
    ensures var t := Run(meets, INITIAL, actions);
            t.acceptedWork <= |AcceptedIds(actions)|
  {
    RunKeepsSafe(meets, INITIAL, actions);
    AnswersAreSent(meets, INITIAL, actions);
    var t := Run(meets, INITIAL, actions);
    forall id | id in t.counted
      ensures id in AcceptedIds(actions)
    {
      assert Verdict(id, true) in t.answers;
      assert Respond(id, true) in actions;
    }
    DistinctCount(t.counted, AcceptedIds(actions));
  }

  // ---- What happens when nothing goes wrong ----

  lemma AllocateGivesId(s: State, w: nat, job: Job, nonce: nat)
    requires WorkerOf(s, w) == HasShare(job, nonce)
    ensures var t, id := AllocateStep(s, w), s.nextId + 1;
            && t.wire == s.wire && WorkerOf(t, w) == Busy(id)
            && id in t.requests && t.requests[id] == Request(w, job, nonce, Allocated, 0)
  {
  }

  lemma RegisterGivesChannel(s: State, w: nat, id: nat)
    requires WorkerOf(s, w) == Busy(id) && id in s.requests && s.requests[id].phase == Allocated
    ensures var t := RegisterStep(s, w);
            && t.wire == s.wire && WorkerOf(t, w) == Busy(id) && id in t.pending
            && id in t.requests && t.requests[id] == s.requests[id].(phase := Registered, chan := t.pending[id])
            && t.pending[id] in t.chans && t.chans[t.pending[id]] == Chan(id, [], false)
  {
  }

  lemma WritePutsOnWire(s: State, w: nat, id: nat)
    requires WorkerOf(s, w) == Busy(id) && id in s.requests && s.requests[id].phase == Registered
    ensures var t := WriteOkStep(s, w);
            && t.wire == s.wire + [Share(id, s.requests[id].job.id, s.requests[id].nonce)]
            && WorkerOf(t, w) == Busy(id) && InPhase(t, w, Written) && t.pending == s.pending && id in t.answerable
  {
  }

  /** A worker with a share allocates an id, registers it and writes: the share is on the wire under that id. */
  lemma ShareGoesOut(s: State, w: nat, job: Job, nonce: nat, t: State, u: State, v: State)
    requires WorkerOf(s, w) == HasShare(job, nonce)
    requires t == AllocateStep(s, w) && u == RegisterStep(t, w) && v == WriteOkStep(u, w)
    ensures v.wire == s.wire + [Share(s.nextId + 1, job.id, nonce)]
    ensures WorkerOf(v, w) == Busy(s.nextId + 1) && InPhase(v, w, Written)
    ensures s.nextId + 1 in v.pending && s.nextId + 1 in v.answerable
  {
    AllocateGivesId(s, w, job, nonce);
    RegisterGivesChannel(t, w, s.nextId + 1);
    WritePutsOnWire(u, w, s.nextId + 1);
  }

  /** A worker that takes a verdict goes on, and counts it exactly if it is accepted. */
  lemma ReceiveCounts(s: State, w: nat)
    requires InPhase(s, w, Written) && s.requests[s.workers[w].id].chan in s.chans
    requires |s.chans[s.requests[s.workers[w].id].chan].queue| > 0
    ensures var v := s.chans[s.requests[s.workers[w].id].chan].queue[0];
            var t := ReceiveStep(s, w);
            && WorkerOf(t, w).Idle?
            && t.acceptedWork == s.acceptedWork + (if v.accepted then 1 else 0)
            && t.counted == s.counted + if v.accepted then [v.id] else []
  {
  }

  /** One call of `Mine` ends with a share exactly if it finds a nonce, and idle otherwise. */
  lemma MineEnds(meets: Test, s: State, w: nat, stop: nat -> bool, clock: nat)
    requires WorkerOf(s, w).Captured?
    ensures var job, c := WorkerOf(s, w).job, CountersOf(s, w);
            var o := OutcomeOf(c, Call((n: nat) => meets(job, n), stop, clock));
            var t := MineStep(meets, s, w, stop, clock);
            && WorkerOf(t, w) == (if o.Found? then HasShare(job, o.nonce) else Idle)
            && CountersOf(t, w) == After(c, Call((n: nat) => meets(job, n), stop, clock))
            && forall x :: x != w ==> WorkerOf(t, x) == WorkerOf(s, x) && CountersOf(t, x) == CountersOf(s, x)
  {
  }

  /** When the client is gone no worker captures a job until the next one arrives. */
  lemma NothingToCapture(meets: Test, s: State, w: nat)
    ensures var t := Step(meets, s, ClientGone); CaptureStep(t, w) == t && t.workers == s.workers
  {
  }

  /** A share that cannot be sent is given up: nothing is on the wire, and its entry and its worker are free. */
  lemma ShareIsGivenUp(meets: Test, s: State, w: nat, id: nat)
    requires WorkerOf(s, w) == Busy(id) && id in s.requests && s.requests[id].phase == Registered
    requires s.requests[id].chan in s.chans
    ensures var t := NotConnectedStep(s, w);
            t.wire == s.wire && WorkerOf(t, w).Idle? && id !in t.pending && id in t.requests && t.requests[id].phase == Dropped
    ensures var t := CloseChannelStep(WriteFailsStep(s, w), w);
            && t.wire == s.wire && WorkerOf(t, w).Idle? && id !in t.pending && id in t.requests && t.requests[id].phase == Dropped
            && t.chans[s.requests[id].chan].closed
  {
  }

  lemma NoClientDropsShare(meets: Test, s: State, w: nat)
    requires WorkerOf(s, w).HasShare?
    ensures var t := Step(meets, s, NoClient(w)); WorkerOf(t, w).Idle? && t.wire == s.wire && t.nextId == s.nextId
  {
  }

  lemma WaitingChannelIsEmpty(s: State, w: nat)
    requires Safe(s) && InPhase(s, w, Written) && s.workers[w].id in s.pending
    ensures var id := s.workers[w].id;
            var c := s.requests[id].chan;
            s.pending[id] == c && c in s.chans && !s.chans[c].closed && s.chans[c].queue == [] && !s.panicked
  {
    var id := s.workers[w].id;
    assert RequestInv(s, id, s.requests[id]);
    assert ChanInv(s, s.requests[id].chan, s.chans[s.requests[id].chan]);
  }

  lemma AnswerArrives(s: State, w: nat, id: nat, c: nat, accepted: bool)
    requires s.loop.Reading? && !s.panicked && InPhase(s, w, Written) && WorkerOf(s, w) == Busy(id)
    requires id in s.pending && s.pending[id] == c && s.requests[id].chan == c
    requires c in s.chans && !s.chans[c].closed && s.chans[c].queue == []
    ensures var t := SendStep(RespondStep(s, id, accepted));
            && InPhase(t, w, Written) && t.workers == s.workers && t.requests == s.requests
            && c in t.chans && t.chans[c].queue == [Verdict(id, accepted)]
            && t.acceptedWork == s.acceptedWork && t.loop.Reading?
  {
  }

  /** The pool answers a waiting worker: it goes on, and the work counts exactly if the pool accepted it. */
  lemma AnswerIsCounted(s: State, w: nat, accepted: bool)
    requires Safe(s) && s.loop.Reading? && InPhase(s, w, Written) && s.workers[w].id in s.pending
    ensures var t := ReceiveStep(SendStep(RespondStep(s, s.workers[w].id, accepted)), w);
            WorkerOf(t, w).Idle? && t.acceptedWork == s.acceptedWork + if accepted then 1 else 0
  {
    var id := s.workers[w].id;
    WaitingChannelIsEmpty(s, w);
    AnswerArrives(s, w, id, s.requests[id].chan, accepted);
    ReceiveCounts(SendStep(RespondStep(s, id, accepted)), w);
  }

  lemma LateAnswerArrives(s: State, w: nat, id: nat, c: nat, accepted: bool, t: State)
    requires s.loop.Reading? && !s.panicked && InPhase(s, w, Written) && WorkerOf(s, w) == Busy(id)
    requires id in s.pending && s.pending[id] == c && s.requests[id].chan == c
    requires c in s.chans && !s.chans[c].closed && s.chans[c].queue == []
    requires t == TimeoutStep(s, w)
    ensures var u := SendStep(RespondStep(t, id, accepted));
            && WorkerOf(u, w).Idle? && u.acceptedWork == s.acceptedWork && u.counted == s.counted
            && id !in u.pending && c in u.chans && u.chans[c].queue == [Verdict(id, accepted)]
  {
  }

  /**
   A worker that has timed out leaves its entry behind; the late answer removes it, goes into the
   channel nobody reads any more, and counts for nothing.
   */
  lemma LateAnswerIsNotCounted(s: State, w: nat, accepted: bool)
    requires Safe(s) && s.loop.Reading? && InPhase(s, w, Written) && s.workers[w].id in s.pending
    ensures var id := s.workers[w].id;
            var u := SendStep(RespondStep(TimeoutStep(s, w), id, accepted));
            && WorkerOf(u, w).Idle? && u.acceptedWork == s.acceptedWork && u.counted == s.counted
            && id !in u.pending && s.pending[id] in u.chans && u.chans[s.pending[id]].queue == [Verdict(id, accepted)]
  {
    var id := s.workers[w].id;
    WaitingChannelIsEmpty(s, w);
    LateAnswerArrives(s, w, id, s.pending[id], accepted, TimeoutStep(s, w));
  }

  // ---- Panics, exactly ----

  /** Without an early answer from here on, the read loop can still come to panic. */
  ghost predicate CanPanic(meets: Test, s: State) {
    exists more :: NeverEarly(meets, s, more) && Run(meets, s, more).panicked
  }

  lemma {:induction false} RunCons(meets: Test, s: State, a: Action, more: seq<Action>)
    ensures Run(meets, s, [a] + more) == Run(meets, Step(meets, s, a), more)
  {
    var all := [a] + more;
    if |more| == 0 {
      assert all[..0] == [];
      assert Run(meets, s, all[..0]) == s;
    } else {
      assert all[..|all| - 1] == [a] + more[..|more| - 1];
      RunCons(meets, s, a, more[..|more| - 1]);
    }
  }

  lemma EarlyIsRegistered(s: State, id: nat)
    requires Safe(s) && id in s.pending && id !in s.answerable
    ensures id in s.requests && InPhase(s, s.requests[id].worker, Registered)
    ensures WorkerOf(s, s.requests[id].worker) == Busy(id)
    ensures s.pending[id] == s.requests[id].chan && s.requests[id].chan in s.chans
  {
    assert RequestInv(s, id, s.requests[id]);
  }

  /** A registered id is answered; the write fails, the channel is closed, the loop sends. */
  lemma EarlyAnswerPanics(s: State, id: nat, accepted: bool, w: nat, t: State)
    requires !s.panicked && s.loop.Reading? && InPhase(s, w, Registered) && WorkerOf(s, w) == Busy(id)
    requires id in s.pending && s.pending[id] == s.requests[id].chan && s.requests[id].chan in s.chans
    requires t == RespondStep(s, id, accepted)
    ensures SendStep(CloseChannelStep(WriteFailsStep(t, w), w)).panicked
  {
  }

  ghost function Failing(w: nat): seq<Action> {
    [WriteFails(w), CloseChannel(w), Send]
  }

  lemma FailingRun(meets: Test, s: State, w: nat)
    ensures Run(meets, s, Failing(w)) == SendStep(CloseChannelStep(WriteFailsStep(s, w), w))
  {
    assert Failing(w)[..2][..1] == Failing(w)[..1] && Failing(w)[..1][..0] == [];
    assert Run(meets, s, Failing(w)[..1]) == Step(meets, Run(meets, s, []), WriteFails(w));
    assert Run(meets, s, Failing(w)[..2]) == Step(meets, Run(meets, s, Failing(w)[..1]), CloseChannel(w));
  }

  lemma NoAnswersNoneEarly(meets: Test, s: State, actions: seq<Action>)
    requires forall i :: 0 <= i < |actions| ==> !actions[i].Respond?
    ensures NeverEarly(meets, s, actions)
  {
  }

  lemma PanicsAfter(meets: Test, t: State, w: nat)
    requires SendStep(CloseChannelStep(WriteFailsStep(t, w), w)).panicked
    ensures CanPanic(meets, t)
  {
    FailingRun(meets, t, w);
    NoAnswersNoneEarly(meets, t, Failing(w));
  }

  lemma RegisteredOpens(meets: Test, s: State, id: nat, accepted: bool, w: nat, t: State)
    requires !s.panicked && s.loop.Reading? && InPhase(s, w, Registered) && WorkerOf(s, w) == Busy(id)
    requires id in s.pending && s.pending[id] == s.requests[id].chan && s.requests[id].chan in s.chans
    requires t == RespondStep(s, id, accepted)
    ensures CanPanic(meets, t)
  {
    EarlyAnswerPanics(s, id, accepted, w, t);
    PanicsAfter(meets, t, w);
  }

  lemma EarlyOpens(meets: Test, s: State, id: nat, accepted: bool)
    requires Safe(s) && Early(s, Respond(id, accepted))
    ensures CanPanic(meets, Step(meets, s, Respond(id, accepted)))
  {
    EarlyIsRegistered(s, id);
    RegisteredOpens(meets, s, id, accepted, s.requests[id].worker, Step(meets, s, Respond(id, accepted)));
  }

  lemma SafeCannotPanic(meets: Test, t: State)
    requires Safe(t)
    ensures !CanPanic(meets, t)
  {
    forall more | NeverEarly(meets, t, more)
      ensures !Run(meets, t, more).panicked
    {
      RunKeepsSafe(meets, t, more);
    }
  }

  lemma NotEarlyCannotPanic(meets: Test, s: State, a: Action)
    requires Safe(s) && !Early(s, a)
    ensures !CanPanic(meets, Step(meets, s, a))
  {
    StepKeepsSafe(meets, s, a);
    SafeCannotPanic(meets, Step(meets, s, a));
  }

  /**
   From every safe state in which the loop is reading, an answer opens the way to a panic exactly
   when its id is registered and not yet written.
   */
  lemma PanicIffEarly(meets: Test, s: State, id: nat, accepted: bool)
    requires Safe(s) && s.loop.Reading?
    ensures CanPanic(meets, Step(meets, s, Respond(id, accepted))) <==> id in s.pending && id !in s.answerable
  {
    if Early(s, Respond(id, accepted)) {
      EarlyOpens(meets, s, id, accepted);
    } else {
      NotEarlyCannotPanic(meets, s, Respond(id, accepted));
    }
  }

  /** In a whole run: no panic without an answer to a registered id that was not yet written. */
  lemma PanicNeedsEarlyAnswer(meets: Test, actions: seq<Action>)
    requires Run(meets, INITIAL, actions).panicked
    ensures exists i :: 0 <= i < |actions| && Early(Run(meets, INITIAL, actions[..i]), actions[i])
  {
    if NeverEarly(meets, INITIAL, actions) {
      RoutingIsSafe(meets, actions);
    }
  }

  /** Such an answer is possible as soon as a share is registered, and then the loop can panic. */
  lemma PanicIffEarlyInRuns(meets: Test, actions: seq<Action>, id: nat, accepted: bool)
    requires NeverEarly(meets, INITIAL, actions) && Run(meets, INITIAL, actions).loop.Reading?
    ensures var s := Run(meets, INITIAL, actions);
            CanPanic(meets, Step(meets, s, Respond(id, accepted))) <==> id in s.pending && id !in s.answerable
  {
    RunKeepsSafe(meets, INITIAL, actions);
    PanicIffEarly(meets, Run(meets, INITIAL, actions), id, accepted);
  }

  // ---- A run that panics ----

  /** A stop channel that stays open. */
  ghost function Never(): nat -> bool {
    n => false
  }

  /** A job arrives, worker 0 captures it, finds a share and registers it. */
  ghost function Submitting(raw: RawJob, clock: nat): seq<Action> {
    [NewJob(raw), Capture(0), Mine(0, Never(), clock), Allocate(0), Register(0)]
  }

  lemma RunSnoc(meets: Test, s: State, actions: seq<Action>, k: nat)
    requires k < |actions|
    ensures Run(meets, s, actions[..k + 1]) == Step(meets, Run(meets, s, actions[..k]), actions[k])
  {
    assert actions[..k + 1][..k] == actions[..k];
  }

  /** The first nonce passes: worker 0 has a share. */
  lemma MineAtOnce(meets: Test, s: State, job: Job, clock: nat)
    requires s.workers == map[0 := Captured(job)] && s.counters == map[]
    requires meets(job, clock % FIRST_RANGE)
    ensures WorkerOf(MineStep(meets, s, 0, Never(), clock), 0) == HasShare(job, clock % FIRST_RANGE)
    ensures var t := MineStep(meets, s, 0, Never(), clock);
            t == s.(workers := t.workers, counters := t.counters)
  {
  }

  lemma JobRun(meets: Test, s: State, raw: RawJob, clock: nat)
    requires Accepted(raw).Some? && s.workers == map[]
    ensures var job := Accepted(raw).value;
            Run(meets, s, Submitting(raw, clock)[..2])
            == s.(currentJob := Some(job), delivered := s.delivered + {job}, workers := map[0 := Captured(job)])
  {
    RunSnoc(meets, s, Submitting(raw, clock), 0);
    RunSnoc(meets, s, Submitting(raw, clock), 1);
  }

  lemma CaptureRun(meets: Test, s: State, raw: RawJob, clock: nat)
    requires Accepted(raw).Some? && meets(Accepted(raw).value, clock % FIRST_RANGE)
    requires s.workers == map[] && s.counters == map[]
    ensures var t := Run(meets, s, Submitting(raw, clock)[..3]);
            && WorkerOf(t, 0) == HasShare(Accepted(raw).value, clock % FIRST_RANGE)
            && t == s.(currentJob := t.currentJob, delivered := t.delivered, workers := t.workers, counters := t.counters)
  {
    JobRun(meets, s, raw, clock);
    RunSnoc(meets, s, Submitting(raw, clock), 2);
    MineAtOnce(meets, Run(meets, s, Submitting(raw, clock)[..2]), Accepted(raw).value, clock);
  }

  lemma SubmitRun(meets: Test, raw: RawJob, clock: nat)
    requires Accepted(raw).Some? && meets(Accepted(raw).value, clock % FIRST_RANGE)
    ensures var s := Run(meets, INITIAL, Submitting(raw, clock));
            s.loop.Reading? && 1 in s.pending && 1 !in s.answerable
  {
    var all := Submitting(raw, clock);
    CaptureRun(meets, INITIAL, raw, clock);
    RunSnoc(meets, INITIAL, all, 3);
    RunSnoc(meets, INITIAL, all, 4);
    assert all[..5] == all;
  }

  /**
   For every job the miner accepts and every test its first nonce passes there is a run that
   panics: the pool answers the first id between its registration and its write.
   */
  lemma PanicIsReached(meets: Test, raw: RawJob, clock: nat, accepted: bool)
    requires Accepted(raw).Some? && meets(Accepted(raw).value, clock % FIRST_RANGE)
    ensures NeverEarly(meets, INITIAL, Submitting(raw, clock))
    ensures CanPanic(meets, Step(meets, Run(meets, INITIAL, Submitting(raw, clock)), Respond(1, accepted)))
  {
    SubmitRun(meets, raw, clock);
    PanicIffEarlyInRuns(meets, Submitting(raw, clock), 1, accepted);
  }

  /** There are jobs the miner accepts. */
  lemma JobsExist(root: Hash, height: nat, difficulty: int)
    ensures Accepted(RawJob(0, height, HexEncode(root), HexEncode(root), HexEncode(root), difficulty, 0, [])).Some?
  {
    HexRoundTrip(root, []);
    assert HexEncode(root) + [] == HexEncode(root);
  }
}
