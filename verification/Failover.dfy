/**
 What the pool manager's choice of a pool means, on values: the order of probes, what a probe does
 to a pool, and which pool is current afterwards.

 Of a stratum client the manager sees two things, whose behaviour is that of `Lifecycle`: whether
 Connect has been called, and whether a read loop is running.  The answer of the network to a dial
 is left open.
 */
module Failover {
  import opened Arithmetic

  datatype Client = Client(started: bool, running: bool)

  const UNUSED: Client := Client(false, false)

  /** `enabled` pools only become part of a manager. */
  datatype Config = Config(name: nat, priority: int, enabled: bool)

  datatype Pool = Pool(config: Config, connected: bool, client: Client)

  /** The client after Connect; a started client is left alone. */
  function Dialed(c: Client, up: bool): Client {
    if c.started then c else Client(true, up)
  }

  /** Whether Connect reports success. */
  predicate Accepts(c: Client, up: bool) {
    c.started || up
  }

  /** Close waits for a read loop to end; it waits for ever if there is none. */
  predicate CloseReturns(c: Client) {
    c.started ==> c.running
  }

  predicate Answers(p: Pool, up: bool) {
    p.connected || Accepts(p.client, up)
  }

  function Joined(p: Pool, up: bool): Pool {
    if p.connected then p else p.(connected := true, client := Dialed(p.client, up))
  }

  function Refused(p: Pool): Pool {
    p.(client := Client(true, false))
  }

  function Left(p: Pool): Pool {
    if p.connected then p.(connected := false, client := UNUSED) else p
  }

  // ---- The order of probes ----

  predicate InRange(order: seq<nat>, n: nat) {
    forall k :: 0 <= k < |order| ==> order[k] < n
  }

  predicate Distinct(order: seq<nat>) {
    forall j, k :: 0 <= j < k < |order| ==> order[j] != order[k]
  }

  /** The pool tried at position i: counting on from the current one, and from 0 again at the end. */
  function Candidate(n: nat, current: int, i: nat): (p: nat)
    requires -1 <= current < n && i < n
    ensures p < n
  {
    if current + 1 + i < n then current + 1 + i else current + 1 + i - n
  }

  lemma CandidateIsRemainder(n: nat, current: int, i: nat)
    requires -1 <= current < n && i < n
    ensures Candidate(n, current, i) == (current + 1 + i) % n
  {
    var x := current + 1 + i;
    if x < n {
      RemainderIs(x, n, 0, x);
    } else {
      RemainderIs(x, n, 1, x - n);
    }
  }

  /** The pools to try from position i of the failover loop on. */
  function OrderFrom(n: nat, current: int, i: nat): seq<nat>
    requires -1 <= current < n && i <= n
    decreases n - i
  {
    if i == n then []
    else if Candidate(n, current, i) == current && n > 1 then OrderFrom(n, current, i + 1)
    else [Candidate(n, current, i)] + OrderFrom(n, current, i + 1)
  }

  lemma {:induction false} OrderMembers(n: nat, current: int, i: nat)
    requires -1 <= current < n && i <= n
    ensures var o := OrderFrom(n, current, i);
            && |o| <= n - i
            && (forall k :: 0 <= k < |o| ==> i + k < n && o[k] == Candidate(n, current, i + k))
            && |o| == if i < n && n > 1 && current >= 0 then n - 1 - i else n - i
    decreases n - i
  {
    if i < n {
      OrderMembers(n, current, i + 1);
    }
  }

  /**
   The failover order visits every other pool once, cyclically from the one after the current pool;
   a lone pool is its own successor.
   */
  lemma OrderIsCyclic(n: nat, current: int)
    requires -1 <= current < n
    ensures var o := OrderFrom(n, current, 0);
            && |o| <= n && InRange(o, n) && Distinct(o)
            && (forall k :: 0 <= k < |o| ==> k < n && o[k] == Candidate(n, current, k))
            && (forall p: nat :: p in o <==> p < n && (p != current || n == 1))
  {
    OrderMembers(n, current, 0);
    var o := OrderFrom(n, current, 0);
    forall p: nat | p < n && (p != current || n == 1)
      ensures p in o
    {
      var k := if p > current then p - current - 1 else p - current - 1 + n;
      assert 0 <= k < |o| && o[k] == p;
    }
  }

  // ---- The search ----

  /** The failover loop: the pools and the current index after trying `order`. */
  function Search(pools: seq<Pool>, order: seq<nat>, up: nat -> bool): (r: (seq<Pool>, int))
    requires InRange(order, |pools|)
    ensures |r.0| == |pools| && -1 <= r.1 < |pools|
    decreases |order|
  {
    if |order| == 0 then (pools, -1)
    else
      var p := order[0];
      if Answers(pools[p], up(p)) then (pools[p := Joined(pools[p], up(p))], p)
      else Search(pools[p := Refused(pools[p])], order[1..], up)
  }

  /** k pools have been tried in vain and the next one, if there is one, answers. */
  predicate FirstAnswer(pools: seq<Pool>, order: seq<nat>, up: nat -> bool, k: nat)
    requires InRange(order, |pools|)
  {
    && k <= |order|
    && (forall j :: 0 <= j < k ==> !Answers(pools[order[j]], up(order[j])))
    && (k < |order| ==> Answers(pools[order[k]], up(order[k])))
  }

  /**
   The search settles on the first pool of the order that answers, or on none when all refuse; it
   changes the pools up to there, each once, and no other.
   */
  lemma {:induction false} SearchMeaning(pools: seq<Pool>, order: seq<nat>, up: nat -> bool) returns (k: nat)
    requires InRange(order, |pools|) && Distinct(order)
    ensures FirstAnswer(pools, order, up, k)
    ensures var (after, current) := Search(pools, order, up);
            && current == (if k < |order| then order[k] else -1)
            && (forall p :: 0 <= p < |pools| ==>
                  after[p] == if p in order[..k] then Refused(pools[p])
                              else if p == current then Joined(pools[p], up(p))
                              else pools[p])
    decreases |order|
  {
    if |order| == 0 || Answers(pools[order[0]], up(order[0])) {
      k := 0;
    } else {
      var p, rest := order[0], order[1..];
      var next := pools[p := Refused(pools[p])];
      var m := SearchMeaning(next, rest, up);
      k := m + 1;
      assert order[..k] == [p] + rest[..m];
      assert p !in rest;
      forall j | 0 <= j < k
        ensures !Answers(pools[order[j]], up(order[j]))
      {
        if j > 0 {
          assert order[j] == rest[j - 1];
        }
      }
    }
  }

  // ---- Failover ----

  datatype Fleet = Fleet(pools: seq<Pool>, current: int)

  predicate WellFormed(f: Fleet) {
    -1 <= f.current < |f.pools|
  }

  /** Closing the current pool's connection does not return. */
  predicate Hangs(f: Fleet)
    requires WellFormed(f)
  {
    f.current >= 0 && f.pools[f.current].connected && !CloseReturns(f.pools[f.current].client)
  }

  /** The pools after the current one has been left. */
  function Deserted(f: Fleet): (pools: seq<Pool>)
    requires WellFormed(f)
    ensures |pools| == |f.pools|
  {
    if f.current < 0 then f.pools else f.pools[f.current := Left(f.pools[f.current])]
  }

  /** And where leaving it hangs: the flag is down, the client is as it was. */
  function HalfDeserted(f: Fleet): seq<Pool>
    requires WellFormed(f)
  {
    if f.current < 0 then f.pools else f.pools[f.current := f.pools[f.current].(connected := false)]
  }

  function Switched(f: Fleet, up: nat -> bool): (g: Fleet)
    requires WellFormed(f)
    ensures WellFormed(g) && |g.pools| == |f.pools|
  {
    OrderMembers(|f.pools|, f.current, 0);
    OrderInRange(|f.pools|, f.current, 0);
    var (pools, current) := Search(Deserted(f), OrderFrom(|f.pools|, f.current, 0), up);
    Fleet(pools, current)
  }

  lemma OrderInRange(n: nat, current: int, i: nat)
    requires -1 <= current < n && i <= n
    ensures InRange(OrderFrom(n, current, i), n)
  {
    OrderMembers(n, current, i);
  }

  /** A pool is flagged as connected exactly when it is the current one. */
  predicate OneFlag(f: Fleet) {
    forall p :: 0 <= p < |f.pools| ==> (f.pools[p].connected <==> p == f.current)
  }

  /** Connect has failed on this client: it will report success without dialing, and Close will hang. */
  predicate Stale(c: Client) {
    c.started && !c.running
  }

  /**
   Failover settles on the first pool, cyclically after the current one, that answers; -1 means that
   every other pool was tried and refused.  Pools that refused are left stale, pools behind the one
   that answered are not touched, and one flag stays one flag.
   */
  lemma SwitchMeaning(f: Fleet, up: nat -> bool) returns (k: nat)
    requires WellFormed(f)
    ensures var n, g, order := |f.pools|, Switched(f, up), OrderFrom(|f.pools|, f.current, 0);
            && InRange(order, n)
            && FirstAnswer(Deserted(f), order, up, k)
            && g.current == (if k < |order| then order[k] else -1)
            && (forall p :: 0 <= p < n && p in order[..k] ==> Stale(g.pools[p].client))
            && (forall p :: 0 <= p < n && p !in order[..k] && p != g.current ==> g.pools[p] == Deserted(f)[p])
            && (0 <= g.current ==> g.pools[g.current] == Joined(Deserted(f)[g.current], up(g.current)))
            && (OneFlag(f) ==> OneFlag(g))
  {
    var order := OrderFrom(|f.pools|, f.current, 0);
    OrderIsCyclic(|f.pools|, f.current);
    OrderInRange(|f.pools|, f.current, 0);
    k := SearchMeaning(Deserted(f), order, up);
    if k < |order| {
      FirstIsFresh(order, k);
    }
  }

  lemma FirstIsFresh(order: seq<nat>, k: nat)
    requires Distinct(order) && k < |order|
    ensures order[k] !in order[..k]
  {
  }

  /** No pool is left exactly when every pool but the current one refuses, or the only pool does. */
  lemma NoneLeft(f: Fleet, up: nat -> bool)
    requires WellFormed(f)
    ensures Switched(f, up).current == -1 <==>
            forall p :: 0 <= p < |f.pools| && (p != f.current || |f.pools| == 1) ==> !Answers(Deserted(f)[p], up(p))
  {
    OrderIsCyclic(|f.pools|, f.current);
    var k := SwitchMeaning(f, up);
    AllRefuse(Deserted(f), OrderFrom(|f.pools|, f.current, 0), up, k);
  }

  lemma AllRefuse(pools: seq<Pool>, order: seq<nat>, up: nat -> bool, k: nat)
    requires InRange(order, |pools|) && FirstAnswer(pools, order, up, k)
    ensures k == |order| <==> forall p :: p in order ==> !Answers(pools[p], up(p))
  {
    if k < |order| {
      assert order[k] in order;
    }
  }

  /**
   Leaving the pool that failover settles on will hang exactly when its client was stale before: a
   stale one is taken without dialing.  A pool that was flagged is taken as it is; one that was not
   has a running read loop exactly when it was not stale.
   */
  lemma StalePoolIsTakenBlindly(f: Fleet, up: nat -> bool)
    requires WellFormed(f) && Switched(f, up).current >= 0
    ensures var g := Switched(f, up);
            var before, after := Deserted(f)[g.current], g.pools[g.current];
            && (Hangs(g) <==> Stale(before.client))
            && (if before.connected then after == before else after.client.running <==> !Stale(before.client))
  {
    var k := SwitchMeaning(f, up);
    var order := OrderFrom(|f.pools|, f.current, 0);
    assert order[k] == Switched(f, up).current;
  }

  // ---- Start ----

  function ConnectTo(f: Fleet, p: nat, up: bool): (Fleet, bool)
    requires p < |f.pools|
  {
    var pool := f.pools[p];
    if pool.connected then (f, false)
    else if Accepts(pool.client, up) then (Fleet(f.pools[p := Joined(pool, up)], p), true)
    else (f.(pools := f.pools[p := Refused(pool)]), false)
  }

  /** The loop of Start: connect to pools p, p + 1, ... until one connects. */
  function StartFrom(f: Fleet, p: nat, up: nat -> bool): (g: Fleet)
    requires p <= |f.pools|
    ensures |g.pools| == |f.pools|
    decreases |f.pools| - p
  {
    if p == |f.pools| then f
    else
      var (g, ok) := ConnectTo(f, p, up(p));
      if ok then g else StartFrom(g, p + 1, up)
  }

  /** Pool p, or a later one, is not the current pool and connects. */
  predicate SomeConnects(f: Fleet, p: nat, up: nat -> bool) {
    exists q :: p <= q < |f.pools| && !f.pools[q].connected && Accepts(f.pools[q].client, up(q))
  }

  /** From one flag, Start keeps one flag exactly when nothing was current or nothing else connects. */
  lemma {:induction false} StartKeepsOneFlag(f: Fleet, p: nat, up: nat -> bool)
    requires p <= |f.pools| && WellFormed(f) && OneFlag(f)
    ensures var g := StartFrom(f, p, up);
            && WellFormed(g)
            && (OneFlag(g) <==> f.current == -1 || !SomeConnects(f, p, up))
            && (g.current == f.current <==> !SomeConnects(f, p, up))
    decreases |f.pools| - p
  {
    if p < |f.pools| {
      var (g, ok) := ConnectTo(f, p, up(p));
      if ok {
        assert !f.pools[p].connected && Accepts(f.pools[p].client, up(p));
        assert g.pools[p].connected;
        if f.current >= 0 {
          assert g.pools[f.current].connected;
        }
      } else {
        StartKeepsOneFlag(g, p + 1, up);
        SameOthers(f, g, p, up);
      }
    }
  }

  /** With nothing connected, Start settles on the first pool from p on that connects, or on none; those before it are left stale. */
  lemma {:induction false} StartMeaning(f: Fleet, p: nat, up: nat -> bool) returns (k: nat)
    requires p <= |f.pools| && forall q :: p <= q < |f.pools| ==> !f.pools[q].connected
    ensures p <= k <= |f.pools|
    ensures forall q :: p <= q < k ==> !Accepts(f.pools[q].client, up(q))
    ensures k < |f.pools| ==> Accepts(f.pools[k].client, up(k))
    ensures var g := StartFrom(f, p, up);
            && g.current == (if k < |f.pools| then k else f.current)
            && forall q :: 0 <= q < |f.pools| ==>
                 g.pools[q] == if p <= q < k then Refused(f.pools[q]) else if q == k then Joined(f.pools[q], up(q)) else f.pools[q]
    decreases |f.pools| - p
  {
    if p == |f.pools| || Accepts(f.pools[p].client, up(p)) {
      k := p;
    } else {
      var (g, ok) := ConnectTo(f, p, up(p));
      k := StartMeaning(g, p + 1, up);
    }
  }

  lemma SameOthers(f: Fleet, g: Fleet, p: nat, up: nat -> bool)
    requires p < |f.pools| && ConnectTo(f, p, up(p)) == (g, false)
    ensures SomeConnects(f, p, up) <==> SomeConnects(g, p + 1, up)
  {
    if SomeConnects(f, p, up) {
      var q :| p <= q < |f.pools| && !f.pools[q].connected && Accepts(f.pools[q].client, up(q));
      assert g.pools[q] == f.pools[q];
    }
    if SomeConnects(g, p + 1, up) {
      var q :| p + 1 <= q < |g.pools| && !g.pools[q].connected && Accepts(g.pools[q].client, up(q));
      assert g.pools[q] == f.pools[q];
    }
  }

  // ---- Stop ----

  predicate HangsOnClose(p: Pool) {
    p.connected && !CloseReturns(p.client)
  }

  /** The loop of Stop from pool i on: does it hang, and what does it leave behind? */
  predicate StopHangs(pools: seq<Pool>, i: nat)
    requires i <= |pools|
    decreases |pools| - i
  {
    i < |pools| && (HangsOnClose(pools[i]) || StopHangs(pools[i := Left(pools[i])], i + 1))
  }

  function StoppedFrom(pools: seq<Pool>, i: nat): (r: seq<Pool>)
    requires i <= |pools|
    ensures |r| == |pools|
    decreases |pools| - i
  {
    if i == |pools| || HangsOnClose(pools[i]) then pools
    else StoppedFrom(pools[i := Left(pools[i])], i + 1)
  }

  /** Stop hangs on the first flagged pool that is stale, leaving what is behind it as it was; without one it leaves every pool. */
  lemma {:induction false} StopMeaning(pools: seq<Pool>, i: nat) returns (k: nat)
    requires i <= |pools|
    ensures i <= k <= |pools|
    ensures StopHangs(pools, i) <==> k < |pools|
    ensures k < |pools| ==> HangsOnClose(pools[k])
    ensures forall p :: i <= p < k ==> !HangsOnClose(pools[p])
    ensures forall p :: 0 <= p < |pools| ==> StoppedFrom(pools, i)[p] == if i <= p < k then Left(pools[p]) else pools[p]
    decreases |pools| - i
  {
    if i == |pools| || HangsOnClose(pools[i]) {
      k := i;
    } else {
      var next := pools[i := Left(pools[i])];
      k := StopMeaning(next, i + 1);
      assert forall p :: i < p < |pools| ==> next[p] == pools[p];
    }
  }

  // ---- Runs ----

  /** What a run of failovers has come to; a failover that hangs never returns, and there is no other after it. */
  datatype Progress = Progress(fleet: Fleet, hung: bool)

  /** One failover: where leaving the current pool hangs, its flag is down and nothing else has changed. */
  function Failover(r: Progress, up: nat -> bool): (t: Progress)
    requires WellFormed(r.fleet)
    ensures WellFormed(t.fleet) && |t.fleet.pools| == |r.fleet.pools|
  {
    if r.hung then r
    else if Hangs(r.fleet) then Progress(Fleet(HalfDeserted(r.fleet), r.fleet.current), true)
    else Progress(Switched(r.fleet, up), false)
  }

  /** All failovers of a run, each with the answers of the network. */
  function Failovers(f: Fleet, ups: seq<nat -> bool>): (r: Progress)
    requires WellFormed(f)
    ensures WellFormed(r.fleet) && |r.fleet.pools| == |f.pools|
    decreases |ups|
  {
    if |ups| == 0 then Progress(f, false) else Failover(Failovers(f, ups[..|ups| - 1]), ups[|ups| - 1])
  }

  function Fresh(configs: seq<Config>): (f: Fleet)
    ensures WellFormed(f) && OneFlag(f)
  {
    Fleet(seq(|configs|, i requires 0 <= i < |configs| => Pool(configs[i], false, UNUSED)), -1)
  }

  /** The current pool's client is stale: this is what a caller would have to look at before failing over. */
  predicate OnStalePool(f: Fleet)
    requires WellFormed(f)
  {
    f.current >= 0 && Stale(f.pools[f.current].client)
  }

  /**
   One failover from one flag hangs exactly when the current pool is stale, and keeps flagged
   connected equivalent to current exactly when it does not hang.
   */
  lemma FailoverKeepsOneFlag(r: Progress, up: nat -> bool)
    requires WellFormed(r.fleet) && !r.hung && OneFlag(r.fleet)
    ensures Failover(r, up).hung <==> OnStalePool(r.fleet)
    ensures OneFlag(Failover(r, up).fleet) <==> !Failover(r, up).hung
  {
    if Hangs(r.fleet) {
      assert !HalfDeserted(r.fleet)[r.fleet.current].connected;
    } else {
      var k := SwitchMeaning(r.fleet, up);
    }
  }

  /** From one flag, any number of failovers keeps one flag exactly when none of them has hung. */
  lemma {:induction false} FailoversKeepOneFlag(f: Fleet, ups: seq<nat -> bool>)
    requires WellFormed(f) && OneFlag(f)
    ensures OneFlag(Failovers(f, ups).fleet) <==> !Failovers(f, ups).hung
    decreases |ups|
  {
    if |ups| > 0 {
      var before := Failovers(f, ups[..|ups| - 1]);
      FailoversKeepOneFlag(f, ups[..|ups| - 1]);
      if !before.hung {
        FailoverKeepsOneFlag(before, ups[|ups| - 1]);
      }
    }
  }

  /** After one Start, over any number of failovers, the flagged pool is the current pool unless a failover hangs. */
  lemma OneStartKeepsOneFlag(configs: seq<Config>, up: nat -> bool, ups: seq<nat -> bool>)
    ensures WellFormed(StartFrom(Fresh(configs), 0, up)) && OneFlag(StartFrom(Fresh(configs), 0, up))
    ensures var r := Failovers(StartFrom(Fresh(configs), 0, up), ups); OneFlag(r.fleet) <==> !r.hung
  {
    StartKeepsOneFlag(Fresh(configs), 0, up);
    FailoversKeepOneFlag(StartFrom(Fresh(configs), 0, up), ups);
  }

  // ---- Runs that fail ----

  lemma PairOrder(f: Fleet)
    requires |f.pools| == 2 && f.current == 1
    ensures OrderFrom(2, 1, 0) == [0]
  {
    assert Candidate(2, 1, 0) == 0 && Candidate(2, 1, 1) == 1;
  }

  /** Pool 0 refuses at the start, pool 1 answers. */
  lemma StartOnSecond(a: Config, b: Config, up: nat -> bool)
    requires !up(0) && up(1)
    ensures StartFrom(Fresh([a, b]), 0, up) == Fleet([Pool(a, false, Client(true, false)), Pool(b, true, Client(true, true))], 1)
  {
    var f := Fresh([a, b]);
    assert f.pools == [Pool(a, false, UNUSED), Pool(b, false, UNUSED)];
    var (g, ok) := ConnectTo(f, 0, up(0));
    assert g.pools == [Pool(a, false, Client(true, false)), Pool(b, false, UNUSED)];
    var (h, done) := ConnectTo(g, 1, up(1));
    assert h.pools == [Pool(a, false, Client(true, false)), Pool(b, true, Client(true, true))];
    assert StartFrom(g, 1, up) == h;
  }

  /**
   A run that hangs.  Two pools; pool 0 refuses at the start and pool 1 answers; the first failover
   takes pool 0 without dialing, whatever the network would say, and the second one hangs.
   */
  lemma SecondFailoverHangs(a: Config, b: Config, up: nat -> bool, first: nat -> bool, second: nat -> bool)
    requires !up(0) && up(1)
    ensures WellFormed(StartFrom(Fresh([a, b]), 0, up))
    ensures var f := StartFrom(Fresh([a, b]), 0, up);
            && !Failovers(f, [first]).hung && OnStalePool(Failovers(f, [first]).fleet)
            && Failovers(f, [first, second]).hung && !OneFlag(Failovers(f, [first, second]).fleet)
  {
    StartOnSecond(a, b, up);
    var f := StartFrom(Fresh([a, b]), 0, up);
    PairOrder(f);
    var left := Deserted(f);
    assert left == [Pool(a, false, Client(true, false)), Pool(b, false, UNUSED)];
    var g := Switched(f, first);
    assert g == Fleet(left[0 := Joined(left[0], first(0))], 0);
    assert [first, second][..1] == [first] && [first][..0] == [];
    assert Failovers(f, []) == Progress(f, false);
    assert Failovers(f, [first]) == Failover(Progress(f, false), first) == Progress(g, false);
    assert Failovers(f, [first, second]) == Failover(Progress(g, false), second);
    FailoversKeepOneFlag(f, [first]);
    FailoverKeepsOneFlag(Progress(g, false), second);
  }

  /** A second Start that flags two pools: both answer, and Start is called twice. */
  lemma SecondStartFlagsTwo(a: Config, b: Config, up: nat -> bool)
    requires up(0) && up(1)
    ensures var f := StartFrom(Fresh([a, b]), 0, up);
            var g := StartFrom(f, 0, up);
            OneFlag(f) && f.current == 0 && g.pools[0].connected && g.pools[1].connected && !OneFlag(g)
  {
    StartKeepsOneFlag(Fresh([a, b]), 0, up);
    var (f, ok) := ConnectTo(Fresh([a, b]), 0, up(0));
    assert f == StartFrom(Fresh([a, b]), 0, up);
    assert f.pools == [Pool(a, true, Client(true, true)), Pool(b, false, UNUSED)];
    var (g, done) := ConnectTo(f, 1, up(1));
    assert g == StartFrom(f, 1, up) == StartFrom(f, 0, up);
    assert g.pools == [Pool(a, true, Client(true, true)), Pool(b, true, Client(true, true))];
  }
}
