/**
 Reports of evaluated nonces to the pool, next to the workers that evaluate them.

 The report loop adds the counters of the workers one at a time, so the sum it compares and hands
 over is not the value of any single moment.  A step is one nonce of one worker, or one access of
 the report loop to something shared.  Whether a handed-over increment reaches the pool is left
 open, and is independent of whether the write reports an error.
 */
module HashReport {

  datatype Loop =
    | Waiting
    | Summing(next: nat, sum: nat)
    | Sending(increment: nat)

  /** `evaluated`, `wins`, `handed`, `lost` and `atTick` are histories; `pool` is the total of the pool. */
  datatype State = State(counts: seq<nat>, loop: Loop, lastReported: nat,
                         evaluated: nat, wins: nat, handed: seq<nat>, pool: nat, lost: nat, atTick: nat)

  datatype Action =
    | Evaluate(w: nat, meets: bool)  // a winning nonce leaves the counter alone
    | Tick(client: bool)
    | Advance                        // the report loop reads the next counter, or compares and hands over
    | Finish(received: bool)         // SendHashReport returns

  function Initial(workers: nat): State {
    State(seq(workers, i => 0), Waiting, 0, 0, 0, [], 0, 0, 0)
  }

  function Sum(s: seq<nat>): nat {
    if |s| == 0 then 0 else Sum(s[..|s| - 1]) + s[|s| - 1]
  }

  function EvaluateStep(s: State, w: nat, meets: bool): State {
    if w >= |s.counts| then s
    else if meets then s.(evaluated := s.evaluated + 1, wins := s.wins + 1)
    else s.(evaluated := s.evaluated + 1, counts := s.counts[w := s.counts[w] + 1])
  }

  function AdvanceStep(s: State): State {
    match s.loop
    case Summing(k, sum) =>
      if k < |s.counts| then s.(loop := Summing(k + 1, sum + s.counts[k]))
      else if sum <= s.lastReported then s.(loop := Waiting)
      else
        var increment := sum - s.lastReported;
        s.(loop := Sending(increment), lastReported := sum, handed := s.handed + [increment])
    case _ => s
  }

  function Step(s: State, a: Action): State {
    match a
    case Evaluate(w, meets) => EvaluateStep(s, w, meets)
    case Tick(client) =>
      if s.loop.Waiting? && client then s.(loop := Summing(0, 0), atTick := Sum(s.counts)) else s
    case Advance => AdvanceStep(s)
    case Finish(received) =>
      if !s.loop.Sending? then s
      else if received then s.(loop := Waiting, pool := s.pool + s.loop.increment)
      else s.(loop := Waiting, lost := s.lost + s.loop.increment)
  }

  function Run(s: State, actions: seq<Action>): State {
    if |actions| == 0 then s else Step(Run(s, actions[..|actions| - 1]), actions[|actions| - 1])
  }

  function InFlight(s: State): nat {
    if s.loop.Sending? then s.loop.increment else 0
  }

  lemma {:induction false} SumUpdate(s: seq<nat>, i: nat, x: nat)
    requires i < |s| && s[i] <= x
    ensures Sum(s[i := x]) == Sum(s) + (x - s[i])
  {
    var t, last := s[i := x], |s| - 1;
    if i == last {
      assert t[..last] == s[..last];
    } else {
      assert t[..last] == s[..last][i := x];
      SumUpdate(s[..last], i, x);
    }
  }

  lemma {:induction false} SumOfPrefixes(s: seq<nat>, k: nat)
    requires k <= |s|
    ensures Sum(s[..k]) <= Sum(s)
  {
    if k == |s| {
      assert s[..k] == s;
    } else {
      SumOfPrefixes(s[..|s| - 1], k);
      assert s[..|s| - 1][..k] == s[..k];
    }
  }

  lemma SumOfMore(s: seq<nat>, k: nat)
    requires k < |s|
    ensures Sum(s[..k + 1]) == Sum(s[..k]) + s[k]
  {
    assert s[..k + 1][..k] == s[..k];
  }

  lemma {:induction false} SumOfZeros(n: nat)
    ensures Sum(seq(n, i => 0)) == 0
  {
    if n > 0 {
      var zeros: seq<nat> := seq(n, i => 0);
      assert zeros[..n - 1] == seq(n - 1, i => 0);
      SumOfZeros(n - 1);
    }
  }

  /**
   Every nonce is a win or in a counter; what was handed over telescopes to `lastReported`; and the
   partial sum lies between the counters at the tick, less those not read yet, and the counters now.
   */
  ghost predicate Inv(s: State) {
    && Sum(s.counts) + s.wins == s.evaluated
    && Sum(s.handed) == s.lastReported
    && s.pool + s.lost + InFlight(s) == s.lastReported
    && s.lastReported <= Sum(s.counts)
    && s.atTick <= Sum(s.counts)
    && match s.loop
       case Summing(k, sum) => k <= |s.counts| && sum <= Sum(s.counts[..k])
                               && s.atTick + Sum(s.counts[..k]) <= sum + Sum(s.counts)
       case _ => s.atTick <= s.lastReported
  }

  lemma EvaluateKeepsInv(s: State, w: nat)
    requires Inv(s) && w < |s.counts|
    ensures Inv(EvaluateStep(s, w, false))
  {
    var counts := s.counts[w := s.counts[w] + 1];
    SumUpdate(s.counts, w, s.counts[w] + 1);
    if s.loop.Summing? {
      var k := s.loop.next;
      if w < k {
        assert counts[..k] == s.counts[..k][w := s.counts[w] + 1];
        SumUpdate(s.counts[..k], w, s.counts[w] + 1);
      } else {
        assert counts[..k] == s.counts[..k];
      }
    }
  }

  lemma AdvanceKeepsInv(s: State)
    requires Inv(s) && s.loop.Summing?
    ensures Inv(AdvanceStep(s))
  {
    var k := s.loop.next;
    if k < |s.counts| {
      SumOfMore(s.counts, k);
    } else {
      assert s.counts[..k] == s.counts;
      var increment := s.loop.sum - s.lastReported;
      if increment > 0 {
        var handed: seq<nat> := s.handed + [increment];
        assert handed[..|s.handed|] == s.handed;
      }
    }
  }

  lemma StepKeepsInv(s: State, a: Action)
    requires Inv(s)
    ensures Inv(Step(s, a))
  {
    match a
    case Evaluate(w, meets) =>
      if w < |s.counts| && !meets {
        EvaluateKeepsInv(s, w);
      }
    case Advance =>
      if s.loop.Summing? {
        AdvanceKeepsInv(s);
      }
    case _ =>
  }

  lemma {:induction false} RunKeepsInv(s: State, actions: seq<Action>)
    requires Inv(s)
    ensures Inv(Run(s, actions))
  {
    if |actions| > 0 {
      RunKeepsInv(s, actions[..|actions| - 1]);
      StepKeepsInv(Run(s, actions[..|actions| - 1]), actions[|actions| - 1]);
    }
  }

  /**
   Conservation over every run: the increments handed over add up to `lastReported`; each of them
   reached the pool, was lost, or is on its way; and none of it exceeds the nonces evaluated
   without winning.
   */
  lemma ReportsConserve(workers: nat, actions: seq<Action>)
    ensures var s := Run(Initial(workers), actions);
            && Sum(s.handed) == s.lastReported
            && s.pool + s.lost + InFlight(s) == s.lastReported
            && s.lastReported <= Sum(s.counts) == s.evaluated - s.wins
            && s.pool <= s.evaluated
  {
    SumOfZeros(workers);
    RunKeepsInv(Initial(workers), actions);
  }

  /** How many nonces of the workers were evaluated in the run, and how many of them won. */
  function Evaluations(workers: nat, actions: seq<Action>): nat {
    if |actions| == 0 then 0
    else
      var a := actions[|actions| - 1];
      Evaluations(workers, actions[..|actions| - 1]) + if a.Evaluate? && a.w < workers then 1 else 0
  }

  function Wins(workers: nat, actions: seq<Action>): nat {
    if |actions| == 0 then 0
    else
      var a := actions[|actions| - 1];
      Wins(workers, actions[..|actions| - 1]) + if a.Evaluate? && a.w < workers && a.meets then 1 else 0
  }

  lemma StepKeepsWorkers(s: State, a: Action)
    ensures |Step(s, a).counts| == |s.counts|
    ensures Step(s, a).evaluated == s.evaluated + if a.Evaluate? && a.w < |s.counts| then 1 else 0
    ensures Step(s, a).wins == s.wins + if a.Evaluate? && a.w < |s.counts| && a.meets then 1 else 0
  {
  }

  /** The counters together are the nonces of the run that were evaluated without winning. */
  lemma {:induction false} CountersCountLosses(workers: nat, actions: seq<Action>)
    ensures var s := Run(Initial(workers), actions);
            && |s.counts| == workers
            && s.evaluated == Evaluations(workers, actions) && s.wins == Wins(workers, actions)
            && Sum(s.counts) + Wins(workers, actions) == Evaluations(workers, actions)
  {
    if |actions| > 0 {
      CountersCountLosses(workers, actions[..|actions| - 1]);
      StepKeepsWorkers(Run(Initial(workers), actions[..|actions| - 1]), actions[|actions| - 1]);
    }
    ReportsConserve(workers, actions);
  }

  lemma {:induction false} TickIsKept(s: State, actions: seq<Action>)
    requires forall a :: a in actions ==> !a.Tick?
    ensures Run(s, actions).atTick == s.atTick
  {
    if |actions| > 0 {
      TickIsKept(s, actions[..|actions| - 1]);
      assert actions[|actions| - 1] in actions;
    }
  }

  /**
   Whatever a waiting loop finds at a tick is covered once its report has been handed over, or found
   unnecessary, whatever the workers do in between.
   */
  lemma TickIsCovered(workers: nat, before: seq<Action>, after: seq<Action>)
    requires Run(Initial(workers), before).loop.Waiting?
    requires forall a :: a in after ==> !a.Tick?
    requires !Run(Step(Run(Initial(workers), before), Tick(true)), after).loop.Summing?
    ensures var s := Run(Initial(workers), before);
            var t := Run(Step(s, Tick(true)), after);
            Sum(s.counts) <= t.lastReported <= Sum(t.counts)
  {
    var s := Run(Initial(workers), before);
    SumOfZeros(workers);
    RunKeepsInv(Initial(workers), before);
    StepKeepsInv(s, Tick(true));
    RunKeepsInv(Step(s, Tick(true)), after);
    TickIsKept(Step(s, Tick(true)), after);
  }

  /**
   A report that has been handed over, or found unnecessary, covers everything counted when its tick
   came, although the counters were read one by one while they moved.
   */
  lemma ReportCoversTick(workers: nat, actions: seq<Action>)
    ensures var s := Run(Initial(workers), actions);
            !s.loop.Summing? ==> s.atTick <= s.lastReported <= Sum(s.counts)
  {
    SumOfZeros(workers);
    RunKeepsInv(Initial(workers), actions);
  }

  ghost predicate AllReceived(actions: seq<Action>) {
    forall a :: a in actions && a.Finish? ==> a.received
  }

  lemma {:induction false} NothingLost(s: State, actions: seq<Action>)
    requires AllReceived(actions)
    ensures Run(s, actions).lost == s.lost
  {
    if |actions| > 0 {
      NothingLost(s, actions[..|actions| - 1]);
      assert actions[|actions| - 1] in actions;
    }
  }

  /** The pool's total is what was reported, up to the report on its way, when nothing got lost. */
  lemma PoolCatchesUp(workers: nat, actions: seq<Action>)
    requires AllReceived(actions)
    ensures var s := Run(Initial(workers), actions); s.pool + InFlight(s) == s.lastReported
  {
    ReportsConserve(workers, actions);
    NothingLost(Initial(workers), actions);
  }

  lemma {:induction false} LossOnlyGrows(s: State, actions: seq<Action>)
    ensures s.lost <= Run(s, actions).lost
  {
    if |actions| > 0 {
      LossOnlyGrows(s, actions[..|actions| - 1]);
    }
  }

  /** A lost report is never made up for: later reports start from `lastReported`. */
  lemma LostReportsStayLost(s: State, actions: seq<Action>)
    requires Inv(s)
    ensures var t := Run(s, actions); t.pool + s.lost <= t.evaluated - t.wins
  {
    RunKeepsInv(s, actions);
    LossOnlyGrows(s, actions);
  }
}
