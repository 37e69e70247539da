/**
 The nonce scan of `Mine` over whole runs of calls: where each call starts, what it evaluates,
 what it leaves in `lastNonce` and `hashCount`.

 A call is given by which nonces pass, at which nonces the stop channel is found closed, and the
 clock that chooses the first start.
 */
module Scan {

  const MAX_NONCE: nat := 1000000000
  const FIRST_RANGE: nat := 1000000

  datatype Call = Call(pass: nat -> bool, stop: nat -> bool, clock: nat)
  datatype Outcome = Found(nonce: nat) | Stopped(nonce: nat) | Exhausted
  datatype Counters = Counters(lastNonce: nat, hashCount: nat)

  function Start(lastNonce: nat, clock: nat): nat {
    if lastNonce == 0 then clock % FIRST_RANGE else lastNonce
  }

  /** The loop from nonce n: the stop channel is looked at before the nonce is evaluated. */
  function ScanFrom(pass: nat -> bool, stop: nat -> bool, n: nat): (o: Outcome)
    ensures !o.Exhausted? ==> n <= o.nonce < MAX_NONCE
    decreases MAX_NONCE - n
  {
    if n >= MAX_NONCE then Exhausted
    else if stop(n) then Stopped(n)
    else if pass(n) then Found(n)
    else ScanFrom(pass, stop, n + 1)
  }

  /** One past the last nonce evaluated. */
  function EndOf(o: Outcome, start: nat): nat {
    match o
    case Found(n) => n + 1
    case Stopped(n) => n
    case Exhausted => if start < MAX_NONCE then MAX_NONCE else start
  }

  /** The value the source defers into `lastNonce`. */
  function LastN(o: Outcome): nat {
    match o
    case Found(n) => n + 1
    case Stopped(n) => n
    case Exhausted => 0
  }

  function OutcomeOf(s: Counters, c: Call): Outcome {
    ScanFrom(c.pass, c.stop, Start(s.lastNonce, c.clock))
  }

  function Tried(s: Counters, c: Call): (t: nat) {
    var start := Start(s.lastNonce, c.clock);
    if EndOf(OutcomeOf(s, c), start) >= start then EndOf(OutcomeOf(s, c), start) - start else 0
  }

  function After(s: Counters, c: Call): Counters {
    var o := OutcomeOf(s, c);
    Counters(if LastN(o) > s.lastNonce then LastN(o) else s.lastNonce,
             s.hashCount + Tried(s, c) - (if o.Found? then 1 else 0))
  }

  // ---- One call ----

  /** A success is the least nonce at or after the start that passes; nothing else was evaluated. */
  lemma {:induction false} ScanMeaning(pass: nat -> bool, stop: nat -> bool, n: nat)
    ensures var o := ScanFrom(pass, stop, n);
            && (o.Found? ==> n <= o.nonce < MAX_NONCE && pass(o.nonce))
            && (o.Stopped? ==> stop(o.nonce))
            && forall m: nat :: n <= m < MAX_NONCE && (o.Exhausted? || m < o.nonce) ==> !pass(m) && !stop(m)
    decreases MAX_NONCE - n
  {
    if n < MAX_NONCE && !stop(n) && !pass(n) {
      ScanMeaning(pass, stop, n + 1);
    }
  }

  /**
   The source means to restart from 0 after exhausting the nonces; the assignment never takes
   effect.  The next call starts at 0 exactly when no nonce was ever kept and the clock says so.
   */
  lemma ExhaustionDoesNotWrap(s: Counters, c: Call, clock: nat)
    requires OutcomeOf(s, c).Exhausted?
    ensures After(s, c).lastNonce == s.lastNonce
    ensures Start(After(s, c).lastNonce, clock) == 0 <==> s.lastNonce == 0 && clock % FIRST_RANGE == 0
  {
  }

  /** A first call that nothing passes and nothing stops exhausts the nonces, and the next one starts as if it had not. */
  lemma ExhaustionIsReached(hashCount: nat, clock: nat)
    ensures var s, c := Counters(0, hashCount), Call(_ => false, _ => false, clock);
            OutcomeOf(s, c).Exhausted? && Tried(s, c) > 0 && After(s, c).lastNonce == 0
  {
    var c := Call(_ => false, _ => false, clock);
    ScanMeaning(c.pass, c.stop, Start(0, clock));
  }

  /** After a success on the last nonce, every later call returns at once, having tried nothing. */
  lemma {:induction false} StuckAtTheEnd(s: Counters, calls: seq<Call>)
    requires s.lastNonce == MAX_NONCE
    ensures Run(s, calls) == s && Evaluated(s, calls) == []
  {
    if |calls| > 0 {
      var front, c := calls[..|calls| - 1], calls[|calls| - 1];
      StuckAtTheEnd(s, front);
      assert OutcomeOf(s, c) == Exhausted;
      assert Tried(s, c) == 0;
    }
  }

  /** A call can evaluate a nonce exactly when the limit has not been reached. */
  lemma CanTryUnlessAtTheEnd(s: Counters)
    requires s.lastNonce <= MAX_NONCE
    ensures (exists c :: Tried(s, c) > 0) <==> s.lastNonce < MAX_NONCE
  {
    if s.lastNonce < MAX_NONCE {
      var c := Call(_ => false, _ => false, 0);
      ScanMeaning(c.pass, c.stop, Start(s.lastNonce, c.clock));
      assert Tried(s, c) > 0;
    }
  }

  // ---- Runs ----

  function Run(s: Counters, calls: seq<Call>): Counters {
    if |calls| == 0 then s else After(Run(s, calls[..|calls| - 1]), calls[|calls| - 1])
  }

  /** lo, lo + 1, ..., hi - 1 */
  function Interval(lo: nat, hi: nat): (r: seq<nat>)
    ensures |r| == if lo <= hi then hi - lo else 0
  {
    seq(if lo <= hi then hi - lo else 0, i requires i >= 0 => lo + i)
  }

  lemma IntervalsJoin(a: nat, b: nat, c: nat)
    requires a <= b <= c
    ensures Interval(a, b) + Interval(b, c) == Interval(a, c)
  {
  }

  /** The nonces evaluated by one call, in order. */
  function EvaluatedBy(s: Counters, c: Call): seq<nat> {
    var start := Start(s.lastNonce, c.clock);
    Interval(start, EndOf(OutcomeOf(s, c), start))
  }

  /** The nonces evaluated by a run, call after call. */
  function Evaluated(s: Counters, calls: seq<Call>): seq<nat> {
    if |calls| == 0 then []
    else
      var front := calls[..|calls| - 1];
      Evaluated(s, front) + EvaluatedBy(Run(s, front), calls[|calls| - 1])
  }

  function Successes(s: Counters, calls: seq<Call>): nat {
    if |calls| == 0 then 0
    else
      var front := calls[..|calls| - 1];
      Successes(s, front) + if OutcomeOf(Run(s, front), calls[|calls| - 1]).Found? then 1 else 0
  }

  ghost predicate NeverExhausts(s: Counters, calls: seq<Call>) {
    forall i :: 0 <= i < |calls| ==> !OutcomeOf(Run(s, calls[..i]), calls[i]).Exhausted?
  }

  lemma CallKeeps(s: Counters, c: Call)
    requires s.lastNonce <= MAX_NONCE
    ensures s.lastNonce <= After(s, c).lastNonce <= MAX_NONCE
    ensures |EvaluatedBy(s, c)| == Tried(s, c)
    ensures OutcomeOf(s, c).Found? ==> Tried(s, c) >= 1 && s.lastNonce <= OutcomeOf(s, c).nonce
    ensures After(s, c).hashCount + (if OutcomeOf(s, c).Found? then 1 else 0) == s.hashCount + Tried(s, c)
    ensures !OutcomeOf(s, c).Exhausted? ==>
      Start(s.lastNonce, c.clock) <= EndOf(OutcomeOf(s, c), Start(s.lastNonce, c.clock)) == After(s, c).lastNonce
  {
  }

  /**
   Over any run: `lastNonce` never decreases and never passes the limit, and the nonces evaluated
   are exactly the ones counted in `hashCount` plus one for every success.
   */
  lemma {:induction false} RunAccounts(s: Counters, calls: seq<Call>)
    requires s.lastNonce <= MAX_NONCE
    ensures s.lastNonce <= Run(s, calls).lastNonce <= MAX_NONCE
    ensures s.hashCount + |Evaluated(s, calls)| == Run(s, calls).hashCount + Successes(s, calls)
  {
    if |calls| > 0 {
      var front, c := calls[..|calls| - 1], calls[|calls| - 1];
      RunAccounts(s, front);
      CallKeeps(Run(s, front), c);
    }
  }

  /** The outcome of call i of a run. */
  function OutcomeAt(s: Counters, calls: seq<Call>, i: nat): Outcome
    requires i < |calls|
  {
    OutcomeOf(Run(s, calls[..i]), calls[i])
  }

  /** Some call of the run has found the last nonce. */
  predicate FindsLast(s: Counters, calls: seq<Call>) {
    exists i :: 0 <= i < |calls| && OutcomeAt(s, calls, i) == Found(MAX_NONCE - 1)
  }

  lemma OneCallReachesTheEnd(s: Counters, c: Call)
    requires s.lastNonce < MAX_NONCE
    ensures After(s, c).lastNonce == MAX_NONCE <==> OutcomeOf(s, c) == Found(MAX_NONCE - 1)
  {
  }

  lemma FindsLastFront(s: Counters, calls: seq<Call>)
    requires |calls| > 0
    ensures var front := calls[..|calls| - 1];
            FindsLast(s, calls) <==>
              FindsLast(s, front) || OutcomeOf(Run(s, front), calls[|calls| - 1]) == Found(MAX_NONCE - 1)
  {
    var front := calls[..|calls| - 1];
    forall i | 0 <= i < |front|
      ensures OutcomeAt(s, calls, i) == OutcomeAt(s, front, i)
    {
      assert front[..i] == calls[..i];
    }
    if FindsLast(s, front) {
      var i :| 0 <= i < |front| && OutcomeAt(s, front, i) == Found(MAX_NONCE - 1);
      assert OutcomeAt(s, calls, i) == Found(MAX_NONCE - 1);
    }
    if OutcomeOf(Run(s, front), calls[|calls| - 1]) == Found(MAX_NONCE - 1) {
      assert OutcomeAt(s, calls, |calls| - 1) == Found(MAX_NONCE - 1);
    }
  }

  /** A run reaches the limit exactly when one of its calls finds the last nonce. */
  lemma {:induction false} EndIsFindingLast(s: Counters, calls: seq<Call>)
    requires s.lastNonce < MAX_NONCE
    ensures Run(s, calls).lastNonce == MAX_NONCE <==> FindsLast(s, calls)
  {
    if |calls| > 0 {
      var front, c := calls[..|calls| - 1], calls[|calls| - 1];
      EndIsFindingLast(s, front);
      RunAccounts(s, front);
      FindsLastFront(s, calls);
      if Run(s, front).lastNonce < MAX_NONCE {
        OneCallReachesTheEnd(Run(s, front), c);
      } else {
        CallKeeps(Run(s, front), c);
      }
    }
  }

  /** Nothing is ever evaluated again after a run exactly when the run has found the last nonce. */
  lemma StuckIffFoundLast(s: Counters, calls: seq<Call>)
    requires s.lastNonce < MAX_NONCE
    ensures (forall later :: Evaluated(Run(s, calls), later) == []) <==> FindsLast(s, calls)
  {
    var t := Run(s, calls);
    EndIsFindingLast(s, calls);
    RunAccounts(s, calls);
    if t.lastNonce == MAX_NONCE {
      forall later
        ensures Evaluated(t, later) == []
      {
        StuckAtTheEnd(t, later);
      }
    } else {
      CanTryUnlessAtTheEnd(t);
      var c :| Tried(t, c) > 0;
      CallKeeps(t, c);
      OneCall(t, c);
      assert Evaluated(t, [c]) != [];
    }
  }

  lemma OneCall(s: Counters, c: Call)
    ensures Evaluated(s, [c]) == EvaluatedBy(s, c) && Run(s, [c]) == After(s, c)
  {
    assert [c][..0] == [];
    assert Run(s, []) == s && Evaluated(s, []) == [];
  }

  /** A first call that finds the last nonce: nothing else passes and nothing stops it. */
  lemma LastNonceCanBeFound(hashCount: nat, clock: nat)
    ensures FindsLast(Counters(0, hashCount), [Call(n => n == MAX_NONCE - 1, _ => false, clock)])
  {
    var s, c := Counters(0, hashCount), Call(n => n == MAX_NONCE - 1, _ => false, clock);
    ScanMeaning(c.pass, c.stop, Start(s.lastNonce, c.clock));
    assert c.pass(MAX_NONCE - 1);
    assert [c][..0] == [];
    assert OutcomeAt(s, [c], 0) == Found(MAX_NONCE - 1);
  }

  lemma NeverExhaustsFront(s: Counters, calls: seq<Call>)
    requires |calls| > 0 && NeverExhausts(s, calls)
    ensures NeverExhausts(s, calls[..|calls| - 1])
    ensures !OutcomeOf(Run(s, calls[..|calls| - 1]), calls[|calls| - 1]).Exhausted?
  {
    var front := calls[..|calls| - 1];
    forall i | 0 <= i < |front|
      ensures !OutcomeOf(Run(s, front[..i]), front[i]).Exhausted?
    {
      assert front[..i] == calls[..i];
    }
  }

  /** The next call starts where the nonces evaluated so far, from lo on, have ended. */
  lemma TileStep(lo: nat, mid: Counters, c: Call, before: seq<nat>)
    requires lo <= mid.lastNonce <= MAX_NONCE && before == Interval(lo, mid.lastNonce)
    requires !OutcomeOf(mid, c).Exhausted? && mid.lastNonce > 0
    ensures lo <= After(mid, c).lastNonce && before + EvaluatedBy(mid, c) == Interval(lo, After(mid, c).lastNonce)
  {
    CallKeeps(mid, c);
    IntervalsJoin(lo, mid.lastNonce, After(mid, c).lastNonce);
  }

  /**
   The ranges scanned by calls that do not exhaust the nonces tile one interval that ends at
   `lastNonce`: no gap and no overlap between calls, whatever the jobs.
   */
  lemma {:induction false} RangesTile(s: Counters, calls: seq<Call>)
    requires s.lastNonce <= MAX_NONCE && NeverExhausts(s, calls)
    ensures exists lo: nat :: lo <= Run(s, calls).lastNonce
                              && (s.lastNonce > 0 ==> lo == s.lastNonce)
                              && Evaluated(s, calls) == Interval(lo, Run(s, calls).lastNonce)
  {
    if |calls| == 0 {
      assert Evaluated(s, calls) == Interval(s.lastNonce, Run(s, calls).lastNonce);
    } else {
      var front, c := calls[..|calls| - 1], calls[|calls| - 1];
      var mid, end := Run(s, front), Run(s, calls);
      NeverExhaustsFront(s, calls);
      RangesTile(s, front);
      RunAccounts(s, front);
      CallKeeps(mid, c);
      if mid.lastNonce == 0 {
        assert Evaluated(s, calls) == Interval(Start(0, c.clock), end.lastNonce);
      } else {
        var lo: nat :| lo <= mid.lastNonce && (s.lastNonce > 0 ==> lo == s.lastNonce)
                       && Evaluated(s, front) == Interval(lo, mid.lastNonce);
        TileStep(lo, mid, c, Evaluated(s, front));
        assert Evaluated(s, calls) == Interval(lo, end.lastNonce);
      }
    }
  }

  /** The nonces of successive successes increase, in every run: none is ever found twice. */
  lemma SuccessesIncrease(s: Counters, calls: seq<Call>, i: nat, j: nat)
    requires s.lastNonce <= MAX_NONCE && i < j < |calls|
    requires OutcomeOf(Run(s, calls[..i]), calls[i]).Found? && OutcomeOf(Run(s, calls[..j]), calls[j]).Found?
    ensures OutcomeOf(Run(s, calls[..i]), calls[i]).nonce < OutcomeOf(Run(s, calls[..j]), calls[j]).nonce
  {
    RunAccounts(s, calls[..i]);
    CallKeeps(Run(s, calls[..i]), calls[i]);
    LaterIsHigher(s, calls, i + 1, j);
    assert calls[..i + 1][..i] == calls[..i];
    RunAccounts(s, calls[..j]);
    CallKeeps(Run(s, calls[..j]), calls[j]);
  }

  lemma {:induction false} LaterIsHigher(s: Counters, calls: seq<Call>, i: nat, j: nat)
    requires s.lastNonce <= MAX_NONCE && i <= j <= |calls|
    ensures Run(s, calls[..i]).lastNonce <= Run(s, calls[..j]).lastNonce
    decreases j
  {
    if i < j {
      LaterIsHigher(s, calls, i, j - 1);
      RunAccounts(s, calls[..j - 1]);
      CallKeeps(Run(s, calls[..j - 1]), calls[j - 1]);
      assert calls[..j][..j - 1] == calls[..j - 1];
    }
  }
}
