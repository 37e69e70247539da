/** The client as the pool manager sees it is the client of the connection life cycle. */
module ClientView {
  import L = Lifecycle
  import F = Failover

  ghost predicate HasLoop(s: L.State) {
    exists i :: L.Alive(s, i)
  }

  ghost function Seen(s: L.State): F.Client {
    F.Client(s.started, HasLoop(s))
  }

  ghost predicate CloseCanReturn(s: L.State) {
    exists more :: L.Run(L.CloseStep(s), more).caller.Ready?
  }

  lemma UnusedCloses(s: L.State)
    requires s.caller.Ready? && !s.started
    ensures CloseCanReturn(s)
  {
    var t := L.CloseStep(s);
    L.RunCons(t, L.Call(true), []);
    assert L.Run(L.Step(t, L.Call(true)), []).caller.Ready?;
    assert L.Run(t, [L.Call(true)] + []).caller.Ready?;
  }

  lemma StartedCloses(s: L.State)
    requires L.Inv(s) && s.caller.Ready? && s.started
    ensures CloseCanReturn(s) <==> !s.failed
  {
    var t := L.CloseStep(s);
    L.CloseKeepsInv(s);
    if s.failed {
      forall more
        ensures !L.Run(t, more).caller.Ready?
      {
        L.StuckForever(t, more);
      }
    } else {
      var more := L.LoopCanEnd(t);
    }
  }

  /** What the manager's model of a client says of it. */
  ghost predicate SeenRightly(s: L.State) {
    && (L.ConnectStep(s) == s <==> Seen(s).started)
    && (F.Stale(Seen(s)) <==> s.failed)
    && (CloseCanReturn(s) <==> F.CloseReturns(Seen(s)))
  }

  lemma InvSeenRightly(s: L.State)
    requires L.Inv(s) && s.caller.Ready?
    ensures SeenRightly(s)
  {
    L.FailedIsDead(s);
    if s.started {
      StartedCloses(s);
    } else {
      UnusedCloses(s);
    }
  }

  /**
   Between calls, Connect does nothing exactly when the client counts as started; a client is stale
   exactly when a dial of Connect failed; and Close can return exactly when the manager's model of
   the client says so.
   */
  lemma ManagerSeesClient(actions: seq<L.Action>)
    requires L.Run(L.INITIAL, actions).caller.Ready?
    ensures SeenRightly(L.Run(L.INITIAL, actions))
  {
    L.Reached(actions);
    InvSeenRightly(L.Run(L.INITIAL, actions));
  }

  // ---- Whole calls ----

  /** The call returns with the last of these steps, and not before. */
  ghost predicate ReturnsAfter(t: L.State, steps: seq<L.Action>) {
    && L.Run(t, steps).caller.Ready?
    && forall i :: 0 <= i < |steps| ==> !L.Run(t, steps[..i]).caller.Ready?
  }

  predicate InConnect(s: L.State) {
    s.started && (s.caller.Connecting? || s.caller.Spawning?)
  }

  predicate InClose(s: L.State) {
    s.caller.Waiting? || s.caller.Resetting?
  }

  lemma HandshakeLeavesCaller(s: L.State, d: L.Dial, ok: bool)
    requires d.Dialing? || d.Handshake? || d.Publish?
    ensures var t := L.DialStep(s, d, ok).0; t.caller == s.caller && t.started == s.started
  {
  }

  lemma DialLeavesCaller(s: L.State, d: L.Dial, ok: bool)
    ensures var t := L.DialStep(s, d, ok).0; t.caller == s.caller && t.started == s.started
  {
    if d.Dialing? || d.Handshake? || d.Publish? {
      HandshakeLeavesCaller(s, d, ok);
    }
  }

  lemma LoopLeavesCaller(s: L.State, l: L.Loop, ok: bool)
    ensures var t := L.LoopStep(s, l, ok).0; t.caller == s.caller && t.started == s.started
  {
    if l.Redial? {
      DialLeavesCaller(s, l.dial, ok);
    }
  }

  lemma WorkLeavesCaller(s: L.State, i: nat, ok: bool)
    ensures var t := L.WorkStep(s, i, ok); t.caller == s.caller && t.started == s.started
  {
    if i < |s.loops| {
      LoopLeavesCaller(s, s.loops[i], ok);
    }
  }

  lemma ConnectGoesOn(s: L.State, a: L.Action)
    requires InConnect(s)
    ensures var t := L.Step(s, a); InConnect(t) || (t.caller.Ready? && t.started)
  {
    if a.Work? {
      WorkLeavesCaller(s, a.loop, a.ok);
    } else if a.Call? && s.caller.Connecting? {
      DialLeavesCaller(s, s.caller.dial, a.ok);
    }
  }

  lemma CloseGoesOn(s: L.State, a: L.Action)
    requires InClose(s)
    ensures var t := L.Step(s, a); InClose(t) || (t.caller.Ready? && !t.started)
  {
    if a.Work? {
      WorkLeavesCaller(s, a.loop, a.ok);
    }
  }

  lemma {:induction false} ConnectPath(t: L.State, steps: seq<L.Action>)
    requires InConnect(t) && forall i :: 0 <= i < |steps| ==> !L.Run(t, steps[..i]).caller.Ready?
    ensures var u := L.Run(t, steps); InConnect(u) || (u.caller.Ready? && u.started)
  {
    if |steps| > 0 {
      var front := steps[..|steps| - 1];
      assert forall i :: 0 <= i < |front| ==> front[..i] == steps[..i];
      ConnectPath(t, front);
      ConnectGoesOn(L.Run(t, front), steps[|steps| - 1]);
    }
  }

  lemma {:induction false} ClosePath(t: L.State, steps: seq<L.Action>)
    requires InClose(t) && forall i :: 0 <= i < |steps| ==> !L.Run(t, steps[..i]).caller.Ready?
    ensures var u := L.Run(t, steps); InClose(u) || (u.caller.Ready? && !u.started)
  {
    if |steps| > 0 {
      var front := steps[..|steps| - 1];
      assert forall i :: 0 <= i < |front| ==> front[..i] == steps[..i];
      ClosePath(t, front);
      CloseGoesOn(L.Run(t, front), steps[|steps| - 1]);
    }
  }

  /** At rest, a loop is running exactly when the client was started and no dial of Connect failed. */
  lemma SeenAtRest(s: L.State)
    requires L.Inv(s) && s.caller.Ready?
    ensures Seen(s) == F.Client(s.started, s.started && !s.failed)
    ensures !s.started ==> !s.failed
  {
    L.FailedIsDead(s);
  }

  /**
   A whole Connect changes what the manager sees as its model says: the answer of the network is
   that of the one dial, and a started client is left alone.
   */
  lemma ConnectIsDialed(actions: seq<L.Action>, steps: seq<L.Action>)
    requires L.Run(L.INITIAL, actions).caller.Ready?
    requires ReturnsAfter(L.ConnectStep(L.Run(L.INITIAL, actions)), steps)
    ensures var s := L.Run(L.INITIAL, actions);
            var t := L.Run(L.ConnectStep(s), steps);
            && Seen(t) == F.Dialed(Seen(s), !t.failed)
            && (!s.started ==> Seen(s) == F.UNUSED)
  {
    var s := L.Run(L.INITIAL, actions);
    L.Reached(actions);
    ConnectChanges(s, steps);
  }

  lemma NoSteps(t: L.State, steps: seq<L.Action>)
    requires t.caller.Ready? && ReturnsAfter(t, steps)
    ensures |steps| == 0
  {
    assert L.Run(t, steps[..0]) == t;
  }

  lemma ConnectChanges(s: L.State, steps: seq<L.Action>)
    requires L.Inv(s) && s.caller.Ready? && ReturnsAfter(L.ConnectStep(s), steps)
    ensures Seen(L.Run(L.ConnectStep(s), steps)) == F.Dialed(Seen(s), !L.Run(L.ConnectStep(s), steps).failed)
    ensures !s.started ==> Seen(s) == F.UNUSED
  {
    SeenAtRest(s);
    if s.started {
      NoSteps(s, steps);
    } else {
      L.ConnectKeepsInv(s);
      L.RunKeepsInv(L.ConnectStep(s), steps);
      ConnectPath(L.ConnectStep(s), steps);
      SeenAtRest(L.Run(L.ConnectStep(s), steps));
    }
  }

  /** A whole Close that returns leaves an unused client. */
  lemma CloseIsUnused(actions: seq<L.Action>, steps: seq<L.Action>)
    requires L.Run(L.INITIAL, actions).caller.Ready?
    requires ReturnsAfter(L.CloseStep(L.Run(L.INITIAL, actions)), steps)
    ensures Seen(L.Run(L.CloseStep(L.Run(L.INITIAL, actions)), steps)) == F.UNUSED
  {
    L.Reached(actions);
    CloseChanges(L.Run(L.INITIAL, actions), steps);
  }

  lemma CloseChanges(s: L.State, steps: seq<L.Action>)
    requires L.Inv(s) && s.caller.Ready? && ReturnsAfter(L.CloseStep(s), steps)
    ensures Seen(L.Run(L.CloseStep(s), steps)) == F.UNUSED
  {
    L.CloseKeepsInv(s);
    L.RunKeepsInv(L.CloseStep(s), steps);
    ClosePath(L.CloseStep(s), steps);
    SeenAtRest(L.Run(L.CloseStep(s), steps));
  }
}
