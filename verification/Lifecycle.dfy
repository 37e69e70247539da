/**
 The life of a stratum connection: one controlling caller connects and closes, read loops dial
 again when the connection drops, and writers close a socket after repeated failures.

 The system is a state machine whose steps are the accesses to shared fields and channels; what is
 done under one holding of the lock is one step, so "after every step" includes "at every release of
 the lock".  The network is the `ok` of a step: a dial, a handshake or a read succeeds or fails.
 Read loops are kept in a list, so that having several of them is possible in the model.
 */
module Lifecycle {

  import opened Words

  /** Where a call of `dialAndHandshake` is. */
  datatype Dial =
    | Claim                  // compare-and-swap on `dialing`
    | MakeDone               // a new `dialDone`
    | Dialing
    | Handshake(sock: nat)   // subscribe and authorize on a socket nobody else knows
    | Publish(sock: nat)
    | Release(ok: bool)      // `dialing` back to 0
    | CloseDone(ok: bool)    // close `dialDone`
    | Await                  // somebody else is dialing
    | Look                   // and has finished
    | Finished(ok: bool)

  datatype Loop =
    | Top                    // test of stopCh
    | Fetch                  // take the reader, or find that there is none
    | Backoff                // the wait, which stopCh may end
    | Check                  // test of `dialing`
    | AwaitDial
    | Redial(dial: Dial)
    | Reading
    | Drop                   // a read failed
    | CleanUp                // the deferred function
    | SignalDone
    | Gone

  datatype Caller =
    | Ready
    | Connecting(dial: Dial)
    | Spawning
    | Waiting                // Close waits for readLoopDone
    | Resetting              // Close makes new channels

  /**
   `open` is the set of sockets not closed yet; `dialDone` is None before the first dial, and then
   tells whether the channel is closed; `failed` records that a dial of Connect failed.
   */
  datatype State = State(
    started: bool,
    conn: Option<nat>,
    reader: Option<nat>,
    connected: bool,
    stopClosed: bool,
    doneClosed: bool,
    dialing: bool,
    dialDone: Option<bool>,
    open: set<nat>,
    sockets: nat,
    caller: Caller,
    loops: seq<Loop>,
    failed: bool,
    panicked: bool)

  const INITIAL: State :=
    State(false, None, None, false, false, false, false, None, {}, 0, Ready, [], false, false)

  datatype Action =
    | Connect
    | Close
    | Call(ok: bool)             // the caller's next step
    | Work(loop: nat, ok: bool)  // the next step of a read loop
    | WriterCloses(sock: nat)    // a third failed write in a row

  /** The deferred close of the old connection and the three fields, cleared together. */
  function Disconnected(s: State): State {
    s.(conn := None, reader := None, connected := false,
       open := if s.conn.Some? then s.open - {s.conn.value} else s.open)
  }

  /** One step of `dialAndHandshake`, and where the call is afterwards. */
  function DialStep(s: State, d: Dial, ok: bool): (State, Dial) {
    match d
    case Claim => if s.dialing then (s, Await) else (s.(dialing := true), MakeDone)
    case MakeDone => (s.(dialDone := Some(false)), Dialing)
    case Dialing =>
      if ok then (s.(open := s.open + {s.sockets}, sockets := s.sockets + 1), Handshake(s.sockets)) else (s, Release(false))
    case Handshake(sock) =>
      if ok then (s, Publish(sock)) else (s.(open := s.open - {sock}), Release(false))
    case Publish(sock) =>
      (s.(conn := Some(sock), reader := Some(sock), connected := true,
          open := if s.conn.Some? then s.open - {s.conn.value} else s.open), Release(true))
    case Release(r) => (s.(dialing := false), CloseDone(r))
    case CloseDone(r) =>
      (if s.dialDone == Some(false) then s.(dialDone := Some(true)) else s.(panicked := true), Finished(r))
    case Await => if s.dialDone == Some(true) then (s, Look) else (s, Await)
    case Look => (s, Finished(s.conn.Some? && s.connected))
    case Finished(r) => (s, d)
  }

  /** One step of a read loop. */
  function LoopStep(s: State, l: Loop, ok: bool): (State, Loop) {
    match l
    case Top => if s.stopClosed then (s, CleanUp) else (s, Fetch)
    case Fetch => if s.reader.None? then (s, Backoff) else (s, Reading)
    case Backoff => if s.stopClosed && !ok then (s, CleanUp) else (s, Check)
    case Check => if s.dialing then (s, AwaitDial) else (s, Redial(Claim))
    case AwaitDial => if s.dialDone == Some(true) then (s, Top) else (s, AwaitDial)
    case Redial(d) =>
      if d.Finished? then (s, Top)
      else
        var (t, e) := DialStep(s, d, ok);
        (t, Redial(e))
    case Reading => if ok then (s, Top) else (s, Drop)
    case Drop => (Disconnected(s), Top)
    case CleanUp => (Disconnected(s), SignalDone)
    case SignalDone => (if s.doneClosed then s.(panicked := true) else s.(doneClosed := true), Gone)
    case Gone => (s, Gone)
  }

  function WorkStep(s: State, i: nat, ok: bool): State {
    if i >= |s.loops| then s
    else
      var (t, l) := LoopStep(s, s.loops[i], ok);
      t.(loops := s.loops[i := l])
  }

  function ConnectStep(s: State): State {
    if !s.caller.Ready? || s.started then s
    else s.(started := true, caller := Connecting(Claim))
  }

  function CloseStep(s: State): State {
    if !s.caller.Ready? then s
    else Disconnected(s).(stopClosed := true, caller := if s.started then Waiting else Resetting)
  }

  function CallStep(s: State, ok: bool): State {
    match s.caller
    case Ready => s
    case Connecting(d) =>
      if d.Finished? then s.(caller := if d.ok then Spawning else Ready, failed := s.failed || !d.ok)
      else
        var (t, e) := DialStep(s, d, ok);
        t.(caller := Connecting(e))
    case Spawning => s.(loops := s.loops + [Top], caller := Ready)
    case Waiting => if s.doneClosed then s.(caller := Resetting) else s
    case Resetting => s.(started := false, stopClosed := false, doneClosed := false, caller := Ready)
  }

  function Step(s: State, a: Action): State {
    match a
    case Connect => ConnectStep(s)
    case Close => CloseStep(s)
    case Call(ok) => CallStep(s, ok)
    case Work(i, ok) => WorkStep(s, i, ok)
    case WriterCloses(sock) => if sock < s.sockets then s.(open := s.open - {sock}) else s
  }

  function Run(s: State, actions: seq<Action>): State {
    if |actions| == 0 then s else Step(Run(s, actions[..|actions| - 1]), actions[|actions| - 1])
  }

  // ---- Invariant ----

  predicate Alive(s: State, i: nat) {
    i < |s.loops| && !s.loops[i].Gone?
  }

  /** The newest loop; loops before it are gone. */
  function Newest(s: State): Loop {
    if |s.loops| == 0 then Gone else s.loops[|s.loops| - 1]
  }

  /** The one call of `dialAndHandshake` that can be going on. */
  function Dialer(s: State): Dial {
    if s.caller.Connecting? then s.caller.dial
    else if Newest(s).Redial? then Newest(s).dial
    else Finished(false)
  }

  predicate Fields(s: State) {
    s.conn == s.reader && (s.connected <==> s.conn.Some?) && !s.panicked
  }

  /** Flags and channels follow the one dialer, which never waits for another. */
  predicate DialInv(s: State) {
    var d := Dialer(s);
    && (s.dialing <==> d.MakeDone? || d.Dialing? || d.Handshake? || d.Publish? || d.Release?)
    && (d.Dialing? || d.Handshake? || d.Publish? || d.Release? || d.CloseDone? ==> s.dialDone == Some(false))
    && !d.Await? && !d.Look?
  }

  /** The socket of a handshake in progress. */
  function Fresh(d: Dial): set<nat> {
    match d
    case Handshake(sock) => {sock}
    case Publish(sock) => {sock}
    case _ => {}
  }

  function Current(s: State): set<nat> {
    if s.conn.Some? then {s.conn.value} else {}
  }

  /** No socket is open that nobody would close. */
  predicate SocketInv(s: State) {
    && s.open <= Current(s) + Fresh(Dialer(s))
    && (forall sock :: sock in Current(s) + Fresh(Dialer(s)) ==> sock < s.sockets)
    && Current(s) * Fresh(Dialer(s)) == {}
  }

  predicate LoopsInv(s: State) {
    && (forall i :: 0 <= i < |s.loops| - 1 ==> s.loops[i].Gone?)
    && !Newest(s).AwaitDial?
    && (Newest(s).SignalDone? ==> s.conn.None?)
    && (Newest(s).CleanUp? || Newest(s).SignalDone? ==> s.stopClosed)
  }

  /** What the caller may rely on, depending on where it is. */
  predicate CallerInv(s: State) {
    var alive := !Newest(s).Gone?;
    match s.caller
    case Ready =>
      && !s.stopClosed && !s.doneClosed && (alive <==> s.started && !s.failed) && (s.failed ==> s.started)
      && (!alive ==> s.conn.None?)
    case Connecting(d) =>
      && s.started && !alive && !s.failed && !s.stopClosed && !s.doneClosed
      && (s.conn.Some? ==> d == Release(true) || d == CloseDone(true) || d == Finished(true))
    case Spawning => s.started && !alive && !s.failed && !s.stopClosed && !s.doneClosed
    case Waiting =>
      && s.started && s.stopClosed
      && (alive ==> !s.failed && !s.doneClosed)
      && (!alive ==> s.conn.None? && (s.doneClosed <==> !s.failed))
    case Resetting => !alive && s.conn.None? && !s.failed && s.stopClosed
  }

  ghost predicate Inv(s: State) {
    Fields(s) && DialInv(s) && SocketInv(s) && LoopsInv(s) && CallerInv(s)
  }

  lemma ConnectKeepsInv(s: State)
    requires Inv(s)
    ensures Inv(ConnectStep(s))
  {
  }

  lemma CloseKeepsInv(s: State)
    requires Inv(s)
    ensures Inv(CloseStep(s))
  {
  }

  lemma WriterKeepsInv(s: State, sock: nat)
    requires Inv(s)
    ensures Inv(Step(s, WriterCloses(sock)))
  {
  }

  lemma ConnectingKeepsInv(s: State, ok: bool)
    requires Inv(s) && s.caller.Connecting?
    ensures Inv(CallStep(s, ok))
  {
  }

  lemma CallKeepsInv(s: State, ok: bool)
    requires Inv(s)
    ensures Inv(CallStep(s, ok))
  {
    if s.caller.Connecting? {
      ConnectingKeepsInv(s, ok);
    } else if s.caller.Spawning? {
      assert (s.loops + [Top])[..|s.loops|] == s.loops;
    }
  }

  lemma OpeningKeepsInv(s: State, ok: bool)
    requires Inv(s) && Newest(s).Redial?
    requires var d := Newest(s).dial; d.Claim? || d.MakeDone? || d.Dialing? || d.Handshake?
    ensures Inv(WorkStep(s, |s.loops| - 1, ok))
  {
  }

  lemma DialingKeepsInv(s: State, ok: bool)
    requires Inv(s) && Newest(s).Redial?
    ensures Inv(WorkStep(s, |s.loops| - 1, ok))
  {
    var d := Newest(s).dial;
    if d.Claim? || d.MakeDone? || d.Dialing? || d.Handshake? {
      OpeningKeepsInv(s, ok);
    }
  }

  lemma LoopingKeepsInv(s: State, ok: bool)
    requires Inv(s) && |s.loops| > 0 && !Newest(s).Redial?
    ensures Inv(WorkStep(s, |s.loops| - 1, ok))
  {
  }

  lemma WorkKeepsInv(s: State, i: nat, ok: bool)
    requires Inv(s)
    ensures Inv(WorkStep(s, i, ok))
  {
    if i < |s.loops| - 1 {
      assert s.loops[i].Gone?;
      assert s.loops[i := Gone] == s.loops;
    } else if i == |s.loops| - 1 {
      if Newest(s).Redial? {
        DialingKeepsInv(s, ok);
      } else {
        LoopingKeepsInv(s, ok);
      }
    }
  }

  lemma StepKeepsInv(s: State, a: Action)
    requires Inv(s)
    ensures Inv(Step(s, a))
  {
    match a
    case Connect => ConnectKeepsInv(s);
    case Close => CloseKeepsInv(s);
    case Call(ok) => CallKeepsInv(s, ok);
    case Work(i, ok) => WorkKeepsInv(s, i, ok);
    case WriterCloses(sock) => WriterKeepsInv(s, sock);
  }

  lemma {:induction false} RunKeepsInv(s: State, actions: seq<Action>)
    requires Inv(s)
    ensures Inv(Run(s, actions))
  {
    if |actions| > 0 {
      RunKeepsInv(s, actions[..|actions| - 1]);
      StepKeepsInv(Run(s, actions[..|actions| - 1]), actions[|actions| - 1]);
    }
  }

  lemma Reached(actions: seq<Action>)
    ensures Inv(Run(INITIAL, actions))
  {
    assert Inv(INITIAL);
    RunKeepsInv(INITIAL, actions);
  }

  // ---- Safety ----

  /** One read loop at most, fields that agree, no channel closed twice, no waiting for another's dial, no leaked socket. */
  ghost predicate Safe(s: State) {
    && (forall i, j :: Alive(s, i) && Alive(s, j) ==> i == j)
    && s.conn == s.reader && (s.connected <==> s.conn.Some?)
    && !s.panicked
    && (forall i :: 0 <= i < |s.loops| ==> !s.loops[i].AwaitDial? && s.loops[i] != Redial(Await))
    && s.caller != Connecting(Await)
    && s.open <= Current(s) + Fresh(Dialer(s))
  }

  lemma InvIsSafe(s: State)
    requires Inv(s)
    ensures Safe(s)
  {
  }

  /** Over every run of Connect, drops, reconnects, write failures and Close. */
  lemma LifecycleIsSafe(actions: seq<Action>)
    ensures Safe(Run(INITIAL, actions))
  {
    Reached(actions);
    InvIsSafe(Run(INITIAL, actions));
  }

  /** A client with no loop, no connection, no open socket and fresh channels. */
  ghost predicate AsNew(s: State) {
    && (forall i :: !Alive(s, i))
    && s.conn.None? && s.reader.None? && !s.connected && s.open == {}
    && !s.started && !s.dialing && !s.stopClosed && !s.doneClosed
  }

  lemma ResettingEndsAsNew(s: State, ok: bool)
    requires Inv(s) && s.caller.Resetting?
    ensures CallStep(s, ok).caller.Ready? && AsNew(CallStep(s, ok))
  {
  }

  /** When Close returns the client is as new, even if the loop was in the middle of a handshake when Close was called. */
  lemma CloseLeavesNothing(actions: seq<Action>, ok: bool)
    requires Run(INITIAL, actions).caller.Resetting?
    ensures var s := CallStep(Run(INITIAL, actions), ok); s.caller.Ready? && AsNew(s)
  {
    Reached(actions);
    ResettingEndsAsNew(Run(INITIAL, actions), ok);
  }

  // ---- A failed first dial ----

  /** The method the health check relies on. */
  predicate IsAlive(s: State) {
    s.started && !s.stopClosed
  }

  lemma FailedIsDead(s: State)
    requires Inv(s) && s.caller.Ready?
    ensures s.failed ==> ConnectStep(s) == s && !s.connected && forall i :: !Alive(s, i)
    ensures !s.failed ==> (ConnectStep(s) == s <==> exists i :: Alive(s, i))
    ensures IsAlive(s) == s.started == (ConnectStep(s) == s)
  {
    if !Newest(s).Gone? {
      assert Alive(s, |s.loops| - 1);
    }
  }

  /**
   After a failed dial Connect does nothing and reports no error, though nothing is connected and
   no loop will change that.  Otherwise it does nothing exactly when a loop is alive.
   */
  lemma FailedConnectSticks(actions: seq<Action>)
    requires Run(INITIAL, actions).caller.Ready?
    ensures var s := Run(INITIAL, actions);
            if s.failed then ConnectStep(s) == s && !s.connected && forall i :: !Alive(s, i)
            else ConnectStep(s) == s <==> exists i :: Alive(s, i)
  {
    Reached(actions);
    FailedIsDead(Run(INITIAL, actions));
  }

  /** Between calls, `IsAlive` says that a loop is running exactly when no dial of Connect has failed. */
  lemma IsAliveIsRight(actions: seq<Action>)
    requires Run(INITIAL, actions).caller.Ready?
    ensures var s := Run(INITIAL, actions); (IsAlive(s) <==> exists i :: Alive(s, i)) <==> !s.failed
  {
    Reached(actions);
    FailedIsDead(Run(INITIAL, actions));
  }

  lemma StuckStep(s: State, a: Action)
    requires Inv(s) && s.caller.Waiting? && s.failed
    ensures Step(s, a).caller.Waiting? && Step(s, a).failed
  {
    if a.Work? && a.loop < |s.loops| {
      assert s.loops[a.loop].Gone?;
    }
  }

  lemma {:induction false} StuckForever(s: State, actions: seq<Action>)
    requires Inv(s) && s.caller.Waiting? && s.failed
    ensures Run(s, actions).caller.Waiting? && Run(s, actions).failed
  {
    if |actions| > 0 {
      StuckForever(s, actions[..|actions| - 1]);
      RunKeepsInv(s, actions[..|actions| - 1]);
      StuckStep(Run(s, actions[..|actions| - 1]), actions[|actions| - 1]);
    }
  }

  /** The steps left for the newest loop until it has signalled that it is done, without network failures helping. */
  function StepsLeft(l: Loop): nat {
    match l
    case Gone => 0
    case SignalDone => 1
    case CleanUp => 2
    case Top => 3
    case Reading => 4
    case Drop => 4
    case Backoff => 5
    case Fetch => 6
    case Redial(d) => 4 + DialStepsLeft(d)
    case AwaitDial => 4
    case Check => 14
  }

  function DialStepsLeft(d: Dial): nat {
    match d
    case Finished(_) => 0
    case CloseDone(_) => 1
    case Release(_) => 2
    case Publish(_) => 3
    case Handshake(_) => 4
    case Dialing => 5
    case MakeDone => 6
    case Claim => 7
    case Look => 1
    case Await => 2
  }

  /** The outcome that brings the loop nearer to its end. */
  function Choice(l: Loop): bool {
    l.Reading?
  }

  lemma LoopComesNearer(s: State)
    requires Inv(s) && s.stopClosed && !Newest(s).Gone?
    ensures var t := WorkStep(s, |s.loops| - 1, Choice(Newest(s)));
            StepsLeft(Newest(t)) < StepsLeft(Newest(s)) && t.caller == s.caller && t.failed == s.failed
  {
  }

  lemma {:induction false} RunCons(s: State, a: Action, more: seq<Action>)
    ensures Run(s, [a] + more) == Run(Step(s, a), more)
  {
    var all := [a] + more;
    if |more| == 0 {
      assert all[..0] == [];
      assert Run(s, all[..0]) == s;
    } else {
      assert all[..|all| - 1] == [a] + more[..|more| - 1];
      RunCons(s, a, more[..|more| - 1]);
    }
  }

  lemma {:induction false} LoopCanEnd(s: State) returns (more: seq<Action>)
    requires Inv(s) && s.caller.Waiting? && !s.failed
    ensures Run(s, more).caller.Ready?
    decreases StepsLeft(Newest(s))
  {
    if Newest(s).Gone? {
      more := [Call(true), Call(true)];
      RunCons(s, Call(true), [Call(true)]);
      RunCons(Step(s, Call(true)), Call(true), []);
      assert [Call(true)] + [Call(true)] == more && [Call(true)] + [] == [Call(true)];
    } else {
      var a := Work(|s.loops| - 1, Choice(Newest(s)));
      StepKeepsInv(s, a);
      LoopComesNearer(s);
      var rest := LoopCanEnd(Step(s, a));
      RunCons(s, a, rest);
      more := [a] + rest;
    }
  }

  /**
   A Close that waits can return exactly when no dial of Connect has failed: a loop in any place,
   also in the middle of a handshake, has a way to its end, and where there is no loop nothing ever
   closes the channel Close waits for.
   */
  lemma CloseReturnsUnlessDialFailed(before: seq<Action>)
    requires Run(INITIAL, before).caller.Waiting?
    ensures (exists more :: Run(Run(INITIAL, before), more).caller.Ready?) <==> !Run(INITIAL, before).failed
  {
    Reached(before);
    var s := Run(INITIAL, before);
    if s.failed {
      forall more
        ensures !Run(s, more).caller.Ready?
      {
        StuckForever(s, more);
      }
    } else {
      var more := LoopCanEnd(s);
    }
  }

  /** A first dial that fails: the network refuses, and the caller gets an error. */
  const REFUSED: seq<Action> := [Connect, Call(true), Call(true), Call(false), Call(true), Call(true), Call(true)]

  lemma RunSnoc(s: State, actions: seq<Action>, k: nat)
    requires k < |actions|
    ensures Run(s, actions[..k + 1]) == Step(Run(s, actions[..k]), actions[k])
  {
    assert actions[..k + 1][..k] == actions[..k];
  }

  lemma DialStarts(s: State)
    requires s.caller.Ready? && !s.started && !s.dialing
    ensures Run(s, REFUSED[..3])
         == s.(started := true, dialing := true, dialDone := Some(false), caller := Connecting(Dialing))
  {
    RunSnoc(s, REFUSED, 0);
    RunSnoc(s, REFUSED, 1);
    RunSnoc(s, REFUSED, 2);
  }

  lemma DialReleases(s: State, t: State)
    requires t.caller == Connecting(Dialing) && Run(s, REFUSED[..3]) == t
    ensures Run(s, REFUSED[..5]) == t.(dialing := false, caller := Connecting(CloseDone(false)))
  {
    RunSnoc(s, REFUSED, 3);
    RunSnoc(s, REFUSED, 4);
  }

  lemma DialFails(s: State, t: State)
    requires t.caller == Connecting(CloseDone(false)) && t.dialDone == Some(false) && Run(s, REFUSED[..5]) == t
    ensures Run(s, REFUSED) == t.(dialDone := Some(true), caller := Ready, failed := true)
  {
    RunSnoc(s, REFUSED, 5);
    RunSnoc(s, REFUSED, 6);
    assert REFUSED[..7] == REFUSED;
  }

  /** The failing state is reached: Connect fails, IsAlive is wrong, and a Close from there waits for ever. */
  lemma RefusedConnectIsReached(later: seq<Action>)
    ensures var s := Run(INITIAL, REFUSED);
            && s.caller.Ready? && s.failed && ConnectStep(s) == s && !s.connected
            && IsAlive(s) && (forall i :: !Alive(s, i))
            && Run(CloseStep(s), later).caller.Waiting?
  {
    var s := Run(INITIAL, REFUSED);
    DialStarts(INITIAL);
    DialReleases(INITIAL, Run(INITIAL, REFUSED[..3]));
    DialFails(INITIAL, Run(INITIAL, REFUSED[..5]));
    Reached(REFUSED);
    FailedIsDead(s);
    CloseKeepsInv(s);
    StuckForever(CloseStep(s), later);
  }

  /** A dial and a handshake that succeed. */
  const ANSWERED: seq<Action> := [Connect, Call(true), Call(true), Call(true), Call(true), Call(true), Call(true), Call(true),
                                  Call(true), Call(true)]

  lemma AnsweredSnoc(s: State, k: nat)
    requires k < |ANSWERED|
    ensures Run(s, ANSWERED[..k + 1]) == Step(Run(s, ANSWERED[..k]), ANSWERED[k])
  {
    RunSnoc(s, ANSWERED, k);
  }

  lemma AnsweredStarts(s: State)
    requires s.caller.Ready? && !s.started && !s.dialing
    ensures Run(s, ANSWERED[..3])
         == s.(started := true, dialing := true, dialDone := Some(false), caller := Connecting(Dialing))
  {
    AnsweredSnoc(s, 0);
    AnsweredSnoc(s, 1);
    AnsweredSnoc(s, 2);
  }

  lemma AnsweredShakesHands(s: State, t: State)
    requires Run(s, ANSWERED[..3]) == t && t.caller == Connecting(Dialing)
    ensures Run(s, ANSWERED[..5])
         == t.(open := t.open + {t.sockets}, sockets := t.sockets + 1, caller := Connecting(Publish(t.sockets)))
  {
    AnsweredSnoc(s, 3);
    AnsweredSnoc(s, 4);
  }

  lemma AnsweredPublishes(s: State, t: State, sock: nat)
    requires Run(s, ANSWERED[..5]) == t && t.caller == Connecting(Publish(sock)) && t.conn.None?
    ensures Run(s, ANSWERED[..6])
         == t.(conn := Some(sock), reader := Some(sock), connected := true, caller := Connecting(Release(true)))
  {
    AnsweredSnoc(s, 5);
  }

  lemma AnsweredReleases(s: State, t: State)
    requires Run(s, ANSWERED[..6]) == t && t.caller == Connecting(Release(true))
    ensures Run(s, ANSWERED[..7]) == t.(dialing := false, caller := Connecting(CloseDone(true)))
  {
    AnsweredSnoc(s, 6);
  }

  lemma AnsweredSignals(s: State, t: State)
    requires Run(s, ANSWERED[..7]) == t && t.caller == Connecting(CloseDone(true)) && t.dialDone == Some(false)
    ensures Run(s, ANSWERED[..8]) == t.(dialDone := Some(true), caller := Connecting(Finished(true)))
  {
    AnsweredSnoc(s, 7);
  }

  lemma AnsweredSpawns(s: State, t: State)
    requires Run(s, ANSWERED[..8]) == t && t.caller == Connecting(Finished(true))
    ensures Run(s, ANSWERED) == t.(caller := Ready, loops := t.loops + [Top])
  {
    AnsweredSnoc(s, 8);
    AnsweredSnoc(s, 9);
    assert ANSWERED[..10] == ANSWERED;
  }

  /** When the network answers, Connect leaves a client that is connected on an open socket, with a loop that reads it. */
  lemma AnsweredConnectSucceeds(s: State)
    requires AsNew(s) && s.caller.Ready? && !s.failed
    ensures var t := Run(s, ANSWERED);
            && t.caller.Ready? && t.started && !t.failed && t.connected
            && t.conn == Some(s.sockets) && t.reader == Some(s.sockets) && s.sockets in t.open
            && Alive(t, |s.loops|) && t.loops[|s.loops|] == Top
  {
    AnsweredStarts(s);
    AnsweredShakesHands(s, Run(s, ANSWERED[..3]));
    AnsweredPublishes(s, Run(s, ANSWERED[..5]), s.sockets);
    AnsweredReleases(s, Run(s, ANSWERED[..6]));
    AnsweredSignals(s, Run(s, ANSWERED[..7]));
    AnsweredSpawns(s, Run(s, ANSWERED[..8]));
  }
}
