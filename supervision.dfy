/** The reload supervisor of the development server as a state machine:
    one value of `State` per moment between two events, and one function per
    event handler. Node runs each handler to completion, so every event is a
    single step from one state to the next. */
module Supervision {
  import Command

  datatype Option<T> = None | Some(value: T)

  /** Delay, in milliseconds, between a requested child's exit and the
      delayed `startChild(true)`. */
  const RestartDelayMs: nat := 200

  /** The handle of a forked child: its process number in fork order and the
      `restart` flag the supervisor sets on it before killing it. */
  datatype Child = Child(id: nat, restart: bool)

  /** What the supervisor asks of the operating system. A kill is a request:
      the child stays alive until its exit event arrives. */
  datatype Request =
    | Fork(id: nat, args: seq<string>)
    | Kill(id: nat)
    | ScheduleRestart(delayMs: nat)

  /** `child` is the module-level variable; `pendingTimers` counts the
      delayed `startChild(true)` calls not yet run; `forks` counts the
      forks so far (and numbers the next child); `live` is the set of forked
      children that have not exited yet, which the operating system knows
      and the supervisor does not; `requests` is every request in order. */
  datatype State = State(
    child: Option<Child>,
    pendingTimers: nat,
    forks: nat,
    live: set<nat>,
    requests: seq<Request>)

  /** The events that drive the supervisor. */
  datatype Event =
    | Input(data: string)
    | Sigtstp
    | Exit(pid: nat)
    | TimerFired

  /** `process.argv.slice(2)`: the arguments after the interpreter and the
      script, passed through to every child. */
  function ChildArgs(argv: seq<string>): (r: seq<string>)
    ensures |r| == if |argv| <= 2 then 0 else |argv| - 2
    ensures forall i :: 0 <= i < |r| ==> r[i] == argv[i + 2]
  {
    if |argv| <= 2 then [] else argv[2..]
  }

  /** The state before the initial `startChild()`. */
  const Idle: State := State(None, 0, 0, {}, [])

  /** `startChild`: with a current child, mark it for restart and kill it;
      without one, fork a new child and make it current. */
  function StartChildStep(s: State, argv: seq<string>): (r: State)
    ensures r.child.Some? && r.pendingTimers == s.pendingTimers
    ensures |r.requests| == |s.requests| + 1 && s.requests <= r.requests
  {
    match s.child
    case Some(c) =>
      s.(child := Some(c.(restart := true)), requests := s.requests + [Kill(c.id)])
    case None =>
      s.(child := Some(Child(s.forks, false)), forks := s.forks + 1,
         live := s.live + {s.forks},
         requests := s.requests + [Fork(s.forks, ChildArgs(argv))])
  }

  /** The exit handler registered on a child. It reads the module-level
      `child`, not the process that exited, so it needs a current child to
      dereference; `pid` is the process the operating system reports gone. */
  function ExitStep(s: State, pid: nat): (r: State)
    requires s.child.Some?
    ensures r.child.None? && pid !in r.live && r.forks == s.forks
    ensures s.requests <= r.requests && |r.requests| <= |s.requests| + 1
  {
    var restart := s.child.value.restart;
    s.(child := None, live := s.live - {pid},
       pendingTimers := if restart then s.pendingTimers + 1 else s.pendingTimers,
       requests := if restart then s.requests + [ScheduleRestart(RestartDelayMs)]
                   else s.requests)
  }

  /** One pending timer fires and runs `startChild(true)`. */
  function TimerStep(s: State, argv: seq<string>): (r: State)
    requires s.pendingTimers > 0
    ensures r.pendingTimers == s.pendingTimers - 1 && r.child.Some?
  {
    StartChildStep(s.(pendingTimers := s.pendingTimers - 1), argv)
  }

  /** The standard-input handler: only a reload command starts the child. */
  function InputStep(s: State, argv: seq<string>, data: string): (r: State)
    ensures r.pendingTimers == s.pendingTimers
    ensures r == s || (r.child.Some? && |r.requests| == |s.requests| + 1)
  {
    if Command.IsReloadCommand(data) then StartChildStep(s, argv) else s
  }

  /** The SIGTSTP handler. */
  function SigtstpStep(s: State, argv: seq<string>): (r: State)
    ensures r.child.Some? && r.child.value.restart == s.child.Some?
    ensures r.pendingTimers == s.pendingTimers
  {
    StartChildStep(s, argv)
  }

  /** The state after the initial `startChild()`. */
  function Initial(argv: seq<string>): (r: State)
    ensures r.child == Some(Child(0, false)) && r.live == {0}
    ensures r.pendingTimers == 0 && r.forks == 1
  {
    StartChildStep(Idle, argv)
  }

  /** One event, or None when the event cannot happen in `s`: the operating
      system reports only live children as exited, and a timer fires only if
      one is pending. An exit while `child` is null would make the handler
      throw; ExitIsOfCurrentChild shows that it never happens. */
  function Apply(s: State, argv: seq<string>, e: Event): (r: Option<State>)
    ensures r.None? <==> (e.Exit? && (e.pid !in s.live || s.child.None?))
                         || (e.TimerFired? && s.pendingTimers == 0)
    ensures r.Some? ==> r.value.forks >= s.forks && s.requests <= r.value.requests
  {
    match e
    case Input(data) => Some(InputStep(s, argv, data))
    case Sigtstp => Some(SigtstpStep(s, argv))
    case Exit(pid) =>
      if pid in s.live && s.child.Some? then Some(ExitStep(s, pid)) else None
    case TimerFired =>
      if s.pendingTimers > 0 then Some(TimerStep(s, argv)) else None
  }

  /** The state after startup and then `events`, or None if one of them
      could not happen. */
  function Run(argv: seq<string>, events: seq<Event>): (r: Option<State>)
    ensures r.Some? ==> r.value.forks >= 1 && |r.value.requests| >= 1
    decreases |events|
  {
    if events == [] then Some(Initial(argv))
    else match Run(argv, events[..|events| - 1])
      case None => None
      case Some(s) => Apply(s, argv, events[|events| - 1])
  }

  /** Number of fork requests in `rs`. */
  function ForkCount(rs: seq<Request>): nat
    decreases |rs|
  {
    if rs == [] then 0
    else ForkCount(rs[..|rs| - 1]) + (if rs[|rs| - 1].Fork? then 1 else 0)
  }

  /** The supervisor's invariant: the live children are exactly the current
      one, if any (so there is never more than one), the current child was
      forked, and the fork counter counts the fork requests. */
  ghost predicate Inv(s: State) {
    (match s.child
     case None => s.live == {}
     case Some(c) => s.live == {c.id} && c.id < s.forks)
    && s.forks == ForkCount(s.requests)
  }

  lemma ForkCountAppend(rs: seq<Request>, r: Request)
    ensures ForkCount(rs + [r]) == ForkCount(rs) + (if r.Fork? then 1 else 0)
  {
    assert (rs + [r])[..|rs|] == rs;
  }

  /** Under the invariant no more than one child is alive. */
  lemma AtMostOneLive(s: State)
    requires Inv(s)
    ensures |s.live| <= 1
  {
  }

  /** Startup forks child 0 with the pass-through arguments and keeps the
      invariant. */
  lemma InitialForksOnce(argv: seq<string>)
    ensures Inv(Initial(argv))
    ensures Initial(argv).child == Some(Child(0, false))
    ensures Initial(argv).requests == [Fork(0, ChildArgs(argv))]
  {
    assert ForkCount([Fork(0, ChildArgs(argv))]) == 1 by {
      ForkCountAppend([], Fork(0, ChildArgs(argv)));
    }
  }

  /** A trigger with a current child forks nothing: it marks that child for
      restart and asks to kill it. A trigger without one forks exactly one
      child, with the pass-through arguments, and makes it current. Either
      way the invariant is kept. */
  lemma StartChildCases(s: State, argv: seq<string>)
    requires Inv(s)
    ensures var t := StartChildStep(s, argv);
      Inv(t) && t.pendingTimers == s.pendingTimers
      && (s.child.Some? ==>
            t.child == Some(s.child.value.(restart := true)) && t.forks == s.forks
            && t.live == s.live && t.requests == s.requests + [Kill(s.child.value.id)])
      && (s.child.None? ==>
            t.child == Some(Child(s.forks, false)) && t.forks == s.forks + 1
            && t.live == {s.forks}
            && t.requests == s.requests + [Fork(s.forks, ChildArgs(argv))])
  {
    var t := StartChildStep(s, argv);
    ForkCountAppend(s.requests, t.requests[|t.requests| - 1]);
    assert t.requests == s.requests + [t.requests[|t.requests| - 1]];
  }

  /** The exit handler always clears `child`; it schedules exactly one
      delayed restart when the exited child was marked, and nothing
      otherwise. It keeps the invariant and leaves no child alive. */
  lemma ExitCases(s: State, pid: nat)
    requires Inv(s) && pid in s.live
    ensures s.child.Some?
    ensures var t := ExitStep(s, pid);
      Inv(t) && t.child.None? && t.live == {} && t.forks == s.forks
      && (s.child.value.restart ==>
            t.pendingTimers == s.pendingTimers + 1
            && t.requests == s.requests + [ScheduleRestart(RestartDelayMs)])
      && (!s.child.value.restart ==>
            t.pendingTimers == s.pendingTimers && t.requests == s.requests)
  {
    var t := ExitStep(s, pid);
    if s.child.value.restart {
      ForkCountAppend(s.requests, ScheduleRestart(RestartDelayMs));
    }
  }

  /** The exit handler reads the module-level `child` rather than the handle
      it was registered on; under the invariant the two are the same
      process, so the handler always inspects the child that exited. */
  lemma ExitIsOfCurrentChild(s: State, pid: nat)
    requires Inv(s) && pid in s.live
    ensures s.child.Some? && s.child.value.id == pid
  {
  }

  /** Every event that can happen keeps the invariant. */
  lemma ApplyKeepsInv(s: State, argv: seq<string>, e: Event)
    requires Inv(s)
    ensures Apply(s, argv, e).Some? ==> Inv(Apply(s, argv, e).value)
  {
    match e
    case Input(data) => StartChildCases(s, argv);
    case Sigtstp => StartChildCases(s, argv);
    case Exit(pid) => if pid in s.live { ExitCases(s, pid); }
    case TimerFired =>
      if s.pendingTimers > 0 {
        StartChildCases(s.(pendingTimers := s.pendingTimers - 1), argv);
      }
  }

  /** At most one child at any time: every state reachable from startup
      satisfies the invariant, whatever the events. */
  lemma {:induction false} RunKeepsInv(argv: seq<string>, events: seq<Event>)
    ensures Run(argv, events).Some? ==> Inv(Run(argv, events).value)
    ensures Run(argv, events).Some? ==> |Run(argv, events).value.live| <= 1
    decreases |events|
  {
    if events == [] {
      InitialForksOnce(argv);
    } else {
      var prefix := events[..|events| - 1];
      RunKeepsInv(argv, prefix);
      if Run(argv, prefix).Some? {
        ApplyKeepsInv(Run(argv, prefix).value, argv, events[|events| - 1]);
      }
    }
    if Run(argv, events).Some? {
      AtMostOneLive(Run(argv, events).value);
    }
  }

  /** Forks happen only when `child` is null, one at a time, and `child` is
      cleared only by the exit of the current child. */
  lemma ForkOnlyWhenIdle(s: State, argv: seq<string>, e: Event)
    requires Inv(s) && Apply(s, argv, e).Some?
    ensures var t := Apply(s, argv, e).value;
      (t.forks != s.forks ==>
         s.child.None? && t.forks == s.forks + 1
         && t.requests == s.requests + [Fork(s.forks, ChildArgs(argv))])
      && (s.child.Some? && t.child.None? ==> e == Exit(s.child.value.id))
  {
    match e
    case Input(data) => StartChildCases(s, argv);
    case Sigtstp => StartChildCases(s, argv);
    case Exit(pid) => ExitCases(s, pid);
    case TimerFired => StartChildCases(s.(pendingTimers := s.pendingTimers - 1), argv);
  }

  /** `n` reload triggers in a row. */
  function Triggers(s: State, argv: seq<string>, n: nat): State
    decreases n
  {
    if n == 0 then s else StartChildStep(Triggers(s, argv, n - 1), argv)
  }

  /** `n` kill requests for child `id`. */
  function Kills(id: nat, n: nat): seq<Request>
    decreases n
  {
    if n == 0 then [] else Kills(id, n - 1) + [Kill(id)]
  }

  /** Repeated triggers against the same live child are idempotent: the
      flag is set, not counted, nothing is forked, and the only trace of the
      repetition is one more kill request each time. */
  lemma {:induction false} RepeatedTriggers(s: State, argv: seq<string>, n: nat)
    requires s.child.Some? && n > 0
    ensures var t := Triggers(s, argv, n);
      t.child == Some(s.child.value.(restart := true))
      && t.forks == s.forks && t.live == s.live && t.pendingTimers == s.pendingTimers
      && t.requests == s.requests + Kills(s.child.value.id, n)
    decreases n
  {
    if n > 1 {
      RepeatedTriggers(s, argv, n - 1);
    }
  }

  /** Two triggers in quick succession against a running child, then its
      exit and the timer: exactly one respawn, never two. */
  lemma DoubleTriggerOneRespawn(s: State, argv: seq<string>)
    requires Inv(s) && s.child.Some?
    ensures var c := s.child.value;
      var t := SigtstpStep(SigtstpStep(s, argv), argv);
      var u := ExitStep(t, c.id);
      var v := TimerStep(u, argv);
      u.pendingTimers == s.pendingTimers + 1
      && u.requests == s.requests + [Kill(c.id), Kill(c.id), ScheduleRestart(RestartDelayMs)]
      && v.child == Some(Child(s.forks, false)) && v.forks == s.forks + 1
      && v.live == {s.forks} && v.pendingTimers == s.pendingTimers
  {
    var c := s.child.value;
    var t := SigtstpStep(SigtstpStep(s, argv), argv);
    assert t.requests == s.requests + [Kill(c.id), Kill(c.id)];
  }

  /** A child that exits on its own schedules no timer, so when no restart
      timer is pending the supervisor stays idle until a trigger. A timer
      left over from an earlier requested exit still fires, though: see
      CrashInWindowRespawned. */
  lemma UnrequestedExitStaysIdle(s: State, argv: seq<string>, pid: nat)
    requires Inv(s) && pid in s.live && s.pendingTimers == 0
    requires !s.child.value.restart
    ensures var t := ExitStep(s, pid);
      t.child.None? && t.live == {} && t.pendingTimers == 0
      && t.requests == s.requests
      && Apply(t, argv, TimerFired).None?
      && (forall q :: Apply(t, argv, Exit(q)).None?)
  {
  }

  /** A trigger in the window after a requested exit forks at once; the
      pending timer then finds that new child, marks it and kills it rather
      than forking a second one. When that child exits in turn, a new timer
      respawns it: one extra kill/respawn cycle, never two children. */
  lemma TriggerDuringRestartWindow(s: State, argv: seq<string>)
    requires Inv(s) && s.child.None? && s.pendingTimers > 0
    ensures var t := TimerStep(SigtstpStep(s, argv), argv);
      t.child == Some(Child(s.forks, true)) && t.forks == s.forks + 1
      && t.live == {s.forks} && t.pendingTimers == s.pendingTimers - 1
      && t.requests == s.requests + [Fork(s.forks, ChildArgs(argv)), Kill(s.forks)]
    ensures var t := TimerStep(SigtstpStep(s, argv), argv);
      var v := TimerStep(ExitStep(t, s.forks), argv);
      v.child == Some(Child(s.forks + 1, false)) && v.forks == s.forks + 2
      && v.live == {s.forks + 1} && v.pendingTimers == s.pendingTimers - 1
  {
  }

  /** A trigger in the window after a requested exit forks child `s.forks`;
      if that child then exits on its own, its exit schedules nothing, but
      the timer still pending from the earlier exit finds `child` null and
      forks a fresh child: an unrequested exit in that window is respawned. */
  lemma CrashInWindowRespawned(s: State, argv: seq<string>)
    requires Inv(s) && s.child.None? && s.pendingTimers > 0
    ensures var t := SigtstpStep(s, argv);
      var u := ExitStep(t, s.forks);
      var v := TimerStep(u, argv);
      t.child == Some(Child(s.forks, false))
      && u.child.None? && u.pendingTimers == s.pendingTimers
      && v.child == Some(Child(s.forks + 1, false)) && v.forks == s.forks + 2
      && v.live == {s.forks + 1} && v.pendingTimers == s.pendingTimers - 1
      && v.requests == s.requests
           + [Fork(s.forks, ChildArgs(argv)), Fork(s.forks + 1, ChildArgs(argv))]
  {
  }

  /** Restarts are not coalesced: a trigger in the window after a requested
      exit, then another trigger and that child's exit, leave two restart
      timers pending at once. */
  lemma {:induction false} TwoTimersPending(argv: seq<string>)
    ensures var events := [Sigtstp, Exit(0), Sigtstp, Sigtstp, Exit(1)];
      Run(argv, events).Some? && Run(argv, events).value.pendingTimers == 2
      && Run(argv, events).value.child.None?
  {
    var events := [Sigtstp, Exit(0), Sigtstp, Sigtstp, Exit(1)];
    assert events[..0] == [];
    assert events[..1][..0] == [];
    assert events[..2][..1] == events[..1];
    assert events[..3][..2] == events[..2];
    assert events[..4][..3] == events[..3];
    assert events[..5] == events && events[..4] == events[..5][..4];
    var s0 := Initial(argv);
    assert Run(argv, events[..0]) == Some(s0);
    var s1 := SigtstpStep(s0, argv);
    assert Run(argv, events[..1]) == Some(s1);
    assert s1.child == Some(Child(0, true)) && s1.live == {0};
    var s2 := ExitStep(s1, 0);
    assert Run(argv, events[..2]) == Some(s2);
    assert s2.child.None? && s2.pendingTimers == 1;
    var s3 := SigtstpStep(s2, argv);
    assert Run(argv, events[..3]) == Some(s3);
    assert s3.child == Some(Child(1, false)) && s3.live == {1};
    var s4 := SigtstpStep(s3, argv);
    assert Run(argv, events[..4]) == Some(s4);
    assert s4.child == Some(Child(1, true)) && s4.live == {1};
    var s5 := ExitStep(s4, 1);
    assert Run(argv, events) == Some(s5);
  }

  /** SIGTSTP acts exactly like a typed reload command, and any other input
      leaves the state unchanged. */
  lemma SigtstpIsReload(s: State, argv: seq<string>, data: string)
    ensures Command.IsReloadCommand(data) ==> InputStep(s, argv, data) == SigtstpStep(s, argv)
    ensures !Command.IsReloadCommand(data) ==> InputStep(s, argv, data) == s
  {
  }
}
