/** The development server's reload supervisor as an object: the
    module-level `child` becomes a field, and each event handler a method
    that updates it in place. Every method is proved against the step
    function of module Supervision and keeps its invariant. */
module DevServer {
  import Command
  import opened Supervision

  class Supervisor {
    /** The supervisor's own command line, `process.argv`. */
    const argv: seq<string>
    var child: Option<Child>
    var pendingTimers: nat
    var forks: nat
    var requests: seq<Request>
    /** The children the operating system still runs. */
    ghost var live: set<nat>

    ghost function Abs(): State
      reads this
    {
      State(child, pendingTimers, forks, live, requests)
    }

    ghost predicate Valid()
      reads this
    {
      Inv(Abs())
    }

    /** Module initialisation: `child` starts null, then the initial
      `startChild()` forks the first child. */
    constructor (argv: seq<string>)
      ensures Valid() && this.argv == argv
      ensures Abs() == Initial(argv)
      ensures child == Some(Child(0, false)) && requests == [Fork(0, ChildArgs(argv))]
    {
      this.argv := argv;
      child := None;
      pendingTimers := 0;
      forks := 0;
      requests := [];
      live := {};
      new;
      InitialForksOnce(argv);
      StartChild(false);
    }

    /** `startChild(restarting)`; `restarting` only chooses a log line. */
    method StartChild(restarting: bool)
      requires Valid()
      modifies this
      ensures Valid()
      ensures Abs() == StartChildStep(old(Abs()), argv)
    {
      StartChildCases(Abs(), argv);
      if child.Some? {
        var c := child.value;
        child := Some(c.(restart := true));
        requests := requests + [Kill(c.id)];
        return;
      }
      var id := forks;
      child := Some(Child(id, false));
      forks := forks + 1;
      live := live + {id};
      requests := requests + [Fork(id, ChildArgs(argv))];
    }

    /** The handler for a chunk of standard input. */
    method OnInput(data: string)
      requires Valid()
      modifies this
      ensures Valid()
      ensures Abs() == InputStep(old(Abs()), argv, data)
    {
      var s := Command.ToLower(Command.Trim(data));
      if s == "r" || s == "reload" || s == "hup" {
        StartChild(false);
      }
    }

    /** The SIGTSTP handler. */
    method OnSigtstp()
      requires Valid()
      modifies this
      ensures Valid()
      ensures Abs() == SigtstpStep(old(Abs()), argv)
    {
      StartChild(false);
    }

    /** The exit handler of child `pid`. It consults the field `child`, which
      ExitIsOfCurrentChild shows to be `pid` itself. */
    method OnExit(pid: nat)
      requires Valid() && pid in live
      modifies this
      ensures Valid()
      ensures Abs() == ExitStep(old(Abs()), pid)
    {
      ExitIsOfCurrentChild(Abs(), pid);
      ExitCases(Abs(), pid);
      if child.value.restart {
        pendingTimers := pendingTimers + 1;
        requests := requests + [ScheduleRestart(RestartDelayMs)];
      }
      child := None;
      live := live - {pid};
    }

    /** A pending restart timer fires: `startChild(true)`. */
    method OnTimer()
      requires Valid() && pendingTimers > 0
      modifies this
      ensures Valid()
      ensures Abs() == TimerStep(old(Abs()), argv)
    {
      pendingTimers := pendingTimers - 1;
      StartChild(true);
    }
  }
}
