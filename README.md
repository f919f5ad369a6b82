# Reload supervisor of `node-dev-server`

`bin/node-dev-server.js` runs the HTTP server (`bin/node-server.js`) as a
forked child process and restarts it on demand. Its behaviour rests on a
single module-level variable, `child`. It holds either `null` or the handle
of the running child, and that handle carries a mutable `restart` flag.
Four kinds of event drive it:

- a **reload trigger**: a chunk of standard input that trims and lower-cases to `r`,
  `reload` or `hup`, or a SIGTSTP signal. If there is a current child, the trigger marks
  it for restart and kills it. If there is none, it forks a new one with the
  supervisor's arguments after the script name.
- a **child exit**: the handler reads the module-level `child`. If its flag is set, it
  schedules a delayed `startChild(true)` after 200 ms. In every case it then clears `child`.
- a **timer fire**: the delayed `startChild(true)`.
- **startup**: one initial `startChild()`.

The model has three modules.

- `Command` (`command.dfy`) is the input classifier. `Trim` is JavaScript's
  `String.prototype.trim` over the full ECMAScript set of white-space and
  line-terminator code points. `ToLower` folds ASCII case. `IsReloadCommand`
  is the `switch` at lines 41–49. It is proved equal to an independent
  definition: a reload word, in any case, padded only with trimmable characters.
- `Supervision` (`supervision.dfy`) models the supervisor as a state machine
  over values. `State` holds:
  - the `child` variable;
  - the number of pending restart timers;
  - the fork counter;
  - the set of children the operating system still runs;
  - the log of requests made to the operating system (fork, kill, schedule restart).

  It has one step function per handler, an event-driven `Run` from startup,
  and the invariant `Inv`: the live children are exactly the current child,
  if any. The lemmas prove the following:
  - the invariant holds in every reachable state, so at most one child is alive;
  - the exit handler always inspects the child that exited, although it reads the
    module-level variable and not the handle it was registered on;
  - repeated triggers only repeat kill requests;
  - a child that exits on its own is not respawned when no restart timer is
    pending, but is respawned by a timer still pending from an earlier
    requested exit;
  - the restart-window race behaves as the code dictates.
- `DevServer` (`dev_server.dfy`) is the imperative model. The class
  `Supervisor` holds the module-level state as fields, and its methods are
  the handlers. Each method is proved to keep the invariant and to move the
  object's abstract state exactly as the corresponding step function does.

Three behaviours of the code are worth knowing, and the model reproduces all three:

- **A trigger in the 200 ms window after a requested exit forks at once,
  because `child` is already `null`.** When the timer then fires,
  `startChild(true)` finds that new child. It marks the child and kills it
  rather than forking a second one. The invariant holds, but one extra
  kill/respawn cycle follows (`TriggerDuringRestartWindow`).
- **A child that exits on its own in that window is respawned anyway.** Its
  own exit schedules nothing, but the timer still pending from the earlier
  requested exit then finds `child` null and forks a fresh child
  (`CrashInWindowRespawned`).
- **Restarts are not coalesced into a single pending timer.** One might
  expect at most one scheduled restart. In the code, a trigger in that window
  followed by another trigger and an exit leaves two timers pending at once:
  SIGTSTP, the exit of child 0, SIGTSTP twice and the exit of child 1 reach
  two pending timers from startup (`TwoTimersPending`). The model therefore counts pending timers rather than
  keeping a flag. The code is followed here.

The in-place update `child.restart = true` becomes a reassignment of the
`child` field with the flag set. The module variable is the only reference to
the handle: the exit callback reads the module variable and captures nothing.
So nothing else can observe the difference.

## Model

| member | source | states |
|---|---|---|
| `Command.IsTrimmable` | bin/node-dev-server.js:40 | the characters `trim` removes; none of them is an ASCII letter or digit |
| `Command.LowerChar` | bin/node-dev-server.js:40 | an upper-case ASCII letter becomes its lower-case letter, 32 code points on; every other character is unchanged |
| `Command.ToLower` | bin/node-dev-server.js:40 | lower-casing keeps the length, maps each character on its own, and leaves no upper-case ASCII letter |
| `Command.IsReloadCommand` | bin/node-dev-server.js:40-49 | a chunk is accepted only if its trimmed text has between one and six characters (the full characterisation is `IsReloadCommandIff`) |
| `Command.BareWordsAccepted` | bin/node-dev-server.js:41-45 | the words `r`, `reload` and `hup` typed as they are survive trimming and lower-casing unchanged and are accepted |
| `Command.SkipLeading` | bin/node-dev-server.js:40 | the position where trimming starts: everything before it is trimmable and the character there, if any, is not |
| `Command.SkipTrailing` | bin/node-dev-server.js:40 | the position where trimming stops: everything from it to the end is trimmable and the character before it, if any, is not |
| `Command.Trim` | bin/node-dev-server.js:40 | the trimmed text is no longer than the input and neither starts nor ends with a trimmable character |
| `Command.TrimOfPadded` | bin/node-dev-server.js:40 | trimming a core padded on both sides with trimmable characters gives back exactly the core |
| `Command.TrimDecomposes` | bin/node-dev-server.js:40 | every input is its trimmed text with only trimmable characters before and after it |
| `Command.TrimToLowerCommute` | bin/node-dev-server.js:40 | trimming and lower-casing commute, so their order in the handler does not matter |
| `Command.ReloadWordEnds` | bin/node-dev-server.js:42-44 | every text that lower-cases to `r`, `reload` or `hup` is non-empty and starts and ends with a character that trim keeps |
| `Command.PaddedIsReloadCommand` | bin/node-dev-server.js:40-45 | a reload word in any case, padded only with trimmable characters, is recognised as a reload command |
| `Command.IsReloadCommandIff` | bin/node-dev-server.js:40-49 | a chunk of input is a reload command if and only if it is `r`, `reload` or `hup`, in any case, surrounded only by trimmable characters |
| `Supervision.StartChildStep` | bin/node-dev-server.js:17-36 | after `startChild` there is always a current child, no timer changes, and exactly one request is appended to the log |
| `Supervision.ExitStep` | bin/node-dev-server.js:28-35 | after the exit handler `child` is null, the exited process is no longer alive, nothing is forked, and at most one request (the restart) is appended |
| `Supervision.TimerStep` | bin/node-dev-server.js:32 | a timer firing consumes exactly one pending timer and leaves a current child |
| `Supervision.InputStep` | bin/node-dev-server.js:39-50 | standard input never changes the timers; it either leaves the state unchanged or leaves a current child with one more request |
| `Supervision.SigtstpStep` | bin/node-dev-server.js:52 | after SIGTSTP there is a current child, marked for restart exactly when there was one before, and no timer changes |
| `Supervision.Initial` | bin/node-dev-server.js:53 | startup leaves child 0 current and alive, one fork counted, and no timer pending |
| `Supervision.Apply` | bin/node-dev-server.js:14-53 | an event is impossible exactly when it is an exit of a process that is not alive (or with no current child) or a timer with none pending; a possible event never lowers the fork count and only appends to the request log |
| `Supervision.Run` | bin/node-dev-server.js:14-53 | every state reached from startup has forked at least one child and made at least one request (the invariant on such states is `RunKeepsInv`) |
| `Supervision.Inv` | bin/node-dev-server.js:14-35 | the invariant: the children alive are exactly the current one, if any, that child was forked, and the fork counter counts the fork requests; its preservation is `ApplyKeepsInv` and `RunKeepsInv` |
| `Supervision.ChildArgs` | bin/node-dev-server.js:27 | the child's arguments are the supervisor's arguments from the third on (`process.argv.slice(2)`), empty when there are at most two |
| `Supervision.InitialForksOnce` | bin/node-dev-server.js:53 | startup forks exactly one child, number 0, with the pass-through arguments, and establishes the invariant |
| `Supervision.StartChildCases` | bin/node-dev-server.js:17-27 | with a current child a trigger forks nothing, sets its restart flag and requests one kill; without one it forks exactly one child, with the pass-through arguments, and makes it current; the invariant is kept and no timer changes |
| `Supervision.ExitCases` | bin/node-dev-server.js:28-35 | after any exit `child` is null and no child is alive; exactly one 200 ms restart is scheduled if the child was marked, and nothing is scheduled or requested otherwise |
| `Supervision.ExitIsOfCurrentChild` | bin/node-dev-server.js:30-34 | under the invariant the exiting process is the module-level `child` the handler reads |
| `Supervision.AtMostOneLive` | bin/node-dev-server.js:17-35 | under the invariant at most one child is alive |
| `Supervision.ApplyKeepsInv` | bin/node-dev-server.js:17-53 | every event that can occur (input, SIGTSTP, exit of a live child, a pending timer firing) keeps the invariant |
| `Supervision.RunKeepsInv` | bin/node-dev-server.js:14-53 | in every state reachable from startup by any sequence of events, the invariant holds and at most one child is alive |
| `Supervision.ForkOnlyWhenIdle` | bin/node-dev-server.js:17-35 | an event forks only if `child` was null, forks exactly one child with the pass-through arguments, and `child` is cleared only by the exit of that same child |
| `Supervision.RepeatedTriggers` | bin/node-dev-server.js:18-22 | any number of triggers against a live child leave it marked once (a flag, not a counter), fork nothing, change no timer, and add only one kill request each |
| `Supervision.DoubleTriggerOneRespawn` | bin/node-dev-server.js:18-33 | two triggers against a running child, its exit and the timer produce exactly one scheduled restart and exactly one new child |
| `Supervision.UnrequestedExitStaysIdle` | bin/node-dev-server.js:28-35 | when no restart timer is pending, a child exiting without a requested restart leaves the supervisor idle: no child, no timer scheduled, no request made, and neither a timer nor an exit can then occur |
| `Supervision.CrashInWindowRespawned` | bin/node-dev-server.js:17-35 | when a timer is pending and `child` is null, a trigger forks an unmarked child; its own exit schedules nothing, yet the pending timer forks a fresh child, so that exit is respawned |
| `Supervision.TwoTimersPending` | bin/node-dev-server.js:17-53 | from startup, SIGTSTP, the exit of child 0, two more SIGTSTPs and the exit of child 1 can all occur and leave no child and two restart timers pending |
| `Supervision.TriggerDuringRestartWindow` | bin/node-dev-server.js:17-35 | a trigger after a requested exit forks at once; the pending timer then marks and kills that child instead of forking a second; its exit and the next timer respawn it, so one extra kill/respawn cycle and never two children |
| `Supervision.SigtstpIsReload` | bin/node-dev-server.js:39-52 | SIGTSTP has the same effect as a typed reload command, and any other input leaves the state unchanged |
| `DevServer.Supervisor.constructor` | bin/node-dev-server.js:53 | the supervisor starts with child 0 forked and the invariant holding |
| `DevServer.Supervisor.StartChild` | bin/node-dev-server.js:17-36 | updates the fields in place exactly as the start-child step does and keeps the invariant |
| `DevServer.Supervisor.OnInput` | bin/node-dev-server.js:39-50 | the trim/lower-case/switch handler changes the state exactly as the input step does and keeps the invariant |
| `DevServer.Supervisor.OnSigtstp` | bin/node-dev-server.js:52 | the signal handler changes the state exactly as the SIGTSTP step does and keeps the invariant |
| `DevServer.Supervisor.OnExit` | bin/node-dev-server.js:28-35 | for a live child, the exit handler changes the state exactly as the exit step does and keeps the invariant |
| `DevServer.Supervisor.OnTimer` | bin/node-dev-server.js:32 | a pending timer firing consumes that timer and runs the start-child step, keeping the invariant |

## Left out

- Logging: every `console.log` line is left out, including those selected by the `restarting` argument and the exit code and signal the exit handler prints. `StartChild` keeps the `restarting` parameter, but it has no other effect.
- Process mechanics are requests, not effects:
  - `fork` is recorded as a `Fork` request with the child's number and arguments.
  - `kill` is recorded as a `Kill` request, which the code sends with Node's default SIGTERM; the request records no signal. The child stays alive until its exit event.
  - `setTimeout` is a pending-timer count, with no real time. Pending timers are interchangeable, because each one runs `startChild(true)`.
- Fork failures are left out. The code does not handle them: an unhandled fork error (thrown or emitted) would crash the supervisor.
- Standard input arrives as chunks of bytes. The model takes each chunk as an already decoded string. How the terminal splits typed lines into chunks is not modelled.
- `Command.ToLower`: it folds only ASCII letters, whereas `toLowerCase` applies full Unicode case mapping. For the reload vocabulary this makes no difference. The only non-ASCII characters that lower-case to ASCII are U+212A (to `k`) and U+0130 (to `i` plus a combining dot). Neither `k` nor `i` occurs in `r`, `reload` or `hup`.
- `bin/node-server.js` (the child's entry point) is not part of this model. It is process I/O: it sends `ready` to a process manager and exits on error.
- `src/server.js` is not part of this model. It wraps Express, security middleware, a user module and a configuration module that is not shown. Its only logic is three lines that select arguments.
- `config/default.js` is static data.
- Loading several services, parsing `PORT` and `HOSTNAME`, `load` hooks and ordered `init` calls are not implemented by the code shown, so they are not modelled.
