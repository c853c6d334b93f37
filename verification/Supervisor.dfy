/**
 * The child-process supervisor: any number of concurrent `runProcess` calls that share one set of
 * parent-signal states.  A `Run` holds the variables one call closes over, a `System` holds all
 * calls, and every callback is one step.  The POSIX process-group branch is modelled.
 */
module Supervisor {
  import opened Wrappers
  import opened BoundedOutput

  datatype Signal = SIGINT | SIGTERM | SIGHUP | SIGKILL

  /** What signalling the child's process group did: `Gone` is ESRCH, `Refused` any other error. */
  datatype SendResult = Sent | Gone | Refused(message: string)

  datatype KillTimer = GraceKill | RelayKill(signal: Signal)

  datatype Reason = TimedOut | ExitedWith(code: int) | TooMuchOutput | ChildFailed

  datatype Outcome = Fulfilled(code: int, stdout: string, stderr: Capture) | Rejected(reason: Reason)

  /** `stream` and `errors` are everything that has gone into the two captures. */
  datatype Output = Output(maxChars: int, stdout: Capture, stderr: Capture, stream: string, errors: string)

  /** `killTimer` is the handle the closure holds; `armed` are the kill timers that will still fire. */
  datatype Kills = Kills(waitingForKillGrace: bool, killTimer: Option<nat>, armed: map<nat, KillTimer>, next: nat)

  /**
   * `signal` and `done` are the state shared with the other runs; `listening` says the relay handlers are installed.
   */
  datatype Parent = Parent(pending: Option<Signal>, signal: Option<Signal>, done: bool, listening: bool)

  /** The once-listeners still installed, the signals sent so far and whether a probe saw the group dead. */
  datatype Child = Child(hasPid: bool, onError: bool, onClose: bool, sent: set<Signal>, groupSeenDead: bool)

  /** `outcomes` records every call of resolve or reject. */
  datatype Run = Run(
    rejectOnFailure: bool,
    output: Output,
    child: Child,
    kills: Kills,
    parent: Parent,
    timedOut: bool,
    timeoutArmed: bool,
    settled: bool,
    childClosedResult: Option<Option<int>>, // the exit code is itself null after a fatal signal
    outcomes: seq<Outcome>)

  /** `raised` lists the signals the process has sent to itself. */
  datatype System = System(runs: seq<Run>, active: set<nat>, raised: seq<Signal>)

  /** `alive` is what `process.kill(-pid, 0)` reports when the callback asks. */
  datatype Event =
    | Start(maxChars: int, rejectOnFailure: bool, hasPid: bool)
    | Stdout(run: nat, chunk: string)
    | Stderr(run: nat, chunk: string)
    | TimeoutFires(run: nat, result: SendResult)
    | KillFires(run: nat, timer: nat, result: SendResult)
    | ChildError(run: nat)
    | ChildClose(run: nat, code: Option<int>, alive: bool)
    | ParentSignal(relayed: Signal, results: seq<SendResult>, alives: seq<bool>)

  // ------------------------------------------------------------------ the variables of one run

  function NewRun(maxChars: int, rejectOnFailure: bool, hasPid: bool): Run {
    Run(rejectOnFailure,
        Output(maxChars, EMPTY_CAPTURE, EMPTY_CAPTURE, "", ""),
        Child(hasPid, true, true, {}, false),
        Kills(false, None, map[], 0),
        Parent(None, None, false, true),
        false, true, false, None, [])
  }

  function AppendStdout(output: Output, chunk: string): Output {
    output.(stdout := Append(output.stdout, chunk, output.maxChars), stream := output.stream + chunk)
  }

  function AppendStderr(output: Output, chunk: string): Output {
    output.(stderr := Append(output.stderr, chunk, output.maxChars), errors := output.errors + chunk)
  }

  function SignalChild(r: Run, signal: Signal, result: SendResult): Run {
    r.(child := r.child.(sent := r.child.sent + {signal}),
       output := if r.child.hasPid && result.Refused? then AppendStderr(r.output, result.message) else r.output)
  }

  /** A run without a pid has no group; otherwise the probe's answer counts and is remembered. */
  function ProbeGroup(child: Child, alive: bool): Child {
    child.(groupSeenDead := child.groupSeenDead || !(child.hasPid && alive))
  }

  function ClearKillTimer(k: Kills): Kills {
    if k.killTimer.Some? then k.(armed := k.armed - {k.killTimer.value}) else k
  }

  function ArmKillTimer(k: Kills, timer: KillTimer): Kills {
    Kills(true, Some(k.next), k.armed[k.next := timer], k.next + 1)
  }

  function ScheduleKill(k: Kills): Kills {
    if k.waitingForKillGrace then k else ArmKillTimer(k, GraceKill)
  }

  function KillTimerFired(k: Kills, timer: nat): Kills {
    k.(armed := k.armed - {timer}, waitingForKillGrace := false, killTimer := None)
  }

  function SettleRun(r: Run, outcome: Outcome): Run {
    if r.settled then r
    else r.(settled := true,
            timeoutArmed := false,
            kills := if r.parent.pending.None? then ClearKillTimer(r.kills) else r.kills,
            parent := r.parent.(listening := false),
            outcomes := r.outcomes + [outcome])
  }

  function CloseOutcome(r: Run, code: Option<int>): Outcome {
    var exit := code.GetOr(1);
    if r.timedOut then Rejected(TimedOut)
    else if exit != 0 && r.rejectOnFailure then Rejected(ExitedWith(exit))
    else if exit == 0 && r.output.stdout.truncated > 0 then Rejected(TooMuchOutput)
    else Fulfilled(exit, r.output.stdout.text, r.output.stderr)
  }

  /** The relay handler up to the point where it may re-raise. */
  function RelayRun(r: Run, signal: Signal, result: SendResult, alive: bool): Run {
    var told := SignalChild(r, signal, result);
    var seenAlive := r.child.hasPid && alive;
    told.(child := ProbeGroup(told.child, alive),
          kills := if seenAlive then ArmKillTimer(ClearKillTimer(r.kills), RelayKill(signal)) else r.kills,
          parent := Parent(Some(signal), Some(signal), r.parent.done || !seenAlive, false))
  }

  /** A kill timer's callback, up to the point where it may settle or re-raise. */
  function KillRun(r: Run, timer: nat, result: SendResult): Run
    requires timer in r.kills.armed
  {
    var killed := SignalChild(r.(kills := KillTimerFired(r.kills, timer)), SIGKILL, result);
    if r.kills.armed[timer].RelayKill? then killed.(parent := r.parent.(done := true)) else killed
  }

  function TimeoutRun(r: Run, result: SendResult): Run {
    SignalChild(r, SIGTERM, result).(timeoutArmed := false, timedOut := true, kills := ScheduleKill(r.kills))
  }

  /** The once-listener for `close` is gone as soon as it is called. */
  function CloseListener(r: Run): Run { r.(child := r.child.(onClose := false)) }

  function Probe(r: Run, alive: bool): Run { r.(child := ProbeGroup(r.child, alive)) }

  /** The group is still alive: the exit code waits for the kill timer. */
  function HoldClose(r: Run, code: Option<int>): Run { r.(childClosedResult := Some(code)) }

  /** The group of a signalled run is gone, so its kill timer is not needed any more. */
  function FinishRelay(r: Run): Run {
    r.(kills := ClearKillTimer(r.kills).(killTimer := None), parent := r.parent.(done := true))
  }

  // ------------------------------------------------------------------ the steps of the system

  predicate Has(s: System, i: nat) { i < |s.runs| }

  predicate SignalledAndDone(p: Parent) { p.signal.Some? && p.done }

  /** The test that guards the re-raise: every run in the shared set is signalled and done. */
  predicate AllDone(s: System) {
    forall i | i in s.active && Has(s, i) :: SignalledAndDone(s.runs[i].parent)
  }

  function MaybeReraise(s: System, signal: Signal): System {
    if AllDone(s) then s.(raised := s.raised + [signal]) else s
  }

  function Put(s: System, i: nat, r: Run): System
    requires Has(s, i)
  {
    s.(runs := s.runs[i := r])
  }

  function Settle(s: System, i: nat, outcome: Outcome): System
    requires Has(s, i)
  {
    var r := s.runs[i];
    System(s.runs[i := SettleRun(r, outcome)],
           if !r.settled && r.parent.pending.None? then s.active - {i} else s.active,
           s.raised)
  }

  function FinishClose(s: System, i: nat, code: Option<int>): System
    requires Has(s, i)
  {
    Settle(s, i, CloseOutcome(s.runs[i], code))
  }

  function Relay(s: System, i: nat, signal: Signal, result: SendResult, alive: bool): (s': System)
    requires Has(s, i)
    ensures |s'.runs| == |s.runs|
  {
    var told := Put(s, i, RelayRun(s.runs[i], signal, result, alive));
    if s.runs[i].child.hasPid && alive then told else MaybeReraise(told, signal)
  }

  /** One delivery calls the handlers of all listening runs, oldest first, without interruption. */
  function Deliver(s: System, signal: Signal, results: seq<SendResult>, alives: seq<bool>, from: nat): System
    requires |results| == |alives| == |s.runs| && from <= |s.runs|
    decreases |s.runs| - from
  {
    if from == |s.runs| then s
    else
      var next := if s.runs[from].parent.listening then Relay(s, from, signal, results[from], alives[from]) else s;
      Deliver(next, signal, results, alives, from + 1)
  }

  function FireKill(s: System, i: nat, timer: nat, result: SendResult): System
    requires Has(s, i) && timer in s.runs[i].kills.armed
  {
    var killed := Put(s, i, KillRun(s.runs[i], timer, result));
    match s.runs[i].kills.armed[timer]
    case RelayKill(signal) => MaybeReraise(killed, signal)
    case GraceKill =>
      var closed := s.runs[i].childClosedResult;
      if closed.Some? then FinishClose(killed, i, closed.value) else killed
  }

  function Close(s: System, i: nat, code: Option<int>, alive: bool): System
    requires Has(s, i)
  {
    var r := CloseListener(s.runs[i]);
    var seenAlive := r.child.hasPid && alive;
    if r.parent.pending.Some? then
      if seenAlive then Put(s, i, HoldClose(Probe(r, alive), code))
      else MaybeReraise(Put(s, i, FinishRelay(Probe(r, alive))), r.parent.pending.value)
    else if r.kills.waitingForKillGrace then
      if seenAlive then Put(s, i, HoldClose(Probe(r, alive), code))
      else FinishClose(Put(s, i, Probe(r, alive)), i, code)
    else FinishClose(Put(s, i, r), i, code)
  }

  /**
   * `ResolveOutputLimit` makes every limit at least one; a group seen dead stays dead; `close` comes after the last
   * output; timers fire only while armed.
   */
  predicate Enabled(s: System, e: Event) {
    match e
    case Start(maxChars, _, _) => maxChars >= 1
    case Stdout(i, _) => Has(s, i) && s.runs[i].child.onClose
    case Stderr(i, _) => Has(s, i) && s.runs[i].child.onClose
    case TimeoutFires(i, _) => Has(s, i) && s.runs[i].timeoutArmed
    case KillFires(i, timer, _) => Has(s, i) && timer in s.runs[i].kills.armed
    case ChildError(i) => Has(s, i) && s.runs[i].child.onError
    case ChildClose(i, _, alive) =>
      Has(s, i) && s.runs[i].child.onClose && !(alive && s.runs[i].child.groupSeenDead)
    case ParentSignal(signal, results, alives) =>
      && signal != SIGKILL
      && |results| == |alives| == |s.runs|
      && (exists i :: 0 <= i < |s.runs| && s.runs[i].parent.listening)
      && (forall i :: 0 <= i < |s.runs| && alives[i] ==> !s.runs[i].child.groupSeenDead)
  }

  function Next(s: System, e: Event): System
    requires Enabled(s, e)
  {
    match e
    case Start(maxChars, reject, hasPid) =>
      System(s.runs + [NewRun(maxChars, reject, hasPid)], s.active + {|s.runs|}, s.raised)
    case Stdout(i, chunk) => Put(s, i, s.runs[i].(output := AppendStdout(s.runs[i].output, chunk)))
    case Stderr(i, chunk) => Put(s, i, s.runs[i].(output := AppendStderr(s.runs[i].output, chunk)))
    case TimeoutFires(i, result) => Put(s, i, TimeoutRun(s.runs[i], result))
    case KillFires(i, timer, result) => FireKill(s, i, timer, result)
    case ChildError(i) =>
      Settle(Put(s, i, s.runs[i].(child := s.runs[i].child.(onError := false))), i, Rejected(ChildFailed))
    case ChildClose(i, code, alive) => Close(s, i, code, alive)
    case ParentSignal(signal, results, alives) => Deliver(s, signal, results, alives, 0)
  }

  const INITIAL := System([], {}, [])

  /** `states` is a run of the whole system under `events`, from an idle process. */
  ghost predicate Execution(states: seq<System>, events: seq<Event>) {
    && |states| == |events| + 1
    && states[0] == INITIAL
    && forall k :: 0 <= k < |events| ==> Enabled(states[k], events[k]) && states[k + 1] == Next(states[k], events[k])
  }
}
