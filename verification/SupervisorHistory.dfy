/** What a run has captured and sent, in terms of the events that led there. */
module SupervisorHistory {
  import opened Wrappers
  import opened BoundedOutput
  import opened Supervisor
  import opened SupervisorSafety
  import opened SupervisorTheorems

  // ------------------------------------------------------------------ one event

  /** What an event writes to the captures of a run, the signals it sends, and the once-only callbacks it is. */
  datatype Effect = Effect(out: string, err: string, sent: set<Signal>, closes: bool, fails: bool, timesOut: bool)

  const NOTHING := Effect("", "", {}, false, false, false)

  /** That a signal could not be sent is written to the captured stderr, if there is a group to send it to. */
  function Refusal(r: Run, result: SendResult): string {
    if r.child.hasPid && result.Refused? then result.message else ""
  }

  /** SIGTERM at the timeout, SIGKILL when a kill timer fires, and the parent's signal while the run listens. */
  function EffectOn(s: System, e: Event, i: nat): Effect
    requires Enabled(s, e) && Has(s, i)
  {
    var r := s.runs[i];
    if e.ParentSignal? then
      if r.parent.listening then NOTHING.(err := Refusal(r, e.results[i]), sent := {e.relayed}) else NOTHING
    else if e.Start? || e.run != i then NOTHING
    else
      match e
      case Stdout(_, chunk) => NOTHING.(out := chunk)
      case Stderr(_, chunk) => NOTHING.(err := chunk)
      case TimeoutFires(_, result) => NOTHING.(err := Refusal(r, result), sent := {SIGTERM}, timesOut := true)
      case KillFires(_, _, result) => NOTHING.(err := Refusal(r, result), sent := {SIGKILL})
      case ChildError(_) => NOTHING.(fails := true)
      case ChildClose(_, _, _) => NOTHING.(closes := true)
  }

  ghost predicate SameSettings(r: Run, r': Run) {
    && r'.rejectOnFailure == r.rejectOnFailure && r'.output.maxChars == r.output.maxChars
    && r'.child.hasPid == r.child.hasPid
  }

  ghost predicate Takes(r: Run, r': Run, effect: Effect) {
    && r'.output.stream == r.output.stream + effect.out
    && r'.output.errors == r.output.errors + effect.err
    && r'.child.sent == r.child.sent + effect.sent
    && r'.child.onClose == (r.child.onClose && !effect.closes)
    && r'.child.onError == (r.child.onError && !effect.fails)
    && r'.timedOut == (r.timedOut || effect.timesOut)
    && SameSettings(r, r')
  }

  /** All that `Takes` speaks of is the same. */
  ghost predicate Alike(r: Run, r': Run) {
    && r'.output == r.output && r'.child.sent == r.child.sent && r'.timedOut == r.timedOut && SameSettings(r, r')
    && r'.child.onClose == r.child.onClose && r'.child.onError == r.child.onError
  }

  lemma TakesNothing(r: Run, r': Run)
    requires Alike(r, r')
    ensures Takes(r, r', NOTHING)
  {
  }

  lemma TakesAlso(r: Run, m: Run, r': Run, effect: Effect)
    requires Takes(r, m, effect) && Alike(m, r')
    ensures Takes(r, r', effect)
  {
  }

  lemma TakesSignal(r: Run, signal: Signal, result: SendResult)
    ensures Takes(r, SignalChild(r, signal, result), NOTHING.(err := Refusal(r, result), sent := {signal}))
  {
    hide Append;
    assert r.output.stream + "" == r.output.stream && r.output.errors + "" == r.output.errors;
  }

  lemma TakesOutput(r: Run, chunk: string)
    ensures Takes(r, r.(output := AppendStdout(r.output, chunk)), NOTHING.(out := chunk))
    ensures Takes(r, r.(output := AppendStderr(r.output, chunk)), NOTHING.(err := chunk))
  {
    hide Append;
    assert r.output.stream + "" == r.output.stream && r.output.errors + "" == r.output.errors;
  }

  /** A delivery runs the handler of each listening run once. */
  lemma {:induction false} DeliverRun(s: System, signal: Signal, results: seq<SendResult>, alives: seq<bool>, from: nat,
                                      i: nat)
    requires |results| == |alives| == |s.runs| && from <= |s.runs| && Has(s, i)
    ensures var s' := Deliver(s, signal, results, alives, from);
            && Has(s', i)
            && s'.runs[i] == if i >= from && s.runs[i].parent.listening
                             then RelayRun(s.runs[i], signal, results[i], alives[i]) else s.runs[i]
    decreases |s.runs| - from
  {
    hide RelayRun, AllDone;
    if from < |s.runs| {
      if s.runs[from].parent.listening {
        DeliverRun(Relay(s, from, signal, results[from], alives[from]), signal, results, alives, from + 1, i);
      } else {
        DeliverRun(s, signal, results, alives, from + 1, i);
      }
    }
  }

  lemma SettlingIsAlike(s: System, i: nat, outcome: Outcome)
    requires Has(s, i)
    ensures Has(Settle(s, i, outcome), i) && Alike(s.runs[i], Settle(s, i, outcome).runs[i])
  {
  }

  lemma CloseListenerTakes(r: Run)
    ensures Takes(r, CloseListener(r), NOTHING.(closes := true))
  {
    assert r.output.stream + "" == r.output.stream && r.output.errors + "" == r.output.errors;
  }

  lemma CloseStepsAreAlike(r: Run, code: Option<int>, alive: bool)
    ensures Alike(r, Probe(r, alive))
    ensures Alike(r, HoldClose(r, code))
    ensures Alike(r, FinishRelay(r))
  {
  }

  lemma AlikeIsTransitive(a: Run, b: Run, c: Run)
    requires Alike(a, b) && Alike(b, c)
    ensures Alike(a, c)
  {
  }

  lemma ClosedAlike(s: System, i: nat, code: Option<int>, alive: bool)
    requires Has(s, i)
    ensures var s' := Close(s, i, code, alive);
            Has(s', i) && Alike(CloseListener(s.runs[i]), s'.runs[i])
  {
    CloseCases(s, i, code, alive);
    var r := CloseListener(s.runs[i]);
    var p := Probe(r, alive);
    hide AllDone, CloseOutcome, Close, Alike, Settle, CloseListener, Probe, HoldClose, FinishRelay;
    CloseStepsAreAlike(r, code, alive);
    CloseStepsAreAlike(p, code, alive);
    if (r.parent.pending.Some? || r.kills.waitingForKillGrace) && r.child.hasPid && alive {
      AlikeIsTransitive(r, p, HoldClose(p, code));
    } else if r.parent.pending.Some? {
      AlikeIsTransitive(r, p, FinishRelay(p));
    } else if r.kills.waitingForKillGrace {
      SettlingIsAlike(Put(s, i, p), i, CloseOutcome(p, code));
      AlikeIsTransitive(r, p, Close(s, i, code, alive).runs[i]);
    } else {
      SettlingIsAlike(Put(s, i, r), i, CloseOutcome(r, code));
    }
  }

  lemma CloseTakes(s: System, i: nat, code: Option<int>, alive: bool)
    requires Has(s, i)
    ensures var s' := Close(s, i, code, alive);
            Has(s', i) && Takes(s.runs[i], s'.runs[i], NOTHING.(closes := true))
  {
    CloseListenerTakes(s.runs[i]);
    ClosedAlike(s, i, code, alive);
    hide Close, Takes, Alike, CloseListener;
    TakesAlso(s.runs[i], CloseListener(s.runs[i]), Close(s, i, code, alive).runs[i], NOTHING.(closes := true));
  }

  lemma KilledTakes(r: Run, timer: nat, result: SendResult)
    requires timer in r.kills.armed
    ensures Takes(r, KillRun(r, timer, result), NOTHING.(err := Refusal(r, result), sent := {SIGKILL}))
  {
    var fired := r.(kills := KillTimerFired(r.kills, timer));
    TakesSignal(fired, SIGKILL, result);
    hide SignalChild;
  }

  lemma KillTakes(s: System, i: nat, timer: nat, result: SendResult)
    requires Has(s, i) && timer in s.runs[i].kills.armed
    ensures var s' := FireKill(s, i, timer, result);
            && Has(s', i)
            && Takes(s.runs[i], s'.runs[i], NOTHING.(err := Refusal(s.runs[i], result), sent := {SIGKILL}))
  {
    var r := s.runs[i];
    var killed := KillRun(r, timer, result);
    KilledTakes(r, timer, result);
    assert Alike(killed, killed);
    hide AllDone, CloseOutcome, Append, KillRun, Takes, Alike, Settle;
    if r.childClosedResult.Some? {
      SettlingIsAlike(Put(s, i, killed), i, CloseOutcome(killed, r.childClosedResult.value));
    }
    TakesAlso(r, killed, FireKill(s, i, timer, result).runs[i], NOTHING.(err := Refusal(r, result), sent := {SIGKILL}));
  }

  lemma ErrorTakes(s: System, i: nat)
    requires Has(s, i)
    ensures var told := Put(s, i, s.runs[i].(child := s.runs[i].child.(onError := false)));
            var s' := Settle(told, i, Rejected(ChildFailed));
            Has(s', i) && Takes(s.runs[i], s'.runs[i], NOTHING.(fails := true))
  {
    var told := Put(s, i, s.runs[i].(child := s.runs[i].child.(onError := false)));
    TakesNothing(told.runs[i], Settle(told, i, Rejected(ChildFailed)).runs[i]);
  }

  /** A step of another run leaves a run alone, unless it is a delivery. */
  lemma OthersUntouched(s: System, e: Event, i: nat)
    requires Enabled(s, e) && Has(s, i) && !e.ParentSignal? && (e.Start? || e.run != i)
    ensures Has(Next(s, e), i) && Next(s, e).runs[i] == s.runs[i]
  {
    hide AllDone, KillRun, TimeoutRun, CloseOutcome, SettleRun, AppendStdout, AppendStderr, CloseListener, Probe,
      HoldClose, FinishRelay;
  }

  /** What any step does to any run. */
  lemma StepTakes(s: System, e: Event, i: nat)
    requires Enabled(s, e) && Has(s, i)
    ensures Has(Next(s, e), i) && Takes(s.runs[i], Next(s, e).runs[i], EffectOn(s, e, i))
  {
    var r := s.runs[i];
    if e.ParentSignal? {
      DeliverRun(s, e.relayed, e.results, e.alives, 0, i);
      TakesSignal(r, e.relayed, e.results[i]);
      TakesNothing(r, r);
      hide SignalChild, Deliver, Append;
    } else if e.Start? || e.run != i {
      OthersUntouched(s, e, i);
      TakesNothing(r, r);
      hide Next;
    } else {
      OwnStepTakes(s, e, i);
    }
  }

  lemma OwnStepTakes(s: System, e: Event, i: nat)
    requires Enabled(s, e) && Has(s, i) && !e.ParentSignal? && !e.Start? && e.run == i
    ensures Has(Next(s, e), i) && Takes(s.runs[i], Next(s, e).runs[i], EffectOn(s, e, i))
  {
    var r := s.runs[i];
    hide Append, Close, FireKill, SettleRun;
    match e
    case Stdout(_, chunk) => TakesOutput(r, chunk);
    case Stderr(_, chunk) => TakesOutput(r, chunk);
    case TimeoutFires(_, result) => TakesSignal(r, SIGTERM, result);
    case KillFires(_, timer, result) => KillTakes(s, i, timer, result);
    case ChildError(_) => ErrorTakes(s, i);
    case ChildClose(_, code, alive) => CloseTakes(s, i, code, alive);
  }

  // ------------------------------------------------------------------ whole executions

  /** What the child of run `i` has written to its stdout. */
  function StdoutOf(events: seq<Event>, i: nat): string {
    if events == [] then "" else StdoutOf(events[..|events| - 1], i) + StdoutPart(events[|events| - 1], i)
  }

  function StdoutPart(e: Event, i: nat): string {
    if e.Stdout? && e.run == i then e.chunk else ""
  }

  ghost function EffectAt(states: seq<System>, events: seq<Event>, i: nat, k: nat): Effect
    requires Execution(states, events) && k < |events|
  {
    if Has(states[k], i) then EffectOn(states[k], events[k], i) else NOTHING
  }

  /** What the first `k` events have written to the captured stderr of run `i`. */
  ghost function StderrOf(states: seq<System>, events: seq<Event>, i: nat, k: nat): string
    requires Execution(states, events) && k <= |events|
  {
    if k == 0 then "" else StderrOf(states, events, i, k - 1) + EffectAt(states, events, i, k - 1).err
  }

  ghost function SentTo(states: seq<System>, events: seq<Event>, i: nat, k: nat): set<Signal>
    requires Execution(states, events) && k <= |events|
  {
    if k == 0 then {} else SentTo(states, events, i, k - 1) + EffectAt(states, events, i, k - 1).sent
  }

  /** The run holds what the first `k` events have written and sent. */
  ghost predicate Recounts(states: seq<System>, events: seq<Event>, i: nat, k: nat)
    requires Execution(states, events) && k <= |events|
  {
    if Has(states[k], i) then
      && states[k].runs[i].output.stream == StdoutOf(events[..k], i)
      && states[k].runs[i].output.errors == StderrOf(states, events, i, k)
      && states[k].runs[i].child.sent == SentTo(states, events, i, k)
    else
      StdoutOf(events[..k], i) == StderrOf(states, events, i, k) == "" && SentTo(states, events, i, k) == {}
  }

  lemma OneMoreEvent(events: seq<Event>, i: nat, k: nat)
    requires k < |events|
    ensures StdoutOf(events[..k + 1], i) == StdoutOf(events[..k], i) + StdoutPart(events[k], i)
  {
    assert events[..k + 1][..k] == events[..k];
  }

  lemma NobodyWrites(s: System, e: Event, i: nat)
    requires Enabled(s, e) && !Has(s, i)
    ensures StdoutPart(e, i) == ""
    ensures Has(Next(s, e), i) ==> e.Start? && i == |s.runs|
  {
    hide AllDone, KillRun, TimeoutRun, CloseOutcome, SettleRun, AppendStdout, AppendStderr, Deliver;
    if e.ParentSignal? { DeliverKeepsLength(s, e.relayed, e.results, e.alives, 0); }
  }

  lemma {:induction false} DeliverKeepsLength(s: System, signal: Signal, results: seq<SendResult>, alives: seq<bool>,
                                              from: nat)
    requires |results| == |alives| == |s.runs| && from <= |s.runs|
    ensures |Deliver(s, signal, results, alives, from).runs| == |s.runs|
    decreases |s.runs| - from
  {
    hide Relay;
    if from < |s.runs| {
      if s.runs[from].parent.listening {
        DeliverKeepsLength(Relay(s, from, signal, results[from], alives[from]), signal, results, alives, from + 1);
      } else {
        DeliverKeepsLength(s, signal, results, alives, from + 1);
      }
    }
  }

  lemma RecountsNext(states: seq<System>, events: seq<Event>, i: nat, k: nat)
    requires Execution(states, events) && k < |events| && Recounts(states, events, i, k)
    ensures Recounts(states, events, i, k + 1)
  {
    var s, e := states[k], events[k];
    assert Enabled(s, e) && states[k + 1] == Next(s, e);
    OneMoreEvent(events, i, k);
    hide Execution, StdoutOf;
    if Has(s, i) {
      StepTakes(s, e, i);
    } else {
      NobodyWrites(s, e, i);
      if e.Start? { assert Next(s, e).runs[|s.runs|] == NewRun(e.maxChars, e.rejectOnFailure, e.hasPid); }
    }
    hide Next, Enabled;
  }

  /**
   * In every execution a run holds exactly what its child has written to stdout; to stderr, in between the reports of
   * refused signals; and the signals that its timeout, its kill timers and the parent have sent to its group.
   */
  lemma {:induction false} RunsRecount(states: seq<System>, events: seq<Event>, i: nat, k: nat)
    requires Execution(states, events) && k <= |events|
    ensures Recounts(states, events, i, k)
  {
    hide Next, Enabled;
    if k == 0 {
      assert events[..0] == [];
    } else {
      RunsRecount(states, events, i, k - 1);
      hide Recounts;
      RecountsNext(states, events, i, k - 1);
    }
  }

  ghost predicate ClosedBefore(events: seq<Event>, i: nat, k: nat)
    requires k <= |events|
  {
    exists m | 0 <= m < k :: events[m].ChildClose? && events[m].run == i
  }

  ghost predicate FailedBefore(events: seq<Event>, i: nat, k: nat)
    requires k <= |events|
  {
    exists m | 0 <= m < k :: events[m].ChildError? && events[m].run == i
  }

  ghost predicate TimedOutBefore(events: seq<Event>, i: nat, k: nat)
    requires k <= |events|
  {
    exists m | 0 <= m < k :: events[m].TimeoutFires? && events[m].run == i
  }

  ghost predicate FlagsTell(s: System, events: seq<Event>, i: nat, k: nat)
    requires k <= |events|
  {
    if Has(s, i) then
      && (s.runs[i].child.onClose <==> !ClosedBefore(events, i, k))
      && (s.runs[i].child.onError <==> !FailedBefore(events, i, k))
      && (s.runs[i].timedOut <==> TimedOutBefore(events, i, k))
    else !ClosedBefore(events, i, k) && !FailedBefore(events, i, k) && !TimedOutBefore(events, i, k)
  }

  lemma OneMoreCallback(events: seq<Event>, i: nat, k: nat)
    requires k < |events|
    ensures var e := events[k];
            && (ClosedBefore(events, i, k + 1) <==> ClosedBefore(events, i, k) || (e.ChildClose? && e.run == i))
            && (FailedBefore(events, i, k + 1) <==> FailedBefore(events, i, k) || (e.ChildError? && e.run == i))
            && (TimedOutBefore(events, i, k + 1) <==> TimedOutBefore(events, i, k) || (e.TimeoutFires? && e.run == i))
  {
  }

  lemma FlagsTellNext(s: System, events: seq<Event>, i: nat, k: nat)
    requires k < |events| && Enabled(s, events[k]) && FlagsTell(s, events, i, k)
    ensures FlagsTell(Next(s, events[k]), events, i, k + 1)
  {
    var e := events[k];
    OneMoreCallback(events, i, k);
    hide ClosedBefore, FailedBefore, TimedOutBefore;
    if Has(s, i) {
      StepTakes(s, e, i);
      hide Next;
    } else {
      NobodyWrites(s, e, i);
      if e.Start? {
        assert Next(s, e).runs[|s.runs|] == NewRun(e.maxChars, e.rejectOnFailure, e.hasPid);
        hide Next;
      }
    }
  }

  lemma {:induction false} FlagsTellTheEvents(states: seq<System>, events: seq<Event>, i: nat, k: nat)
    requires Execution(states, events) && k <= |events|
    ensures FlagsTell(states[k], events, i, k)
  {
    hide Next, Enabled;
    if k > 0 {
      FlagsTellTheEvents(states, events, i, k - 1);
      hide FlagsTell;
      FlagsTellNext(states[k - 1], events, i, k - 1);
    }
  }

  /**
   * In every execution a run waits for a close and for an error of its child until they come, and its timeout stays
   * armed until it fires or the run settles.
   */
  lemma CallbacksComeOnce(states: seq<System>, events: seq<Event>, i: nat, k: nat)
    requires Execution(states, events) && k <= |events| && Has(states[k], i)
    ensures var r := states[k].runs[i];
            && (r.child.onClose <==> !ClosedBefore(events, i, k))
            && (r.child.onError <==> !FailedBefore(events, i, k))
            && (r.timeoutArmed <==> !TimedOutBefore(events, i, k) && !r.settled)
            && (r.timedOut <==> TimedOutBefore(events, i, k))
  {
    FlagsTellTheEvents(states, events, i, k);
    ReachableInv(states, events, k);
    assert RunInv(states[k].runs[i], i in states[k].active);
    hide Execution, ClosedBefore, FailedBefore, TimedOutBefore;
  }

  /** Run `i` was created by the event `j`. */
  ghost predicate StartedBy(states: seq<System>, events: seq<Event>, i: nat, j: nat)
    requires |states| == |events| + 1
  {
    j < |events| && events[j].Start? && |states[j].runs| == i
  }

  ghost predicate HasSettings(r: Run, e: Event)
    requires e.Start?
  {
    r.rejectOnFailure == e.rejectOnFailure && r.output.maxChars == e.maxChars && r.child.hasPid == e.hasPid
  }

  /** Every run goes back to one start, and keeps the options and the pid it was started with. */
  lemma {:induction false} RunsKeepSettings(states: seq<System>, events: seq<Event>, i: nat, k: nat) returns (j: nat)
    requires Execution(states, events) && k <= |events| && Has(states[k], i)
    ensures j < k && StartedBy(states, events, i, j) && HasSettings(states[k].runs[i], events[j])
  {
    var s, e := states[k - 1], events[k - 1];
    assert Enabled(s, e) && states[k] == Next(s, e);
    if Has(s, i) {
      j := RunsKeepSettings(states, events, i, k - 1);
      StepTakes(s, e, i);
      hide Next, Enabled;
    } else {
      NobodyWrites(s, e, i);
      j := k - 1;
      assert Next(s, e).runs[|s.runs|] == NewRun(e.maxChars, e.rejectOnFailure, e.hasPid);
    }
  }
}
