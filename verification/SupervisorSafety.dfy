/** What every step of the supervisor keeps, and what that says about whole executions. */
module SupervisorSafety {
  import opened Wrappers
  import opened BoundedOutput
  import opened Supervisor

  // ------------------------------------------------------------------ the invariant

  /** No kill timer is armed without the closure holding its handle, so none escapes `clearTimeout`. */
  ghost predicate TimersHeld(k: Kills) {
    && (forall t | t in k.armed :: k.killTimer == Some(t) && k.waitingForKillGrace)
    && (k.killTimer.Some? ==> k.killTimer.value < k.next)
  }

  /** A grace timer is armed only after the timeout, a relay timer only while its signalled run is not done. */
  ghost predicate TimersExplained(k: Kills, p: Parent, timedOut: bool) {
    forall t | t in k.armed ::
      match k.armed[t]
      case GraceKill => timedOut
      case RelayKill(signal) => p.signal == Some(signal) && !p.done
  }

  /** A signalled run that is not done will be killed by its armed relay timer. */
  ghost predicate RelayArmed(k: Kills, p: Parent) {
    p.signal.Some? && !p.done ==>
      k.killTimer.Some? && k.killTimer.value in k.armed && k.armed[k.killTimer.value] == RelayKill(p.signal.value)
  }

  ghost predicate DoneForCause(p: Parent, c: Child) {
    p.done ==> p.signal.Some? && (c.groupSeenDead || SIGKILL in c.sent)
  }

  ghost predicate CaptureFaithful(o: Output) {
    && o.maxChars >= 1
    && Faithful(o.stdout, o.stream, o.maxChars) && Faithful(o.stderr, o.errors, o.maxChars)
  }

  /** The newest characters of the stream, as many as the limit allows. */
  ghost predicate IsTail(text: string, o: Output) {
    Faithful(Capture(text, |o.stream| - |text|), o.stream, o.maxChars)
  }

  /** What a caller of `runProcess` was told is true of the child. */
  ghost predicate OutcomeHonest(r: Run, outcome: Outcome) {
    outcome.Fulfilled? ==>
      && !r.timedOut && r.parent.signal.None? && !r.child.onClose
      && IsTail(outcome.stdout, r.output) && Faithful(outcome.stderr, r.output.errors, r.output.maxChars)
      && (outcome.code == 0 ==> outcome.stdout == r.output.stream)
      && (outcome.code != 0 ==> !r.rejectOnFailure)
  }

  ghost predicate SettlesOnce(r: Run) {
    && (r.settled ==> |r.outcomes| == 1 && OutcomeHonest(r, r.outcomes[0]) && !r.timeoutArmed)
    && (!r.settled ==> r.outcomes == [] && (r.timedOut <==> !r.timeoutArmed))
  }

  ghost predicate SetAgrees(r: Run, active: bool) {
    && r.parent.pending == r.parent.signal
    && (r.parent.listening <==> active && r.parent.signal.None?)
    && (active <==> !r.settled || r.parent.signal.Some?)
    && (r.settled && r.parent.signal.None? ==> forall t :: t !in r.kills.armed)
    && (r.childClosedResult.Some? ==> !r.child.onClose)
  }

  ghost predicate RunInv(r: Run, active: bool) {
    && SetAgrees(r, active)
    && CaptureFaithful(r.output)
    && TimersHeld(r.kills)
    && TimersExplained(r.kills, r.parent, r.timedOut)
    && RelayArmed(r.kills, r.parent)
    && DoneForCause(r.parent, r.child)
    && SettlesOnce(r)
  }

  ghost predicate Inv(s: System) {
    && (forall i | i in s.active :: Has(s, i))
    && (forall i: nat | i < |s.runs| :: RunInv(s.runs[i], i in s.active))
  }

  // ------------------------------------------------------------------ one run at a time

  /** What a refused signal adds to the captured stderr. */
  lemma RefusalIsCaptured(r: Run, signal: Signal, result: SendResult)
    requires CaptureFaithful(r.output)
    ensures CaptureFaithful(SignalChild(r, signal, result).output)
    ensures r.output.stream == SignalChild(r, signal, result).output.stream
  {
    if result.Refused? { AppendKeepsNewest(r.output.stderr, r.output.errors, result.message, r.output.maxChars); }
  }

  lemma RelayRunKeepsInv(r: Run, signal: Signal, result: SendResult, alive: bool)
    requires RunInv(r, true) && r.parent.listening
    ensures RunInv(RelayRun(r, signal, result, alive), true)
  {
    RefusalIsCaptured(r, signal, result);
    hide Faithful, Append;
  }

  lemma KillRunKeepsInv(r: Run, active: bool, timer: nat, result: SendResult)
    requires RunInv(r, active) && timer in r.kills.armed
    ensures RunInv(KillRun(r, timer, result), active)
  {
    RefusalIsCaptured(r.(kills := KillTimerFired(r.kills, timer)), SIGKILL, result);
    hide Faithful, Append;
  }

  lemma TimeoutRunKeepsInv(r: Run, active: bool, result: SendResult)
    requires RunInv(r, active) && r.timeoutArmed
    ensures RunInv(TimeoutRun(r, result), active)
  {
    RefusalIsCaptured(r, SIGTERM, result);
    hide Faithful, Append;
  }

  lemma SettleRunKeepsInv(r: Run, active: bool, outcome: Outcome)
    requires RunInv(r, active) && OutcomeHonest(r, outcome)
    ensures RunInv(SettleRun(r, outcome), if !r.settled && r.parent.pending.None? then false else active)
  {
    hide Faithful, Append;
  }

  lemma CloseOutcomeIsHonest(r: Run, active: bool, code: Option<int>)
    requires RunInv(r, active) && !r.child.onClose && (r.parent.signal.None? || r.timedOut)
    ensures OutcomeHonest(r, CloseOutcome(r, code))
  {
  }

  // ------------------------------------------------------------------ one step

  /** Nothing a run has shown to an observer is ever taken back, and a settled run keeps its one outcome. */
  ghost predicate Evolves(r: Run, r': Run) {
    && (r.settled ==> r'.settled && r'.outcomes == r.outcomes)
    && (r.timedOut ==> r'.timedOut)
    && (r.parent.signal.Some? ==> r'.parent.signal == r.parent.signal)
    && (r.parent.done ==> r'.parent.done)
    && (r.child.groupSeenDead ==> r'.child.groupSeenDead)
    && (r'.child.onClose ==> r.child.onClose)
    && r.child.sent <= r'.child.sent
    && r.output.stream <= r'.output.stream
  }

  /** What any step does to the system as a whole. */
  ghost predicate Progress(s: System, s': System) {
    && |s.runs| <= |s'.runs|
    && (forall i: nat | i < |s.runs| :: Evolves(s.runs[i], s'.runs[i]))
    && (forall i | i in s.active && Has(s, i) && s.runs[i].parent.signal.Some? :: i in s'.active)
  }

  /** Some active run was told this signal. */
  ghost predicate WasRelayed(s: System, signal: Signal) {
    exists i :: i in s.active && Has(s, i) && s.runs[i].parent.signal == Some(signal)
  }

  /** At most one signal is raised, one that was relayed, and only once all active runs are signalled and done. */
  ghost predicate RaisesSafely(s: System, s': System) {
    || s'.raised == s.raised
    || (AllDone(s') && exists signal :: s'.raised == s.raised + [signal] && WasRelayed(s', signal))
  }

  ghost predicate GoodStep(s: System, s': System) {
    Inv(s') && Progress(s, s') && RaisesSafely(s, s')
  }

  lemma NobodyListensWhenAllDone(s: System)
    requires Inv(s) && AllDone(s)
    ensures forall i: nat | i < |s.runs| :: !s.runs[i].parent.listening
  {
    forall i: nat | i < |s.runs| ensures !s.runs[i].parent.listening {
      assert RunInv(s.runs[i], i in s.active);
    }
  }

  lemma PutKeeps(s: System, i: nat, r: Run)
    requires Inv(s) && Has(s, i)
    requires RunInv(r, i in s.active) && Evolves(s.runs[i], r)
    ensures GoodStep(s, Put(s, i, r))
  {
  }

  lemma SettleKeeps(s: System, i: nat, outcome: Outcome)
    requires Inv(s) && Has(s, i) && OutcomeHonest(s.runs[i], outcome)
    ensures GoodStep(s, Settle(s, i, outcome))
  {
    SettleRunKeepsInv(s.runs[i], i in s.active, outcome);
  }

  lemma ProgressIsTransitive(s: System, m: System, t: System)
    requires Progress(s, m) && Progress(m, t)
    ensures Progress(s, t)
  {
    forall i: nat | i < |s.runs| ensures Evolves(s.runs[i], t.runs[i]) {
      assert Evolves(s.runs[i], m.runs[i]) && Evolves(m.runs[i], t.runs[i]);
    }
    forall i | i in s.active && Has(s, i) && s.runs[i].parent.signal.Some? ensures i in t.active {
      assert Evolves(s.runs[i], m.runs[i]);
    }
  }

  lemma RaiseOrNot(s: System, signal: Signal)
    ensures var s' := MaybeReraise(s, signal);
            && s'.runs == s.runs && s'.active == s.active && AllDone(s') == AllDone(s)
            && s'.raised == (if AllDone(s') then s.raised + [signal] else s.raised)
  {
  }

  lemma SignalledIsActive(r: Run, active: bool)
    requires RunInv(r, active) && r.parent.signal.Some?
    ensures active
  {
  }

  lemma RaiseKeeps(s: System, i: nat, r: Run, signal: Signal)
    requires Inv(s) && Has(s, i) && r.parent.signal == Some(signal)
    requires RunInv(r, i in s.active) && Evolves(s.runs[i], r)
    ensures GoodStep(s, MaybeReraise(Put(s, i, r), signal))
  {
    PutKeeps(s, i, r);
    SignalledIsActive(r, i in s.active);
    var put := Put(s, i, r);
    assert Has(put, i) && WasRelayed(put, signal);
    hide RunInv, Evolves, Put, AllDone;
    RaiseOrNot(put, signal);
  }

  lemma RelayKeeps(s: System, i: nat, signal: Signal, result: SendResult, alive: bool)
    requires Inv(s) && Has(s, i) && s.runs[i].parent.listening && !AllDone(s)
    ensures var s' := Relay(s, i, signal, result, alive);
            && GoodStep(s, s') && s'.active == s.active
            && |s'.runs| == |s.runs| && !s'.runs[i].parent.listening && s'.runs[i].parent.signal == Some(signal)
            && (forall j: nat | j < |s.runs| && j != i :: s'.runs[j] == s.runs[j])
            && s'.raised == (if AllDone(s') then s.raised + [signal] else s.raised)
  {
    assert RunInv(s.runs[i], i in s.active);
    var r := RelayRun(s.runs[i], signal, result, alive);
    RelayRunKeepsInv(s.runs[i], signal, result, alive);
    assert i in s.active && Evolves(s.runs[i], r) && r.parent.signal == Some(signal) && !r.parent.listening;
    assert s.runs[i].child.hasPid && alive ==> !SignalledAndDone(r.parent);
    hide RunInv, RelayRun, Evolves, Progress, Inv;
    PutKeeps(s, i, r);
    RaiseKeeps(s, i, r, signal);
    RaiseOrNot(Put(s, i, r), signal);
    assert Has(Put(s, i, r), i);
  }

  lemma DeliverToNobody(s: System, signal: Signal, results: seq<SendResult>, alives: seq<bool>, from: nat)
    requires |results| == |alives| == |s.runs| && from <= |s.runs|
    requires forall i: nat | i < |s.runs| :: !s.runs[i].parent.listening
    ensures Deliver(s, signal, results, alives, from) == s
    decreases |s.runs| - from
  {
  }

  /** The effect of handing one signal to every run that listens. */
  ghost predicate Delivered(s: System, s': System, signal: Signal) {
    && Inv(s') && Progress(s, s') && s'.active == s.active
    && (forall i: nat | i < |s'.runs| :: !s'.runs[i].parent.listening)
    && Told(s, s', signal)
    && s'.raised == (if AllDone(s') then s.raised + [signal] else s.raised)
  }

  /** Whoever listened and no longer does has been told. */
  ghost predicate Told(s: System, s': System, signal: Signal) {
    && |s.runs| <= |s'.runs|
    && forall i: nat | i < |s.runs| && s.runs[i].parent.listening ::
         s'.runs[i].parent.listening || s'.runs[i].parent.signal == Some(signal)
  }

  lemma DeliveredThen(s: System, next: System, s': System, signal: Signal)
    requires Progress(s, next) && next.active == s.active && next.raised == s.raised
    requires Told(s, next, signal) && Delivered(next, s', signal)
    ensures Delivered(s, s', signal)
  {
    ProgressIsTransitive(s, next, s');
    forall i: nat | i < |s.runs| && s.runs[i].parent.listening ensures s'.runs[i].parent.signal == Some(signal) {
      assert Evolves(next.runs[i], s'.runs[i]);
    }
  }

  lemma DeliveredLast(s: System, next: System, signal: Signal)
    requires Progress(s, next) && next.active == s.active && Inv(next) && Told(s, next, signal)
    requires AllDone(next) && next.raised == s.raised + [signal]
    ensures Delivered(s, next, signal)
  {
    NobodyListensWhenAllDone(next);
  }

  lemma DeliveredNone(s: System, signal: Signal)
    requires Inv(s) && !AllDone(s) && forall i: nat | i < |s.runs| :: !s.runs[i].parent.listening
    ensures Delivered(s, s, signal)
  {
  }

  /** Delivery keeps the invariant, tells every listening run, and re-raises exactly if all are done at the end. */
  lemma {:induction false} DeliverKeeps(s: System, signal: Signal, results: seq<SendResult>, alives: seq<bool>,
                                        from: nat)
    requires Inv(s) && |results| == |alives| == |s.runs| && from <= |s.runs|
    requires !AllDone(s)
    requires forall i: nat | i < from :: !s.runs[i].parent.listening
    ensures Delivered(s, Deliver(s, signal, results, alives, from), signal)
    decreases |s.runs| - from
  {
    hide Relay, RunInv, Progress, Inv, AllDone;
    if from == |s.runs| {
      DeliveredNone(s, signal);
    } else if s.runs[from].parent.listening {
      var next := Relay(s, from, signal, results[from], alives[from]);
      RelayKeeps(s, from, signal, results[from], alives[from]);
      assert Told(s, next, signal);
      hide Told;
      if AllDone(next) {
        DeliveredLast(s, next, signal);
        DeliverToNobody(next, signal, results, alives, from + 1);
      } else {
        DeliverKeeps(next, signal, results, alives, from + 1);
        hide Delivered;
        DeliveredThen(s, next, Deliver(next, signal, results, alives, from + 1), signal);
      }
    } else {
      DeliverKeeps(s, signal, results, alives, from + 1);
    }
  }

  lemma PutThenSettle(s: System, i: nat, r: Run, outcome: Outcome)
    requires Inv(s) && Has(s, i)
    requires RunInv(r, i in s.active) && Evolves(s.runs[i], r) && OutcomeHonest(r, outcome)
    ensures GoodStep(s, Settle(Put(s, i, r), i, outcome))
  {
    PutKeeps(s, i, r);
    SettleKeeps(Put(s, i, r), i, outcome);
    ProgressIsTransitive(s, Put(s, i, r), Settle(Put(s, i, r), i, outcome));
  }

  lemma KillRunEvolves(r: Run, active: bool, timer: nat, result: SendResult)
    requires timer in r.kills.armed
    ensures Evolves(r, KillRun(r, timer, result))
  {
    hide Append;
  }

  lemma FireKillKeeps(s: System, i: nat, timer: nat, result: SendResult)
    requires Inv(s) && Has(s, i) && timer in s.runs[i].kills.armed
    ensures GoodStep(s, FireKill(s, i, timer, result))
  {
    var r := s.runs[i];
    var killed := KillRun(r, timer, result);
    assert RunInv(r, i in s.active);
    KillRunKeepsInv(r, i in s.active, timer, result);
    KillRunEvolves(r, i in s.active, timer, result);
    PutKeeps(s, i, killed);
    match r.kills.armed[timer]
    case RelayKill(signal) => RaiseKeeps(s, i, killed, signal);
    case GraceKill =>
      if r.childClosedResult.Some? {
        CloseOutcomeIsHonest(killed, i in s.active, r.childClosedResult.value);
        PutThenSettle(s, i, killed, CloseOutcome(killed, r.childClosedResult.value));
      }
  }

  lemma CloseListenerKeepsInv(r: Run, active: bool)
    requires RunInv(r, active)
    ensures var c := CloseListener(r);
            RunInv(c, active) && Evolves(r, c) && !c.child.onClose
            && c.parent == r.parent && c.child.hasPid == r.child.hasPid && c.kills == r.kills
  {
    hide Faithful;
  }

  lemma ProbeKeepsInv(r: Run, active: bool, alive: bool)
    requires RunInv(r, active)
    ensures var p := Probe(r, alive);
            RunInv(p, active) && Evolves(r, p) && p.parent == r.parent && p.child.onClose == r.child.onClose
            && (!(r.child.hasPid && alive) ==> p.child.groupSeenDead)
  {
    hide Faithful;
  }

  lemma HoldCloseKeepsInv(r: Run, active: bool, code: Option<int>)
    requires RunInv(r, active) && !r.child.onClose
    ensures RunInv(HoldClose(r, code), active) && Evolves(r, HoldClose(r, code))
  {
    hide Faithful;
  }

  lemma FinishRelayKeepsInv(r: Run, active: bool)
    requires RunInv(r, active) && r.parent.signal.Some? && r.child.groupSeenDead
    ensures RunInv(FinishRelay(r), active) && Evolves(r, FinishRelay(r))
    ensures FinishRelay(r).parent == r.parent.(done := true)
  {
    hide Faithful;
  }

  lemma EvolvesIsTransitive(a: Run, b: Run, c: Run)
    requires Evolves(a, b) && Evolves(b, c)
    ensures Evolves(a, c)
  {
  }

  /** What each branch of the close handler makes of its run. */
  lemma ClosedRunKeepsInv(r: Run, active: bool, code: Option<int>, alive: bool)
    requires RunInv(r, active)
    ensures var c := CloseListener(r);
            var p := Probe(c, alive);
            && RunInv(c, active) && Evolves(r, c) && !c.child.onClose && c.parent == r.parent
            && c.parent.pending == c.parent.signal
            && RunInv(p, active) && Evolves(r, p) && !p.child.onClose && p.parent == r.parent
            && RunInv(HoldClose(p, code), active) && Evolves(r, HoldClose(p, code))
            && (r.parent.signal.Some? && !(c.child.hasPid && alive) ==>
                  RunInv(FinishRelay(p), active) && Evolves(r, FinishRelay(p))
                  && FinishRelay(p).parent == r.parent.(done := true))
  {
    assert r.parent.pending == r.parent.signal;
    hide *;
    var c := CloseListener(r);
    var p := Probe(c, alive);
    CloseListenerKeepsInv(r, active);
    ProbeKeepsInv(c, active, alive);
    EvolvesIsTransitive(r, c, p);
    HoldCloseKeepsInv(p, active, code);
    EvolvesIsTransitive(r, p, HoldClose(p, code));
    if r.parent.signal.Some? && !(c.child.hasPid && alive) {
      FinishRelayKeepsInv(p, active);
      EvolvesIsTransitive(r, p, FinishRelay(p));
    }
  }

  lemma CloseCases(s: System, i: nat, code: Option<int>, alive: bool)
    requires Has(s, i)
    ensures var r := CloseListener(s.runs[i]);
            var p, s' := Probe(r, alive), Close(s, i, code, alive);
            if (r.parent.pending.Some? || r.kills.waitingForKillGrace) && r.child.hasPid && alive
            then s' == Put(s, i, HoldClose(p, code))
            else if r.parent.pending.Some?
            then s' == MaybeReraise(Put(s, i, FinishRelay(p)), r.parent.pending.value)
            else if r.kills.waitingForKillGrace then s' == FinishClose(Put(s, i, p), i, code)
            else s' == FinishClose(Put(s, i, r), i, code)
  {
    hide Put, FinishClose, MaybeReraise, CloseListener, Probe, FinishRelay, HoldClose;
  }

  lemma CloseKeeps(s: System, i: nat, code: Option<int>, alive: bool)
    requires Inv(s) && Has(s, i) && s.runs[i].child.onClose
    ensures GoodStep(s, Close(s, i, code, alive))
  {
    var active := i in s.active;
    assert RunInv(s.runs[i], active);
    ClosedRunKeepsInv(s.runs[i], active, code, alive);
    CloseCases(s, i, code, alive);
    var r := CloseListener(s.runs[i]);
    var p := Probe(r, alive);
    if (r.parent.pending.Some? || r.kills.waitingForKillGrace) && r.child.hasPid && alive {
      PutKeeps(s, i, HoldClose(p, code));
    } else if r.parent.pending.Some? {
      RaiseKeeps(s, i, FinishRelay(p), r.parent.pending.value);
    } else if r.kills.waitingForKillGrace {
      PutAndClose(s, i, p, code);
    } else {
      PutAndClose(s, i, r, code);
    }
  }

  lemma PutAndClose(s: System, i: nat, r: Run, code: Option<int>)
    requires Inv(s) && Has(s, i) && RunInv(r, i in s.active) && Evolves(s.runs[i], r)
    requires !r.child.onClose && r.parent.signal.None?
    ensures GoodStep(s, FinishClose(Put(s, i, r), i, code))
  {
    CloseOutcomeIsHonest(r, i in s.active, code);
    PutThenSettle(s, i, r, CloseOutcome(r, code));
    hide *;
    assert Put(s, i, r).runs[i] == r by { PutAt(s, i, r); }
    FinishIsSettle(Put(s, i, r), i, code);
  }

  lemma PutAt(s: System, i: nat, r: Run)
    requires Has(s, i)
    ensures Has(Put(s, i, r), i) && Put(s, i, r).runs[i] == r
  {
  }

  lemma FinishIsSettle(s: System, i: nat, code: Option<int>)
    requires Has(s, i)
    ensures FinishClose(s, i, code) == Settle(s, i, CloseOutcome(s.runs[i], code))
  {
  }

  lemma OutputKeeps(s: System, i: nat, chunk: string)
    requires Inv(s) && Has(s, i) && s.runs[i].child.onClose
    ensures GoodStep(s, Put(s, i, s.runs[i].(output := AppendStdout(s.runs[i].output, chunk))))
    ensures GoodStep(s, Put(s, i, s.runs[i].(output := AppendStderr(s.runs[i].output, chunk))))
  {
    var r := s.runs[i];
    assert RunInv(r, i in s.active);
    AppendKeepsNewest(r.output.stdout, r.output.stream, chunk, r.output.maxChars);
    AppendKeepsNewest(r.output.stderr, r.output.errors, chunk, r.output.maxChars);
    hide Append, Faithful;
    PutKeeps(s, i, r.(output := AppendStdout(r.output, chunk)));
    PutKeeps(s, i, r.(output := AppendStderr(r.output, chunk)));
  }

  lemma NewRunInv(maxChars: int, rejectOnFailure: bool, hasPid: bool)
    requires maxChars >= 1
    ensures RunInv(NewRun(maxChars, rejectOnFailure, hasPid), true)
  {
  }

  lemma EvolvesIsReflexive(r: Run)
    ensures Evolves(r, r)
  {
  }

  /** The system with one run more. */
  function Added(s: System, r: Run): System { System(s.runs + [r], s.active + {|s.runs|}, s.raised) }

  lemma AddedRun(s: System, r: Run, i: nat)
    requires Inv(s) && RunInv(r, true) && i <= |s.runs|
    ensures RunInv(Added(s, r).runs[i], i in Added(s, r).active)
    ensures i < |s.runs| ==> Evolves(s.runs[i], Added(s, r).runs[i])
    ensures i in s.active ==> i in Added(s, r).active
  {
    assert |s.runs| !in s.active;
    hide RunInv, Evolves;
    if i < |s.runs| { EvolvesIsReflexive(s.runs[i]); }
  }

  lemma AddingKeeps(s: System, r: Run)
    requires Inv(s) && RunInv(r, true)
    ensures GoodStep(s, Added(s, r))
  {
    var s' := Added(s, r);
    assert forall i | i in s'.active :: Has(s', i);
    assert |s'.runs| == |s.runs| + 1 && s'.raised == s.raised;
    hide Added, RunInv, Evolves, AllDone;
    forall i: nat | i < |s'.runs| ensures RunInv(s'.runs[i], i in s'.active) { AddedRun(s, r, i); }
    forall i: nat | i < |s.runs| ensures Evolves(s.runs[i], s'.runs[i]) { AddedRun(s, r, i); }
    forall i | i in s.active ensures i in s'.active { AddedRun(s, r, i); }
  }

  lemma StartKeeps(s: System, maxChars: int, rejectOnFailure: bool, hasPid: bool)
    requires Inv(s) && maxChars >= 1
    ensures GoodStep(s, Next(s, Start(maxChars, rejectOnFailure, hasPid)))
  {
    hide GoodStep, Inv, RunInv, NewRun;
    NewRunInv(maxChars, rejectOnFailure, hasPid);
    AddingKeeps(s, NewRun(maxChars, rejectOnFailure, hasPid));
  }

  lemma TimeoutKeeps(s: System, i: nat, result: SendResult)
    requires Inv(s) && Has(s, i) && s.runs[i].timeoutArmed
    ensures GoodStep(s, Put(s, i, TimeoutRun(s.runs[i], result)))
  {
    assert RunInv(s.runs[i], i in s.active);
    TimeoutRunKeepsInv(s.runs[i], i in s.active, result);
    hide Append;
    PutKeeps(s, i, TimeoutRun(s.runs[i], result));
  }

  lemma SomebodyListensMeansNotAllDone(s: System)
    requires Inv(s) && exists i :: 0 <= i < |s.runs| && s.runs[i].parent.listening
    ensures !AllDone(s)
  {
    if AllDone(s) { NobodyListensWhenAllDone(s); }
  }

  /** Every step of every kind keeps the invariant, takes nothing back and re-raises only when all are done. */
  lemma StepKeeps(s: System, e: Event)
    requires Inv(s) && Enabled(s, e)
    ensures GoodStep(s, Next(s, e))
  {
    hide GoodStep, Inv, FireKill, Close, Deliver, TimeoutRun, AppendStdout, AppendStderr;
    match e
    case Start(maxChars, reject, hasPid) => StartKeeps(s, maxChars, reject, hasPid);
    case Stdout(i, chunk) => OutputKeeps(s, i, chunk);
    case Stderr(i, chunk) => OutputKeeps(s, i, chunk);
    case TimeoutFires(i, result) => TimeoutKeeps(s, i, result);
    case KillFires(i, timer, result) => FireKillKeeps(s, i, timer, result);
    case ChildError(i) => ErrorKeeps(s, i);
    case ChildClose(i, code, alive) => CloseKeeps(s, i, code, alive);
    case ParentSignal(signal, results, alives) => SignalKeeps(s, signal, results, alives);
  }

  lemma ErrorKeeps(s: System, i: nat)
    requires Inv(s) && Has(s, i)
    ensures var told := Put(s, i, s.runs[i].(child := s.runs[i].child.(onError := false)));
            GoodStep(s, Settle(told, i, Rejected(ChildFailed)))
  {
    assert RunInv(s.runs[i], i in s.active);
    PutThenSettle(s, i, s.runs[i].(child := s.runs[i].child.(onError := false)), Rejected(ChildFailed));
  }

  lemma SignalKeeps(s: System, signal: Signal, results: seq<SendResult>, alives: seq<bool>)
    requires Inv(s) && Enabled(s, ParentSignal(signal, results, alives))
    ensures Delivered(s, Deliver(s, signal, results, alives, 0), signal)
    ensures GoodStep(s, Deliver(s, signal, results, alives, 0))
  {
    SomebodyListensMeansNotAllDone(s);
    DeliverKeeps(s, signal, results, alives, 0);
    hide Deliver;
    DeliveryIsGood(s, Deliver(s, signal, results, alives, 0), signal);
  }

  lemma DeliveryIsGood(s: System, s': System, signal: Signal)
    requires Inv(s) && Delivered(s, s', signal)
    requires exists i: nat :: i < |s.runs| && s.runs[i].parent.listening
    ensures GoodStep(s, s')
  {
    hide Progress;
    var i: nat :| i < |s.runs| && s.runs[i].parent.listening;
    assert RunInv(s.runs[i], i in s.active);
    assert |s.runs| <= |s'.runs| && s'.runs[i].parent.signal == Some(signal) && Has(s', i);
    assert WasRelayed(s', signal);
  }
}
