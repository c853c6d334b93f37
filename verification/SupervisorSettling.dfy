/** A child that closes before a signal reaches it is not forgotten: it is settled, or an armed timer will settle it. */
module SupervisorSettling {
  import opened Wrappers
  import opened BoundedOutput
  import opened Supervisor
  import opened SupervisorSafety
  import opened SupervisorTheorems

  /** The kill timer that the closure holds is armed. */
  ghost predicate TimerArmed(k: Kills) {
    k.killTimer.Some? && k.killTimer.value in k.armed
  }

  ghost predicate GraceArmed(k: Kills) {
    TimerArmed(k) && k.armed[k.killTimer.value] == GraceKill
  }

  /** A run that waits for a kill timer has it armed, unless its close has let go of it. */
  ghost predicate WaitsArmed(r: Run) {
    r.kills.waitingForKillGrace && (r.child.onClose || r.childClosedResult.Some?) ==> TimerArmed(r.kills)
  }

  /** So it is until a run is settled; and an unsignalled one waits if its child has closed. */
  ghost predicate Waits(r: Run) {
    !r.settled ==>
      && WaitsArmed(r)
      && (!r.child.onClose && r.parent.signal.None? ==>
            r.childClosedResult.Some? && r.kills.waitingForKillGrace)
  }

  ghost predicate AllWait(s: System) {
    forall i: nat | i < |s.runs| :: Waits(s.runs[i])
  }

  lemma TimeoutWaits(r: Run, active: bool, result: SendResult)
    requires RunInv(r, active) && Waits(r)
    ensures Waits(TimeoutRun(r, result))
  {
    hide Append, Faithful;
  }

  lemma KillWaits(r: Run, active: bool, timer: nat, result: SendResult)
    requires RunInv(r, active) && Waits(r) && timer in r.kills.armed
    ensures var k := KillRun(r, timer, result);
            && (k.childClosedResult.None? || r.kills.armed[timer].RelayKill? ==> Waits(k))
            && k.childClosedResult == r.childClosedResult && k.settled == r.settled
  {
    hide Append, Faithful;
  }

  lemma CloseWaits(r: Run, active: bool, code: Option<int>, alive: bool)
    requires RunInv(r, active) && Waits(r) && r.child.onClose
    ensures var p := Probe(CloseListener(r), alive);
            && (r.parent.signal.Some? || r.kills.waitingForKillGrace ==> Waits(HoldClose(p, code)))
            && (r.parent.signal.Some? ==> Waits(FinishRelay(p)))
  {
    hide Append, Faithful;
  }

  lemma SettleWaits(s: System, i: nat, outcome: Outcome)
    requires Has(s, i) && forall j: nat | j < |s.runs| && j != i :: Waits(s.runs[j])
    ensures AllWait(Settle(s, i, outcome)) && Settle(s, i, outcome).runs[i].settled
  {
  }

  lemma PutWaits(s: System, i: nat, r: Run)
    requires AllWait(s) && Has(s, i)
    ensures forall j: nat | j < |s.runs| && j != i :: Waits(Put(s, i, r).runs[j])
    ensures Waits(r) ==> AllWait(Put(s, i, r))
  {
    hide Waits;
  }

  lemma RaiseWaits(s: System, signal: Signal)
    requires AllWait(s)
    ensures AllWait(MaybeReraise(s, signal))
  {
    hide Waits;
  }

  lemma FireKillWaits(s: System, i: nat, timer: nat, result: SendResult)
    requires Inv(s) && AllWait(s) && Enabled(s, KillFires(i, timer, result))
    ensures AllWait(FireKill(s, i, timer, result))
  {
    var r := s.runs[i];
    var k := KillRun(r, timer, result);
    assert RunInv(r, i in s.active) && Waits(r);
    KillWaits(r, i in s.active, timer, result);
    PutWaits(s, i, k);
    hide Waits, KillRun, Settle, CloseOutcome, AllDone, RunInv;
    match r.kills.armed[timer]
    case RelayKill(signal) => RaiseWaits(Put(s, i, k), signal);
    case GraceKill =>
      if r.childClosedResult.Some? {
        SettleWaits(Put(s, i, k), i, CloseOutcome(k, r.childClosedResult.value));
      }
  }

  lemma CloseStepWaits(s: System, i: nat, code: Option<int>, alive: bool)
    requires Inv(s) && AllWait(s) && Enabled(s, ChildClose(i, code, alive))
    ensures AllWait(Close(s, i, code, alive))
  {
    var active := i in s.active;
    assert RunInv(s.runs[i], active) && Waits(s.runs[i]);
    ClosedRunKeepsInv(s.runs[i], active, code, alive);
    CloseWaits(s.runs[i], active, code, alive);
    CloseCases(s, i, code, alive);
    var r := CloseListener(s.runs[i]);
    var p := Probe(r, alive);
    assert r.kills == s.runs[i].kills;
    hide RunInv, Waits, Evolves, CloseListener, Probe, HoldClose, FinishRelay, Settle, MaybeReraise, CloseOutcome;
    if (r.parent.pending.Some? || r.kills.waitingForKillGrace) && r.child.hasPid && alive {
      PutWaits(s, i, HoldClose(p, code));
    } else if r.parent.pending.Some? {
      PutWaits(s, i, FinishRelay(p));
      RaiseWaits(Put(s, i, FinishRelay(p)), r.parent.pending.value);
    } else {
      var closed := if r.kills.waitingForKillGrace then p else r;
      PutWaits(s, i, closed);
      SettleWaits(Put(s, i, closed), i, CloseOutcome(closed, code));
    }
  }

  /** A delivery only changes runs that it signals. */
  lemma {:induction false} DeliverWaits(s: System, signal: Signal, results: seq<SendResult>, alives: seq<bool>,
                                        from: nat)
    requires AllWait(s) && |results| == |alives| == |s.runs| && from <= |s.runs|
    ensures AllWait(Deliver(s, signal, results, alives, from))
    decreases |s.runs| - from
  {
    if from < |s.runs| {
      if s.runs[from].parent.listening {
        var r := RelayRun(s.runs[from], signal, results[from], alives[from]);
        assert Waits(r);
        PutWaits(s, from, r);
        RaiseWaits(Put(s, from, r), signal);
        hide Waits, RelayRun, AllDone;
        DeliverWaits(Relay(s, from, signal, results[from], alives[from]), signal, results, alives, from + 1);
      } else {
        DeliverWaits(s, signal, results, alives, from + 1);
      }
    }
  }

  lemma OutputWaits(r: Run, output: Output)
    requires Waits(r)
    ensures Waits(r.(output := output))
  {
  }

  lemma StepWaits(s: System, e: Event)
    requires Inv(s) && AllWait(s) && Enabled(s, e)
    ensures AllWait(Next(s, e))
  {
    match e
    case Start(_, _, _) =>
    case Stdout(i, chunk) =>
      OutputWaits(s.runs[i], AppendStdout(s.runs[i].output, chunk));
      PutWaits(s, i, s.runs[i].(output := AppendStdout(s.runs[i].output, chunk)));
    case Stderr(i, chunk) =>
      OutputWaits(s.runs[i], AppendStderr(s.runs[i].output, chunk));
      PutWaits(s, i, s.runs[i].(output := AppendStderr(s.runs[i].output, chunk)));
    case TimeoutFires(i, result) =>
      assert RunInv(s.runs[i], i in s.active);
      TimeoutWaits(s.runs[i], i in s.active, result);
      PutWaits(s, i, TimeoutRun(s.runs[i], result));
    case KillFires(i, timer, result) => FireKillWaits(s, i, timer, result);
    case ChildError(i) =>
      var r := s.runs[i].(child := s.runs[i].child.(onError := false));
      PutWaits(s, i, r);
      SettleWaits(Put(s, i, r), i, Rejected(ChildFailed));
    case ChildClose(i, code, alive) => CloseStepWaits(s, i, code, alive);
    case ParentSignal(signal, results, alives) => DeliverWaits(s, signal, results, alives, 0);
  }

  lemma {:induction false} ReachableWaits(states: seq<System>, events: seq<Event>, k: nat)
    requires Execution(states, events) && k <= |events|
    ensures AllWait(states[k])
  {
    if k > 0 {
      hide Inv, AllWait, Next, Enabled;
      ReachableWaits(states, events, k - 1);
      ReachableInv(states, events, k - 1);
      StepWaits(states[k - 1], events[k - 1]);
    }
  }

  /**
   * No settlement is lost: in every execution, a run that no signal reached and whose child has closed is settled,
   * or keeps the exit code and a grace timer that can fire and will then reject its promise as timed out.
   */
  lemma NoSettlementLost(states: seq<System>, events: seq<Event>, k: nat, i: nat) returns (timer: nat)
    requires Execution(states, events) && k <= |events| && Has(states[k], i)
    requires var r := states[k].runs[i];
             !r.child.onClose && r.parent.signal.None? && !r.settled
    ensures var s := states[k];
            && s.runs[i].childClosedResult.Some?
            && timer in s.runs[i].kills.armed && s.runs[i].kills.armed[timer] == GraceKill
            && forall result :: var e := KillFires(i, timer, result);
                 && Enabled(s, e) && Has(Next(s, e), i)
                 && Next(s, e).runs[i].settled && Next(s, e).runs[i].outcomes == [Rejected(TimedOut)]
  {
    ReachableInv(states, events, k);
    ReachableWaits(states, events, k);
    var s := states[k];
    assert Waits(s.runs[i]) && RunInv(s.runs[i], i in s.active);
    timer := s.runs[i].kills.killTimer.value;
    forall result
      ensures Enabled(s, KillFires(i, timer, result))
      ensures var s' := FireKill(s, i, timer, result);
              Has(s', i) && s'.runs[i].settled && s'.runs[i].outcomes == [Rejected(TimedOut)]
    {
      GraceSettles(s, i, timer, result);
    }
  }

  lemma GraceSettles(s: System, i: nat, timer: nat, result: SendResult)
    requires Has(s, i) && RunInv(s.runs[i], i in s.active) && !s.runs[i].settled
    requires timer in s.runs[i].kills.armed && s.runs[i].kills.armed[timer] == GraceKill
    requires s.runs[i].childClosedResult.Some?
    ensures var s' := FireKill(s, i, timer, result);
            Has(s', i) && s'.runs[i].settled && s'.runs[i].outcomes == [Rejected(TimedOut)]
  {
    assert s.runs[i].timedOut && s.runs[i].outcomes == [];
    var killed := KillRun(s.runs[i], timer, result);
    assert killed.timedOut && killed.outcomes == [] && !killed.settled;
    hide RunInv, KillRun;
  }
}
