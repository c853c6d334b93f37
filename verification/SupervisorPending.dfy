/** Which unsettled runs can still be settled, and by what. */
module SupervisorPending {
  import opened Wrappers
  import opened BoundedOutput
  import opened Supervisor
  import opened SupervisorSafety
  import opened SupervisorTheorems
  import opened SupervisorSettling
  import opened SupervisorHistory

  /**
   * A kill timer's callback will find an exit code: one is held, or the close still to come can find the group
   * alive and hold it; and a grace timer is armed, or the timeout that arms one.
   */
  ghost predicate MaySettle(r: Run) {
    && (r.childClosedResult.Some? || (r.child.onClose && r.child.hasPid && !r.child.groupSeenDead))
    && (r.timeoutArmed || GraceArmed(r.kills))
  }

  /** A way on from `s` that settles run `i`, a quiet one if the child emits no `error`. */
  ghost predicate SettlingPath(s: System, i: nat, quiet: bool, states: seq<System>, events: seq<Event>) {
    && Path(states, events) && states[0] == s
    && Has(states[|events|], i) && states[|events|].runs[i].settled
    && (quiet ==> ChildError(i) !in events)
  }

  ghost predicate CanSettle(s: System, i: nat, quiet: bool) {
    exists states, events :: SettlingPath(s, i, quiet, states, events)
  }

  // ------------------------------------------------------------------ runs that stay unsettled

  ghost predicate Stuck(r: Run, quiet: bool) {
    !r.settled && r.parent.signal.Some? && !MaySettle(r) && (quiet || !r.child.onError)
  }

  predicate Concerns(e: Event, i: nat) { !e.Start? && !e.ParentSignal? && e.run == i }

  /** A step of another run leaves a run alone that does not listen. */
  lemma OthersLeave(s: System, e: Event, i: nat)
    requires Enabled(s, e) && Has(s, i) && !s.runs[i].parent.listening && !Concerns(e, i)
    ensures Has(Next(s, e), i) && Next(s, e).runs[i] == s.runs[i]
  {
    if e.ParentSignal? {
      DeliverRun(s, e.relayed, e.results, e.alives, 0, i);
      hide Deliver;
    } else {
      OthersUntouched(s, e, i);
      hide Next;
    }
  }

  lemma TimeoutStuck(r: Run, result: SendResult, quiet: bool)
    requires Stuck(r, quiet) && r.timeoutArmed
    ensures Stuck(TimeoutRun(r, result), quiet)
  {
    hide Append;
  }

  lemma KillStuck(r: Run, active: bool, timer: nat, result: SendResult, quiet: bool)
    requires RunInv(r, active) && Stuck(r, quiet) && timer in r.kills.armed
    ensures Stuck(KillRun(r, timer, result), quiet)
    ensures r.kills.armed[timer] == GraceKill ==> r.childClosedResult.None?
  {
    hide Append, Faithful;
  }

  lemma CloseStuck(r: Run, active: bool, code: Option<int>, alive: bool, quiet: bool)
    requires RunInv(r, active) && Stuck(r, quiet) && r.child.onClose && !(alive && r.child.groupSeenDead)
    ensures var p := Probe(CloseListener(r), alive);
            if r.child.hasPid && alive then Stuck(HoldClose(p, code), quiet) else Stuck(FinishRelay(p), quiet)
  {
    hide Faithful;
  }

  lemma OwnStepStuck(s: System, e: Event, i: nat, quiet: bool)
    requires Inv(s) && Enabled(s, e) && Has(s, i) && Stuck(s.runs[i], quiet) && Concerns(e, i)
    requires quiet ==> e != ChildError(i)
    ensures Has(Next(s, e), i) && Stuck(Next(s, e).runs[i], quiet)
  {
    var r, active := s.runs[i], i in s.active;
    assert RunInv(r, active);
    assert r.parent.pending.Some?;
    match e
    case Stdout(_, _) =>
    case Stderr(_, _) =>
    case TimeoutFires(_, result) => TimeoutStuck(r, result, quiet);
    case KillFires(_, timer, result) =>
      KillStuck(r, active, timer, result, quiet);
      hide Stuck, KillRun, AllDone;
    case ChildClose(_, code, alive) =>
      CloseStuck(r, active, code, alive, quiet);
      CloseCases(s, i, code, alive);
      hide Stuck, CloseListener, Probe, HoldClose, FinishRelay, AllDone, Close;
    case ChildError(_) =>
  }

  lemma {:induction false} StuckForGood(states: seq<System>, events: seq<Event>, i: nat, quiet: bool, k: nat)
    requires Path(states, events) && k <= |events| && Inv(states[0])
    requires Has(states[0], i) && Stuck(states[0].runs[i], quiet)
    requires quiet ==> ChildError(i) !in events
    ensures Inv(states[k]) && Has(states[k], i) && Stuck(states[k].runs[i], quiet)
  {
    if k > 0 {
      StuckForGood(states, events, i, quiet, k - 1);
      var s, e := states[k - 1], events[k - 1];
      assert RunInv(s.runs[i], i in s.active) && !s.runs[i].parent.listening;
      hide Inv, Next, Enabled, RunInv, Stuck;
      StepKeeps(s, e);
      if Concerns(e, i) { OwnStepStuck(s, e, i, quiet); } else { OthersLeave(s, e, i); }
    }
  }

  // ------------------------------------------------------------------ runs that can be settled

  /** An exit code, the timeout and a relay timer in the way: what is still to happen before the grace timer fires. */
  ghost function Rank(r: Run): nat {
    (if r.childClosedResult.None? then 4 else 0)
    + (if r.timeoutArmed then 2 else 0)
    + (if r.kills.waitingForKillGrace then 1 else 0)
  }

  /** The step settles the run, or takes it closer to that. */
  ghost predicate Advances(s: System, e: Event, i: nat)
    requires Has(s, i)
  {
    && Enabled(s, e) && e != ChildError(i) && Has(Next(s, e), i)
    && var r := Next(s, e).runs[i];
       r.settled || (r.parent.signal.Some? && MaySettle(r) && Rank(r) < Rank(s.runs[i]))
  }

  lemma CloseSettles(s: System, i: nat)
    requires Inv(s) && Has(s, i) && !s.runs[i].settled && s.runs[i].parent.signal.None? && s.runs[i].child.onClose
    ensures Advances(s, ChildClose(i, None, false), i)
  {
    assert RunInv(s.runs[i], i in s.active);
    CloseCases(s, i, None, false);
    hide RunInv, CloseOutcome;
  }

  lemma CloseHolds(s: System, i: nat)
    requires Inv(s) && Has(s, i) && s.runs[i].parent.signal.Some? && MaySettle(s.runs[i])
    requires s.runs[i].childClosedResult.None?
    ensures Advances(s, ChildClose(i, None, true), i)
  {
    assert RunInv(s.runs[i], i in s.active);
    hide RunInv, AllDone, FinishRelay;
  }

  lemma GraceFires(s: System, i: nat)
    requires Inv(s) && Has(s, i) && !s.runs[i].settled
    requires s.runs[i].childClosedResult.Some? && GraceArmed(s.runs[i].kills)
    ensures Advances(s, KillFires(i, s.runs[i].kills.killTimer.value, Sent), i)
  {
    GraceSettles(s, i, s.runs[i].kills.killTimer.value, Sent);
    hide FireKill;
  }

  /** A relay timer stands in the way of the grace timer that the timeout would arm, until it fires. */
  lemma RelayGivesWay(s: System, i: nat)
    requires Inv(s) && Has(s, i) && s.runs[i].parent.signal.Some? && MaySettle(s.runs[i])
    requires s.runs[i].childClosedResult.Some? && TimerArmed(s.runs[i].kills) && !GraceArmed(s.runs[i].kills)
    ensures Advances(s, KillFires(i, s.runs[i].kills.killTimer.value, Sent), i)
  {
    assert RunInv(s.runs[i], i in s.active);
    hide RunInv, AllDone, Append;
  }

  lemma TimeoutArmsGrace(s: System, i: nat)
    requires Inv(s) && Has(s, i) && s.runs[i].parent.signal.Some? && s.runs[i].timeoutArmed
    requires s.runs[i].childClosedResult.Some? && !s.runs[i].kills.waitingForKillGrace
    ensures Advances(s, TimeoutFires(i, Sent), i)
  {
    hide Append, Inv;
  }

  lemma NextStep(s: System, i: nat) returns (e: Event)
    requires Inv(s) && AllWait(s) && Has(s, i) && !s.runs[i].settled
    requires s.runs[i].parent.signal.None? || MaySettle(s.runs[i])
    ensures Advances(s, e, i)
  {
    var r := s.runs[i];
    assert Waits(r);
    assert RunInv(r, i in s.active);
    assert TimerArmed(r.kills) && r.parent.signal.None? ==> GraceArmed(r.kills);
    assert r.child.onClose ==> r.childClosedResult.None?;
    assert TimerArmed(r.kills) ==> r.kills.waitingForKillGrace;
    hide RunInv, Inv, Advances;
    if r.parent.signal.None? && r.child.onClose {
      e := ChildClose(i, None, false);
      CloseSettles(s, i);
    } else if r.childClosedResult.None? {
      e := ChildClose(i, None, true);
      CloseHolds(s, i);
    } else if GraceArmed(r.kills) {
      e := KillFires(i, r.kills.killTimer.value, Sent);
      GraceFires(s, i);
    } else if r.kills.waitingForKillGrace {
      e := KillFires(i, r.kills.killTimer.value, Sent);
      RelayGivesWay(s, i);
    } else {
      e := TimeoutFires(i, Sent);
      TimeoutArmsGrace(s, i);
    }
  }

  lemma {:induction false} Settles(s: System, i: nat) returns (states: seq<System>, events: seq<Event>)
    requires Inv(s) && AllWait(s) && Has(s, i) && !s.runs[i].settled
    requires s.runs[i].parent.signal.None? || MaySettle(s.runs[i])
    ensures SettlingPath(s, i, true, states, events)
    decreases Rank(s.runs[i])
  {
    var e := NextStep(s, i);
    var next := Next(s, e);
    hide Next, Enabled, Inv, AllWait;
    if next.runs[i].settled {
      states, events := [s, next], [e];
    } else {
      StepKeeps(s, e);
      StepWaits(s, e);
      states, events := Settles(next, i);
      PathFrom(s, e, states, events);
      states, events := [s] + states, [e] + events;
    }
  }

  lemma ErrorSettles(s: System, i: nat)
    requires Has(s, i) && s.runs[i].child.onError
    ensures SettlingPath(s, i, false, [s, Next(s, ChildError(i))], [ChildError(i)])
  {
  }

  /**
   * An unsettled run can still be settled, without an `error` from the child, exactly when no signal has reached it
   * or `MaySettle` holds of it; with one, also when the listener for it is still there.
   */
  lemma CanSettleIff(s: System, i: nat)
    requires Inv(s) && AllWait(s) && Has(s, i) && !s.runs[i].settled
    ensures CanSettle(s, i, true) <==> s.runs[i].parent.signal.None? || MaySettle(s.runs[i])
    ensures CanSettle(s, i, false) <==>
            s.runs[i].parent.signal.None? || MaySettle(s.runs[i]) || s.runs[i].child.onError
  {
    var r := s.runs[i];
    if r.parent.signal.None? || MaySettle(r) {
      var states, events := Settles(s, i);
      assert SettlingPath(s, i, false, states, events);
    } else {
      NeverSettles(s, i, true);
      if r.child.onError { ErrorSettles(s, i); } else { NeverSettles(s, i, false); }
    }
  }

  lemma NeverSettles(s: System, i: nat, quiet: bool)
    requires Inv(s) && Has(s, i) && Stuck(s.runs[i], quiet)
    ensures !CanSettle(s, i, quiet)
  {
    forall states, events ensures !SettlingPath(s, i, quiet, states, events) {
      if SettlingPath(s, i, quiet, states, events) { StuckForGood(states, events, i, quiet, |events|); }
    }
  }

  /**
   * What settles a run: an `error` from its child; its grace timer, with an exit code held; or its close, if no signal
   * has reached it.
   */
  lemma SettledByWhat(s: System, e: Event, i: nat)
    requires Inv(s) && Enabled(s, e) && Has(s, i) && !s.runs[i].settled
    requires Has(Next(s, e), i) && Next(s, e).runs[i].settled
    ensures if e == ChildError(i) then Next(s, e).runs[i].outcomes == [Rejected(ChildFailed)]
            else if e.ChildClose? then e.run == i && s.runs[i].parent.signal.None?
            else && e.KillFires? && e.run == i && s.runs[i].kills.armed[e.timer] == GraceKill
                 && s.runs[i].childClosedResult.Some? && Next(s, e).runs[i].outcomes == [Rejected(TimedOut)]
  {
    var r := s.runs[i];
    assert RunInv(r, i in s.active);
    assert r.outcomes == [] && (r.parent.pending.Some? <==> r.parent.signal.Some?);
    hide RunInv, Inv, AllDone;
    if e.ParentSignal? {
      DeliverRun(s, e.relayed, e.results, e.alives, 0, i);
      hide Deliver, Append;
    } else if !Concerns(e, i) {
      OthersUntouched(s, e, i);
      hide Next;
    } else if e.ChildClose? {
      if r.parent.signal.Some? { RelayedCloseSettlesNot(s, i, e.code, e.alive); }
      hide Close;
    } else if e.KillFires? {
      KillSettlesIf(s, i, e.timer, e.result);
      hide FireKill;
    } else {
      hide Append;
    }
  }

  lemma RelayedCloseSettlesNot(s: System, i: nat, code: Option<int>, alive: bool)
    requires Has(s, i) && s.runs[i].parent.pending.Some?
    ensures var s' := Close(s, i, code, alive); Has(s', i) && s'.runs[i].settled == s.runs[i].settled
  {
    CloseCases(s, i, code, alive);
    hide AllDone, Close;
  }

  lemma KillSettlesIf(s: System, i: nat, timer: nat, result: SendResult)
    requires Inv(s) && Has(s, i) && !s.runs[i].settled && timer in s.runs[i].kills.armed
    ensures var r, s' := s.runs[i], FireKill(s, i, timer, result);
            && Has(s', i)
            && (s'.runs[i].settled ==> && r.kills.armed[timer] == GraceKill && r.childClosedResult.Some?
                                       && s'.runs[i].outcomes == [Rejected(TimedOut)])
  {
    var r := s.runs[i];
    assert RunInv(r, i in s.active);
    hide RunInv, Inv, AllDone, CloseOutcome, Append;
    if r.kills.armed[timer] == GraceKill && r.childClosedResult.Some? {
      GraceSettles(s, i, timer, result);
    }
  }
}
