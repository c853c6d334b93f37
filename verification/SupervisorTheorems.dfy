/** The promises of the supervisor, over every interleaving of any number of runs. */
module SupervisorTheorems {
  import opened Wrappers
  import opened BoundedOutput
  import opened Supervisor
  import opened SupervisorSafety

  ghost predicate AllSignalled(s: System) {
    forall i | i in s.active && Has(s, i) :: s.runs[i].parent.signal.Some?
  }

  // ------------------------------------------------------------------ which steps re-raise

  ghost predicate SameParents(s: System, m: System) {
    && m.active == s.active && m.raised == s.raised && |m.runs| == |s.runs|
    && forall i: nat | i < |s.runs| :: m.runs[i].parent == s.runs[i].parent
  }

  /** If the step from `s` to `s'` completes the last active run, it re-raises exactly when `expected`. */
  ghost predicate RaisesWhen(s: System, s': System, expected: bool) {
    !AllDone(s) && AllDone(s') ==> (s'.raised != s.raised <==> expected)
  }

  lemma SettlingLosesTheRaise(s: System, m: System, i: nat, outcome: Outcome)
    requires Inv(s) && SameParents(s, m) && Has(m, i)
    ensures RaisesWhen(s, Settle(m, i, outcome), AllSignalled(s))
  {
    var s' := Settle(m, i, outcome);
    if !AllDone(s) {
      var k :| k in s.active && Has(s, k) && !SignalledAndDone(s.runs[k].parent);
      assert RunInv(s.runs[k], true);
      assert k in s'.active ==> Has(s', k);
    }
  }

  lemma KillRaisesExactly(s: System, i: nat, timer: nat, result: SendResult)
    requires Inv(s) && Enabled(s, KillFires(i, timer, result))
    ensures RaisesWhen(s, FireKill(s, i, timer, result), AllSignalled(s))
  {
    hide RunInv, Append, Faithful;
    var killed := Put(s, i, KillRun(s.runs[i], timer, result));
    match s.runs[i].kills.armed[timer]
    case RelayKill(signal) =>
      assert AllDone(MaybeReraise(killed, signal)) == AllDone(killed);
      assert AllDone(killed) ==> AllSignalled(s) by {
        if AllDone(killed) {
          forall k | k in s.active && Has(s, k) ensures s.runs[k].parent.signal.Some? {
            assert Has(killed, k) && SignalledAndDone(killed.runs[k].parent);
          }
        }
      }
    case GraceKill =>
      assert SameParents(s, killed);
      if s.runs[i].childClosedResult.Some? {
        SettlingLosesTheRaise(s, killed, i, CloseOutcome(killed.runs[i], s.runs[i].childClosedResult.value));
      }
  }

  /** A close that completes a relayed run. */
  lemma RelayedCloseRaises(s: System, i: nat, r: Run, signal: Signal)
    requires Inv(s) && Has(s, i) && s.runs[i].parent.signal.Some?
    requires r.parent == s.runs[i].parent.(done := true)
    ensures RaisesWhen(s, MaybeReraise(Put(s, i, r), signal), AllSignalled(s))
  {
    hide RunInv;
    var put := Put(s, i, r);
    assert AllDone(MaybeReraise(put, signal)) == AllDone(put);
    if AllDone(put) {
      forall k | k in s.active && Has(s, k) ensures s.runs[k].parent.signal.Some? {
        assert Has(put, k) && SignalledAndDone(put.runs[k].parent);
      }
    }
  }

  lemma CloseRaisesExactly(s: System, i: nat, code: Option<int>, alive: bool)
    requires Inv(s) && Has(s, i)
    ensures RaisesWhen(s, Close(s, i, code, alive), AllSignalled(s))
  {
    assert RunInv(s.runs[i], i in s.active);
    ClosedRunKeepsInv(s.runs[i], i in s.active, code, alive);
    assert SameParents(s, Put(s, i, HoldClose(Probe(CloseListener(s.runs[i]), alive), code)));
    hide RunInv, RaisesWhen, Inv, CloseListener, Probe, HoldClose, FinishRelay, Evolves, MaybeReraise, Settle,
      CloseOutcome;
    var r := CloseListener(s.runs[i]);
    var p := Probe(r, alive);
    if r.parent.pending.Some? {
      if r.child.hasPid && alive {
        KeepingParentsRaisesNothing(s, Close(s, i, code, alive));
      } else {
        RelayedCloseRaises(s, i, FinishRelay(p), r.parent.pending.value);
      }
    } else if r.kills.waitingForKillGrace && r.child.hasPid && alive {
      KeepingParentsRaisesNothing(s, Close(s, i, code, alive));
    } else {
      var closed := if r.kills.waitingForKillGrace then p else r;
      SettlingLosesTheRaise(s, Put(s, i, closed), i, CloseOutcome(closed, code));
    }
  }

  lemma KeepingParentsRaisesNothing(s: System, m: System)
    requires SameParents(s, m)
    ensures AllDone(m) == AllDone(s)
    ensures forall expected :: RaisesWhen(s, m, expected)
  {
    assert forall k | k in s.active && Has(s, k) :: m.runs[k].parent == s.runs[k].parent;
    assert forall k | k in m.active && Has(m, k) :: m.runs[k].parent == s.runs[k].parent;
  }

  /**
   * The step that completes the last active run re-raises exactly when it is the delivery itself or
   * every active run had already been signalled; `SupervisorReraise` adds the steps from an already done state.
   */
  lemma RaiseExactly(s: System, e: Event)
    requires Inv(s) && Enabled(s, e)
    ensures RaisesWhen(s, Next(s, e), e.ParentSignal? || AllSignalled(s))
  {
    hide RunInv, Append, Faithful, FireKill, Close, Deliver, RaisesWhen;
    match e
    case Start(_, _, _) => StartIsNotDone(s, e);
    case Stdout(i, _) => KeepingParentsRaisesNothing(s, Next(s, e));
    case Stderr(i, _) => KeepingParentsRaisesNothing(s, Next(s, e));
    case TimeoutFires(i, _) => KeepingParentsRaisesNothing(s, Next(s, e));
    case KillFires(i, timer, result) => KillRaisesExactly(s, i, timer, result);
    case ChildError(i) =>
      SettlingLosesTheRaise(s, Put(s, i, s.runs[i].(child := s.runs[i].child.(onError := false))), i,
          Rejected(ChildFailed));
    case ChildClose(i, code, alive) => CloseRaisesExactly(s, i, code, alive);
    case ParentSignal(signal, results, alives) => DeliveryRaises(s, signal, results, alives);
  }

  lemma StartIsNotDone(s: System, e: Event)
    requires e.Start? && Enabled(s, e)
    ensures !AllDone(Next(s, e))
    ensures forall expected :: RaisesWhen(s, Next(s, e), expected)
  {
    var s' := Next(s, e);
    assert Has(s', |s.runs|) && |s.runs| in s'.active && s'.runs[|s.runs|].parent.signal.None?;
  }

  lemma DeliveryRaises(s: System, signal: Signal, results: seq<SendResult>, alives: seq<bool>)
    requires Inv(s) && Enabled(s, ParentSignal(signal, results, alives))
    ensures RaisesWhen(s, Deliver(s, signal, results, alives, 0), true)
  {
    SignalKeeps(s, signal, results, alives);
  }

  // ------------------------------------------------------------------ whole executions

  lemma {:induction false} ReachableInv(states: seq<System>, events: seq<Event>, k: nat)
    requires Execution(states, events) && k <= |events|
    ensures Inv(states[k])
  {
    if k > 0 {
      hide Next, Enabled, Inv, Progress, RaisesSafely;
      ReachableInv(states, events, k - 1);
      StepKeeps(states[k - 1], events[k - 1]);
    }
  }

  lemma StepProgress(s: System, e: Event)
    requires Inv(s) && Enabled(s, e)
    ensures Progress(s, Next(s, e)) && s.raised <= Next(s, e).raised
  {
    StepKeeps(s, e);
    hide Next, Enabled, Progress, Inv, WasRelayed, AllDone;
  }

  /** Nothing was taken back on the way, and signals were only added. */
  ghost predicate Onward(s: System, s': System) { Progress(s, s') && s.raised <= s'.raised }

  lemma OnwardIsTransitive(s: System, m: System, t: System)
    requires Onward(s, m) && Onward(m, t)
    ensures Onward(s, t)
  {
    ProgressIsTransitive(s, m, t);
    hide Progress;
  }

  lemma OnwardIsReflexive(s: System)
    ensures Onward(s, s)
  {
    ProgressIsReflexive(s);
    hide Progress;
  }

  lemma StepOnward(states: seq<System>, events: seq<Event>, k: nat)
    requires Execution(states, events) && k < |events|
    ensures Onward(states[k], states[k + 1])
  {
    hide Next, Enabled, Inv, Progress;
    ReachableInv(states, events, k);
    StepProgress(states[k], events[k]);
  }

  lemma {:induction false} ReachableOnward(states: seq<System>, events: seq<Event>, j: nat, k: nat)
    requires Execution(states, events) && j <= k <= |events|
    ensures Onward(states[j], states[k])
    decreases k - j
  {
    hide Onward, Next, Enabled;
    if j == k {
      OnwardIsReflexive(states[j]);
    } else {
      ReachableOnward(states, events, j, k - 1);
      StepOnward(states, events, k - 1);
      OnwardIsTransitive(states[j], states[k - 1], states[k]);
    }
  }

  lemma ReachableProgress(states: seq<System>, events: seq<Event>, j: nat, k: nat)
    requires Execution(states, events) && j <= k <= |events|
    ensures Progress(states[j], states[k]) && states[j].raised <= states[k].raised
  {
    ReachableOnward(states, events, j, k);
    hide Execution, Progress;
  }

  lemma ProgressIsReflexive(s: System)
    ensures Progress(s, s)
  {
  }

  /** The step added `signal` to the signals raised. */
  ghost predicate Raises(s: System, s': System, signal: Signal) { s'.raised == s.raised + [signal] }

  lemma RaisedSafely(s: System, s': System)
    requires RaisesSafely(s, s') && s'.raised != s.raised
    ensures AllDone(s') && exists signal :: Raises(s, s', signal) && WasRelayed(s', signal)
  {
    hide AllDone, WasRelayed;
    var signal :| s'.raised == s.raised + [signal] && WasRelayed(s', signal);
    assert Raises(s, s', signal);
  }

  lemma DeliveredRaise(s: System, s': System, signal: Signal)
    requires Delivered(s, s', signal) && s'.raised != s.raised
    ensures Raises(s, s', signal)
  {
  }

  lemma DeliveryRaisesIt(s: System, e: Event)
    requires Inv(s) && Enabled(s, e) && e.ParentSignal? && Next(s, e).raised != s.raised
    ensures Raises(s, Next(s, e), e.relayed)
  {
    SignalKeeps(s, e.relayed, e.results, e.alives);
    assert Delivered(s, Next(s, e), e.relayed);
    hide *;
    DeliveredRaise(s, Next(s, e), e.relayed);
  }

  lemma RaisedWhat(s: System, e: Event)
    requires Inv(s) && Enabled(s, e) && Next(s, e).raised != s.raised
    ensures exists signal :: Raises(s, Next(s, e), signal) && WasRelayed(Next(s, e), signal)
    ensures e.ParentSignal? ==> Raises(s, Next(s, e), e.relayed)
  {
    hide Next, Enabled, Inv, Progress, RaisesSafely, WasRelayed, Raises;
    StepKeeps(s, e);
    RaisedSafely(s, Next(s, e));
    if e.ParentSignal? { DeliveryRaisesIt(s, e); }
  }

  lemma CloseRaises(s: System, i: nat, code: Option<int>, alive: bool)
    requires Has(s, i) && Close(s, i, code, alive).raised != s.raised
    ensures s.runs[i].parent.pending.Some?
    ensures Close(s, i, code, alive).raised == s.raised + [s.runs[i].parent.pending.value]
  {
    CloseCases(s, i, code, alive);
    assert CloseListener(s.runs[i]).parent == s.runs[i].parent;
    hide CloseListener, Probe, HoldClose, FinishRelay, CloseOutcome, SettleRun, AllDone, Close;
  }

  lemma KillRaises(s: System, i: nat, timer: nat, result: SendResult)
    requires Has(s, i) && timer in s.runs[i].kills.armed && FireKill(s, i, timer, result).raised != s.raised
    ensures s.runs[i].kills.armed[timer].RelayKill?
    ensures FireKill(s, i, timer, result).raised == s.raised + [s.runs[i].kills.armed[timer].signal]
  {
    hide KillRun, CloseOutcome, SettleRun, AllDone;
  }

  /** A signal that is not raised by its delivery is raised by the run it was relayed to. */
  lemma RaisedByItsRun(s: System, e: Event, signal: Signal)
    requires Inv(s) && Enabled(s, e) && !e.ParentSignal? && Raises(s, Next(s, e), signal)
    ensures (e.KillFires? || e.ChildClose?) && Has(s, e.run) && s.runs[e.run].parent.signal == Some(signal)
  {
    assert |Next(s, e).raised| == |s.raised| + 1 && Next(s, e).raised[|s.raised|] == signal;
    match e
    case Start(_, _, _) =>
    case Stdout(_, _) =>
    case Stderr(_, _) =>
    case TimeoutFires(_, _) =>
    case ChildError(_) =>
    case KillFires(i, timer, result) =>
      assert RunInv(s.runs[i], i in s.active);
      KillRaises(s, i, timer, result);
      hide FireKill, RunInv;
    case ChildClose(i, code, alive) =>
      assert RunInv(s.runs[i], i in s.active);
      CloseRaises(s, i, code, alive);
      hide Close, RunInv;
  }

  /**
   * Whenever the process signals itself, it does so once, with a signal that some active run was sent and that is the
   * delivered one if the step is a delivery, and otherwise the one of the run whose timer or close it is; then every
   * active run has been signalled and is done, each of them because its group was seen dead or was sent SIGKILL, and
   * no run anywhere still holds a handler.
   */
  lemma ReraiseOnlyWhenAllDone(states: seq<System>, events: seq<Event>, k: nat) returns (signal: Signal)
    requires Execution(states, events) && k < |events|
    requires states[k + 1].raised != states[k].raised
    ensures var s := states[k + 1];
            && s.raised == states[k].raised + [signal]
            && (exists i :: i in s.active && Has(s, i) && s.runs[i].parent.signal == Some(signal))
            && (if events[k].ParentSignal? then signal == events[k].relayed
                else && (events[k].KillFires? || events[k].ChildClose?) && Has(states[k], events[k].run)
                     && states[k].runs[events[k].run].parent.signal == Some(signal))
            && (forall i | i in s.active :: Has(s, i))
            && (forall i | i in s.active ::
                  && s.runs[i].parent.signal.Some? && s.runs[i].parent.done
                  && (s.runs[i].child.groupSeenDead || SIGKILL in s.runs[i].child.sent))
            && (forall i: nat | i < |s.runs| :: !s.runs[i].parent.listening)
  {
    ReachableInv(states, events, k);
    RaisedWhat(states[k], events[k]);
    StepKeeps(states[k], events[k]);
    hide Next, Enabled;
    var s := states[k + 1];
    signal :| Raises(states[k], s, signal) && WasRelayed(s, signal);
    assert events[k].ParentSignal? ==> s.raised[|states[k].raised|] == events[k].relayed;
    if !events[k].ParentSignal? { RaisedByItsRun(states[k], events[k], signal); }
    DoneForGoodReason(s);
  }

  lemma DoneForGoodReason(s: System)
    requires Inv(s) && AllDone(s)
    ensures forall i | i in s.active :: Has(s, i)
    ensures forall i | i in s.active ::
              && s.runs[i].parent.signal.Some? && s.runs[i].parent.done
              && (s.runs[i].child.groupSeenDead || SIGKILL in s.runs[i].child.sent)
    ensures forall i: nat | i < |s.runs| :: !s.runs[i].parent.listening
  {
    NobodyListensWhenAllDone(s);
    forall i | i in s.active
      ensures s.runs[i].parent.signal.Some? && s.runs[i].parent.done
      ensures s.runs[i].child.groupSeenDead || SIGKILL in s.runs[i].child.sent
    {
      assert Has(s, i) && RunInv(s.runs[i], true);
    }
  }

  /** A signalled run that is not done always has the timer armed that will kill its group and finish it. */
  lemma RelayTimerStaysArmed(states: seq<System>, events: seq<Event>, k: nat, i: nat)
    requires Execution(states, events) && k <= |events| && Has(states[k], i)
    requires states[k].runs[i].parent.signal.Some? && !states[k].runs[i].parent.done
    ensures var r := states[k].runs[i];
            exists t :: t in r.kills.armed && r.kills.armed[t] == RelayKill(r.parent.signal.value)
  {
    ReachableInv(states, events, k);
    assert RunInv(states[k].runs[i], i in states[k].active);
  }

  /** Once a promise is settled it stays as it is; after a timeout or a parent signal it is never fulfilled. */
  lemma SettledOnceAndForAll(states: seq<System>, events: seq<Event>, j: nat, k: nat, i: nat)
    requires Execution(states, events) && j <= k <= |events| && Has(states[j], i)
    ensures Has(states[k], i)
    ensures var was, now := states[j].runs[i], states[k].runs[i];
            && |now.outcomes| <= 1
            && was.outcomes <= now.outcomes
            && (was.timedOut || was.parent.signal.Some? ==> forall o | o in now.outcomes :: o.Rejected?)
  {
    ReachableInv(states, events, j);
    ReachableInv(states, events, k);
    ReachableProgress(states, events, j, k);
    assert RunInv(states[j].runs[i], i in states[j].active);
    assert RunInv(states[k].runs[i], i in states[k].active);
    assert Evolves(states[j].runs[i], states[k].runs[i]);
  }

  /** A caller that is given exit code 0 holds everything the child ever wrote; otherwise it holds the newest part. */
  lemma FulfilledStdoutIsTheStream(states: seq<System>, events: seq<Event>, k: nat, i: nat)
    requires Execution(states, events) && k <= |events| && Has(states[k], i)
    ensures var r := states[k].runs[i];
            forall o | o in r.outcomes && o.Fulfilled? ::
              && (o.code == 0 ==> o.stdout == r.output.stream)
              && |o.stdout| == (if |r.output.stream| <= r.output.maxChars then |r.output.stream| else r.output.maxChars)
              && o.stdout == r.output.stream[|r.output.stream| - |o.stdout|..]
              && (o.code != 0 ==> !r.rejectOnFailure)
  {
    ReachableInv(states, events, k);
    assert RunInv(states[k].runs[i], i in states[k].active);
  }

  lemma DeliveryTellsAll(s: System, e: Event)
    requires Inv(s) && Enabled(s, e) && e.ParentSignal?
    ensures AllSignalled(Next(s, e))
  {
    SignalKeeps(s, e.relayed, e.results, e.alives);
    var s' := Next(s, e);
    assert Inv(s') && forall i: nat | i < |s'.runs| :: !s'.runs[i].parent.listening;
    hide Next, Enabled;
    forall i | i in s'.active && Has(s', i) ensures s'.runs[i].parent.signal.Some? {
      assert RunInv(s'.runs[i], true);
    }
  }

  lemma {:induction false} SignalledStaysSignalled(states: seq<System>, events: seq<Event>, d: nat, k: nat)
    requires Execution(states, events) && d < k <= |events| && events[d].ParentSignal?
    requires forall m :: d < m < k ==> !events[m].Start?
    ensures AllSignalled(states[k])
    decreases k
  {
    hide Inv, Next, Enabled, AllSignalled;
    ReachableInv(states, events, k - 1);
    if k == d + 1 {
      DeliveryTellsAll(states[d], events[d]);
    } else {
      SignalledStaysSignalled(states, events, d, k - 1);
      NoNewcomers(states[k - 1], events[k - 1]);
    }
  }

  lemma NoNewcomers(s: System, e: Event)
    requires Inv(s) && Enabled(s, e) && !e.Start? && AllSignalled(s)
    ensures AllSignalled(Next(s, e))
  {
    StepKeeps(s, e);
    var s' := Next(s, e);
    ActiveOnlyGrowsByStart(s, e);
    forall i | i in s'.active && Has(s', i) ensures s'.runs[i].parent.signal.Some? {
      assert Has(s, i) && Evolves(s.runs[i], s'.runs[i]);
    }
  }

  lemma ActiveOnlyGrowsByStart(s: System, e: Event)
    requires Inv(s) && Enabled(s, e) && !e.Start?
    ensures Next(s, e).active <= s.active
  {
    hide RunInv, KillRun, CloseOutcome, SettleRun;
    if e.ParentSignal? { SignalKeeps(s, e.relayed, e.results, e.alives); }
  }

  /**
   * No re-raise is lost: if no run starts after a delivery, then as soon as every active run is done the
   * process has signalled itself at least once since that delivery.
   */
  lemma {:induction false} NoReraiseLost(states: seq<System>, events: seq<Event>, d: nat, k: nat)
    requires Execution(states, events) && d < k <= |events| && events[d].ParentSignal?
    requires forall m :: d < m < k ==> !events[m].Start?
    requires AllDone(states[k])
    ensures |states[k].raised| > |states[d].raised|
    decreases k
  {
    hide Inv, Next, Enabled, AllSignalled, AllDone;
    var s := states[k - 1];
    ReachableInv(states, events, k - 1);
    RaiseExactly(s, events[k - 1]);
    ReachableProgress(states, events, k - 1, k);
    RaisedGrows(s, states[k]);
    if k == d + 1 {
      SomebodyListensWhenDelivered(s, events[d]);
    } else {
      SignalledStaysSignalled(states, events, d, k - 1);
      ReachableProgress(states, events, d, k - 1);
      RaisedGrows(states[d], s);
      if AllDone(s) {
        NoReraiseLost(states, events, d, k - 1);
      }
    }
  }

  lemma RaisedGrows(s: System, s': System)
    requires s.raised <= s'.raised
    ensures |s.raised| <= |s'.raised| && (s.raised != s'.raised ==> |s.raised| < |s'.raised|)
  {
  }

  lemma SomebodyListensWhenDelivered(s: System, e: Event)
    requires Inv(s) && e.ParentSignal? && Enabled(s, e)
    ensures !AllDone(s)
  {
    SomebodyListensMeansNotAllDone(s);
  }

  // ------------------------------------------------------------------ the relay timers suffice

  ghost predicate Path(states: seq<System>, events: seq<Event>) {
    && |states| == |events| + 1
    && forall k :: 0 <= k < |events| ==> Enabled(states[k], events[k]) && states[k + 1] == Next(states[k], events[k])
  }

  ghost function Undone(s: System): set<nat> {
    set i | i in s.active && Has(s, i) && !s.runs[i].parent.done
  }

  lemma RelayFires(s: System, i: nat) returns (e: Event)
    requires Inv(s) && AllSignalled(s) && i in Undone(s)
    ensures e.KillFires? && Enabled(s, e)
    ensures Inv(Next(s, e)) && AllSignalled(Next(s, e)) && Undone(Next(s, e)) == Undone(s) - {i}
    ensures s.raised <= Next(s, e).raised
    ensures Next(s, e).active == s.active && RaisesWhen(s, Next(s, e), true)
  {
    var r := s.runs[i];
    assert RunInv(r, true);
    var t := r.kills.killTimer.value;
    e := KillFires(i, t, Sent);
    StepKeeps(s, e);
    RaiseExactly(s, e);
    NoNewcomers(s, e);
    hide RunInv, Append;
    var s' := Next(s, e);
    assert s'.runs == s.runs[i := KillRun(r, t, Sent)] && s'.active == s.active;
    assert Undone(s') == Undone(s) - {i};
  }

  lemma PathFrom(s: System, e: Event, states: seq<System>, events: seq<Event>)
    requires Path(states, events) && Enabled(s, e) && states[0] == Next(s, e)
    ensures Path([s] + states, [e] + events)
    ensures ([s] + states)[0] == s && ([s] + states)[|[e] + events|] == states[|events|]
  {
    hide Next, Enabled;
    forall j | 0 <= j <= |events|
      ensures Enabled(([s] + states)[j], ([e] + events)[j])
      ensures ([s] + states)[j + 1] == Next(([s] + states)[j], ([e] + events)[j])
    {
      assert j > 0 ==> Enabled(states[j - 1], events[j - 1]) && states[j] == Next(states[j - 1], events[j - 1]);
    }
  }

  /** From any point where all active runs are signalled, the armed relay timers alone bring about the re-raise. */
  lemma {:induction false} RelaysFinish(s: System) returns (states: seq<System>, events: seq<Event>)
    requires Inv(s) && AllSignalled(s) && !AllDone(s)
    ensures Path(states, events) && states[0] == s
    ensures forall e | e in events :: e.KillFires?
    ensures AllDone(states[|events|]) && |states[|events|].raised| > |s.raised|
    decreases Undone(s)
  {
    var k :| k in s.active && Has(s, k) && !SignalledAndDone(s.runs[k].parent);
    var e := RelayFires(s, k);
    var next := Next(s, e);
    RaisedGrows(s, next);
    assert AllDone(next) ==> |next.raised| > |s.raised|;
    if AllDone(next) {
      states, events := [next], [];
    } else {
      states, events := RelaysFinish(next);
      RaisedGrows(s, next);
    }
    assert AllDone(states[|events|]) && |states[|events|].raised| > |s.raised|;
    PathFrom(s, e, states, events);
    states, events := [s] + states, [e] + events;
  }
}
