/** Which steps of an execution re-raise, and when a re-raise is lost for good. */
module SupervisorReraise {
  import opened Wrappers
  import opened BoundedOutput
  import opened Supervisor
  import opened SupervisorSafety
  import opened SupervisorTheorems
  import opened SupervisorSettling
  import opened SupervisorPending

  // ------------------------------------------------------------------ steps from a done state

  /** A child in the shared set closes and its group is not there any more. */
  ghost predicate DeadClose(s: System, e: Event) {
    && e.ChildClose? && Has(s, e.run) && e.run in s.active
    && !(s.runs[e.run].child.hasPid && e.alive)
  }

  /** A step between two states in which every active run is signalled and done. */
  ghost predicate StaysDone(s: System, s': System, raises: bool) {
    && AllDone(s') && s'.active == s.active
    && (s'.raised != s.raised <==> raises)
  }

  lemma SameParentsStayDone(s: System, m: System)
    requires SameParents(s, m) && AllDone(s)
    ensures StaysDone(s, m, false)
  {
    KeepingParentsRaisesNothing(s, m);
  }

  /** Where everything is done, a run is signalled and stays in the set, or is settled and gone from it. */
  lemma SettlingWhenDone(s: System, m: System, i: nat, outcome: Outcome)
    requires Inv(s) && AllDone(s) && SameParents(s, m) && Has(m, i) && m.runs[i].settled == s.runs[i].settled
    ensures StaysDone(s, Settle(m, i, outcome), false)
  {
    var s' := Settle(m, i, outcome);
    assert SetAgrees(s.runs[i], i in s.active) by { assert RunInv(s.runs[i], i in s.active); }
    hide RunInv, Inv;
    forall k | k in s'.active && Has(s', k) ensures SignalledAndDone(s'.runs[k].parent) {
      assert Has(s, k) && SignalledAndDone(s.runs[k].parent);
    }
  }

  lemma KillWhenDone(s: System, i: nat, timer: nat, result: SendResult)
    requires Inv(s) && AllDone(s) && Enabled(s, KillFires(i, timer, result))
    ensures StaysDone(s, FireKill(s, i, timer, result), false)
  {
    var r := s.runs[i];
    assert RunInv(r, i in s.active);
    assert r.kills.armed[timer].GraceKill?;
    var killed := Put(s, i, KillRun(r, timer, result));
    assert SameParents(s, killed) && killed.runs[i].settled == r.settled;
    hide RunInv, Inv, KillRun, Settle, StaysDone;
    if r.childClosedResult.Some? {
      SettlingWhenDone(s, killed, i, CloseOutcome(killed.runs[i], r.childClosedResult.value));
    } else {
      SameParentsStayDone(s, killed);
    }
  }

  lemma FinishWhenDone(s: System, i: nat, r: Run, signal: Signal)
    requires AllDone(s) && Has(s, i) && r.parent == s.runs[i].parent
    ensures StaysDone(s, MaybeReraise(Put(s, i, r), signal), true)
  {
    var put := Put(s, i, r);
    SameParentsStayDone(s, put);
    assert |put.raised + [signal]| != |s.raised|;
  }

  lemma CloseWhenDone(s: System, i: nat, code: Option<int>, alive: bool)
    requires Inv(s) && AllDone(s) && Has(s, i)
    ensures StaysDone(s, Close(s, i, code, alive), DeadClose(s, ChildClose(i, code, alive)))
  {
    assert RunInv(s.runs[i], i in s.active);
    ClosedRunKeepsInv(s.runs[i], i in s.active, code, alive);
    CloseCases(s, i, code, alive);
    var r := CloseListener(s.runs[i]);
    var p := Probe(r, alive);
    assert i in s.active <==> r.parent.pending.Some?;
    assert r.parent.pending.Some? ==> s.runs[i].parent.done;
    assert SameParents(s, Put(s, i, r)) && SameParents(s, Put(s, i, p));
    assert SameParents(s, Put(s, i, HoldClose(p, code)));
    assert p.settled == r.settled == s.runs[i].settled && r.child.hasPid == s.runs[i].child.hasPid;
    hide RunInv, Inv, CloseListener, Probe, HoldClose, FinishRelay, Evolves, MaybeReraise, Settle, CloseOutcome,
      AllDone, StaysDone;
    if (r.parent.pending.Some? || r.kills.waitingForKillGrace) && r.child.hasPid && alive {
      SameParentsStayDone(s, Put(s, i, HoldClose(p, code)));
    } else if r.parent.pending.Some? {
      FinishWhenDone(s, i, FinishRelay(p), r.parent.pending.value);
    } else if r.kills.waitingForKillGrace {
      SettlingWhenDone(s, Put(s, i, p), i, CloseOutcome(p, code));
    } else {
      SettlingWhenDone(s, Put(s, i, r), i, CloseOutcome(r, code));
    }
  }

  /** In a done state only a start ends that, and only a close that finds its group dead re-raises. */
  lemma StepWhenDone(s: System, e: Event)
    requires Inv(s) && AllDone(s) && Enabled(s, e) && !e.Start?
    ensures StaysDone(s, Next(s, e), DeadClose(s, e))
  {
    hide RunInv, Inv, Append, Faithful, FireKill, Close, AllDone, StaysDone;
    match e
    case Stdout(i, _) => SameParentsStayDone(s, Next(s, e));
    case Stderr(i, _) => SameParentsStayDone(s, Next(s, e));
    case TimeoutFires(i, _) => SameParentsStayDone(s, Next(s, e));
    case KillFires(i, timer, result) => KillWhenDone(s, i, timer, result);
    case ChildError(i) =>
      SettlingWhenDone(s, Put(s, i, s.runs[i].(child := s.runs[i].child.(onError := false))), i,
          Rejected(ChildFailed));
    case ChildClose(i, code, alive) => CloseWhenDone(s, i, code, alive);
    case ParentSignal(_, _, _) => SomebodyListensWhenDelivered(s, e);
  }

  // ------------------------------------------------------------------ which steps re-raise

  /** What it takes for a step to re-raise, in terms of the state before it and whether all are done after it. */
  ghost predicate Reraises(s: System, e: Event, s': System) {
    AllDone(s') && if AllDone(s) then DeadClose(s, e) else e.ParentSignal? || AllSignalled(s)
  }

  /**
   * A step re-raises exactly when every active run is signalled and done after it and either it brings that about,
   * as the delivery itself or with every active run already signalled before, or it is a close that finds the
   * group of a run already done to be dead.
   */
  lemma StepReraisesIff(s: System, e: Event)
    requires Inv(s) && Enabled(s, e)
    ensures Next(s, e).raised != s.raised <==> Reraises(s, e, Next(s, e))
  {
    hide Next, Enabled, Inv, AllSignalled, DeadClose;
    if e.Start? {
      StartIsNotDone(s, e);
      StartRaisesNothing(s, e);
    } else if AllDone(s) {
      StepWhenDone(s, e);
    } else {
      RaiseExactly(s, e);
      StepKeeps(s, e);
    }
  }

  lemma StartRaisesNothing(s: System, e: Event)
    requires e.Start? && Enabled(s, e)
    ensures Next(s, e).raised == s.raised
  {
  }

  ghost predicate ReraisesAt(states: seq<System>, events: seq<Event>, m: nat)
    requires |states| == |events| + 1 && m < |events|
  {
    Reraises(states[m], events[m], states[m + 1])
  }

  ghost predicate ReraisesWithin(states: seq<System>, events: seq<Event>, j: nat, k: nat)
    requires |states| == |events| + 1 && k <= |events|
  {
    exists m: nat :: j <= m < k && ReraisesAt(states, events, m)
  }

  lemma WithinOneMore(states: seq<System>, events: seq<Event>, j: nat, k: nat)
    requires |states| == |events| + 1 && j <= k < |events|
    ensures ReraisesWithin(states, events, j, k + 1) <==>
            ReraisesWithin(states, events, j, k) || ReraisesAt(states, events, k)
  {
    hide ReraisesAt;
  }

  ghost predicate Adds(s: System, s': System) { s.raised <= s'.raised }

  /** Between the two states the process has signalled itself. */
  ghost predicate Raised(s: System, s': System) { s.raised != s'.raised }

  lemma NothingRaised(s: System)
    ensures Adds(s, s) && !Raised(s, s)
  {
  }

  lemma ChangedSomewhere(a: System, b: System, c: System)
    requires Adds(a, b) && Adds(b, c)
    ensures Adds(a, c) && (Raised(a, c) <==> Raised(a, b) || Raised(b, c))
  {
  }

  /** The raises of the stretch are the steps that re-raise. */
  ghost predicate Accounted(states: seq<System>, events: seq<Event>, j: nat, k: nat)
    requires |states| == |events| + 1 && j <= k <= |events|
  {
    && Adds(states[j], states[k])
    && (Raised(states[j], states[k]) <==> ReraisesWithin(states, events, j, k))
  }

  lemma NothingAccounted(states: seq<System>, events: seq<Event>, j: nat)
    requires |states| == |events| + 1 && j <= |events|
    ensures Accounted(states, events, j, j)
  {
  }

  lemma AccountedOneMore(states: seq<System>, events: seq<Event>, j: nat, k: nat)
    requires |states| == |events| + 1 && j <= k < |events|
    requires Accounted(states, events, j, k)
    requires Adds(states[k], states[k + 1])
    requires Raised(states[k], states[k + 1]) <==> ReraisesAt(states, events, k)
    ensures Accounted(states, events, j, k + 1)
  {
    hide Adds, Raised, ReraisesWithin, ReraisesAt;
    ChangedSomewhere(states[j], states[k], states[k + 1]);
    WithinOneMore(states, events, j, k);
  }

  lemma StepAccounted(states: seq<System>, events: seq<Event>, k: nat)
    requires Execution(states, events) && k < |events|
    ensures Adds(states[k], states[k + 1])
    ensures Raised(states[k], states[k + 1]) <==> ReraisesAt(states, events, k)
  {
    hide Inv, Next, Enabled, Reraises, Progress;
    ReachableInv(states, events, k);
    StepProgress(states[k], events[k]);
    StepReraisesIff(states[k], events[k]);
  }

  lemma {:induction false} AllAccounted(states: seq<System>, events: seq<Event>, j: nat, k: nat)
    requires Execution(states, events) && j <= k <= |events|
    ensures Accounted(states, events, j, k)
    decreases k
  {
    hide Accounted, Adds, Raised, ReraisesAt, Next, Enabled;
    if j == k {
      NothingAccounted(states, events, j);
    } else {
      AllAccounted(states, events, j, k - 1);
      StepAccounted(states, events, k - 1);
      AccountedOneMore(states, events, j, k - 1);
    }
  }

  /** Over any stretch of any execution, something was re-raised exactly when one of the steps was such a step. */
  lemma ReraisedIff(states: seq<System>, events: seq<Event>, j: nat, k: nat)
    requires Execution(states, events) && j <= k <= |events|
    ensures Raised(states[j], states[k]) <==> ReraisesWithin(states, events, j, k)
  {
    AllAccounted(states, events, j, k);
    hide Adds, Raised, ReraisesWithin;
  }

  // ------------------------------------------------------------------ once everything is done

  ghost predicate NoStart(events: seq<Event>, k: nat)
    requires k <= |events|
  {
    forall m :: 0 <= m < k ==> !events[m].Start?
  }

  ghost predicate DeadCloseWithin(states: seq<System>, events: seq<Event>, k: nat)
    requires |states| == |events| + 1 && k <= |events|
  {
    exists m :: 0 <= m < k && DeadClose(states[m], events[m])
  }

  ghost predicate StayedDone(s: System, s': System) {
    Inv(s') && AllDone(s') && s'.active == s.active && Progress(s, s') && Adds(s, s')
  }

  /**
   * From a state in which every active run is signalled and done, as long as no run starts: that stays so, with the
   * same active runs, and something is re-raised exactly when a close among them finds its group dead.
   */
  lemma {:induction false} DoneThenReraisesIff(states: seq<System>, events: seq<Event>, k: nat)
    requires Path(states, events) && k <= |events| && NoStart(events, k)
    requires Inv(states[0]) && AllDone(states[0])
    ensures StayedDone(states[0], states[k])
    ensures Raised(states[0], states[k]) <==> DeadCloseWithin(states, events, k)
  {
    hide Inv, Next, Enabled, AllDone, DeadClose, Progress;
    if k == 0 {
      NothingRaised(states[0]);
      ProgressIsReflexive(states[0]);
    } else {
      DoneThenReraisesIff(states, events, k - 1);
      var s, e := states[k - 1], events[k - 1];
      StepWhenDone(s, e);
      StepProgress(s, e);
      StepKeeps(s, e);
      assert Adds(s, Next(s, e)) && (Raised(s, Next(s, e)) <==> DeadClose(s, e));
      hide Adds, Raised;
      ChangedSomewhere(states[0], s, states[k]);
      ProgressIsTransitive(states[0], s, states[k]);
    }
  }

  /** Every active run's child has closed. */
  ghost predicate AllClosed(s: System) {
    forall i | i in s.active && Has(s, i) :: !s.runs[i].child.onClose
  }

  /** The process can still signal itself without another run being started first. */
  ghost predicate CanStillReraise(s: System) {
    exists states, events :: ReraisingPath(s, states, events)
  }

  ghost predicate ReraisingPath(s: System, states: seq<System>, events: seq<Event>) {
    && Path(states, events) && states[0] == s && NoStart(events, |events|)
    && Raised(s, states[|events|])
  }

  lemma LostForGood(s: System, states: seq<System>, events: seq<Event>)
    requires Inv(s) && AllDone(s) && AllClosed(s)
    requires Path(states, events) && states[0] == s && NoStart(events, |events|)
    ensures StayedDone(s, states[|events|]) && !Raised(s, states[|events|])
  {
    DoneThenReraisesIff(states, events, |events|);
    if DeadCloseWithin(states, events, |events|) {
      var m :| 0 <= m < |events| && DeadClose(states[m], events[m]);
      NoStartBefore(events, m);
      DoneThenReraisesIff(states, events, m);
      NoDeadClose(s, states[m], events[m]);
    }
  }

  lemma NoStartBefore(events: seq<Event>, m: nat)
    requires m <= |events| && NoStart(events, |events|)
    ensures NoStart(events, m)
  {
  }

  lemma NoDeadClose(s: System, s': System, e: Event)
    requires Inv(s) && AllClosed(s) && s'.active == s.active && Progress(s, s') && Enabled(s', e)
    ensures !DeadClose(s', e)
  {
    if e.ChildClose? && e.run in s.active {
      ClosedStaysClosed(s, s', e.run);
    }
  }

  lemma ClosedStaysClosed(s: System, s': System, i: nat)
    requires Inv(s) && AllClosed(s) && Progress(s, s') && i in s.active
    ensures Has(s', i) && !s'.runs[i].child.onClose
  {
    assert Has(s, i) && Evolves(s.runs[i], s'.runs[i]);
  }

  lemma CloseReraises(s: System, i: nat)
    requires Inv(s) && AllDone(s) && i in s.active && Has(s, i) && s.runs[i].child.onClose
    ensures var e := ChildClose(i, None, false); Enabled(s, e) && ReraisingPath(s, [s, Next(s, e)], [e])
  {
    StepWhenDone(s, ChildClose(i, None, false));
    hide Close;
  }

  lemma DeliveryReraises(s: System) returns (states: seq<System>, events: seq<Event>)
    requires Inv(s) && !AllSignalled(s)
    ensures ReraisingPath(s, states, events)
  {
    var e := SomeDelivery(s);
    var next := Next(s, e);
    AfterDelivery(s, e);
    hide Next, Enabled, Inv, AllDone, AllSignalled, Raised;
    if AllDone(next) {
      states, events := [s, next], [e];
    } else {
      states, events := RelaysFinish(next);
      RaisedLater(s, next, states[|events|]);
      KillsStartNothing(e, events);
      PathFrom(s, e, states, events);
      states, events := [s] + states, [e] + events;
    }
  }

  lemma SomeDelivery(s: System) returns (e: Event)
    requires Inv(s) && !AllSignalled(s)
    ensures e.ParentSignal? && Enabled(s, e)
  {
    SomebodyListens(s);
    var n := |s.runs|;
    e := ParentSignal(SIGINT, seq(n, _ => Sent), seq(n, _ => false));
  }

  lemma AfterDelivery(s: System, e: Event)
    requires Inv(s) && Enabled(s, e) && e.ParentSignal?
    ensures Inv(Next(s, e)) && AllSignalled(Next(s, e)) && Adds(s, Next(s, e))
    ensures AllDone(Next(s, e)) ==> Raised(s, Next(s, e))
  {
    hide Next, Enabled, Inv, AllDone, AllSignalled;
    DeliveryTellsAll(s, e);
    RaiseExactly(s, e);
    StepKeeps(s, e);
    StepProgress(s, e);
    SomebodyListensWhenDelivered(s, e);
  }

  lemma SomebodyListens(s: System)
    requires Inv(s) && !AllSignalled(s)
    ensures exists i :: 0 <= i < |s.runs| && s.runs[i].parent.listening
  {
    var i :| i in s.active && Has(s, i) && s.runs[i].parent.signal.None?;
    assert RunInv(s.runs[i], true);
  }

  lemma KillsStartNothing(first: Event, events: seq<Event>)
    requires !first.Start? && forall e | e in events :: e.KillFires?
    ensures NoStart(events, |events|) && NoStart([first] + events, |[first] + events|)
  {
    assert forall m :: 0 <= m < |events| ==> events[m] in events;
  }

  lemma RaisedLater(a: System, b: System, c: System)
    requires Adds(a, b) && |b.raised| < |c.raised|
    ensures Raised(a, c)
  {
  }

  /** Without another start the process can still signal itself unless all active runs are done and have closed. */
  lemma CanStillReraiseIff(s: System)
    requires Inv(s)
    ensures CanStillReraise(s) <==> !(AllDone(s) && AllClosed(s))
  {
    if AllDone(s) && AllClosed(s) {
      forall states, events ensures !ReraisingPath(s, states, events) {
        if ReraisingPath(s, states, events) { LostForGood(s, states, events); }
      }
    } else if AllDone(s) {
      var i :| i in s.active && Has(s, i) && s.runs[i].child.onClose;
      CloseReraises(s, i);
    } else if AllSignalled(s) {
      var states, events := RelaysFinish(s);
      KillsStartNothing(KillFires(0, 0, Sent), events);
      assert ReraisingPath(s, states, events);
    } else {
      var states, events := DeliveryReraises(s);
    }
  }

  // ------------------------------------------------------------------ a re-raise that is lost

  /** The first run after its delivery and after the close that finds its group dead. */
  lemma RelayedAndClosed(r: Run)
    requires r == NewRun(10, false, true)
    ensures var relayed := RelayRun(r, SIGINT, Sent, true);
            && relayed.child.onClose && !relayed.parent.listening && relayed.parent.pending == Some(SIGINT)
            && var lost := FinishRelay(Probe(CloseListener(relayed), false));
               && lost.parent == Parent(Some(SIGINT), Some(SIGINT), true, false)
               && !lost.child.onClose && !lost.settled && !MaySettle(lost)
  {
    hide Append;
  }

  lemma StartedTwice(s1: System, s2: System, s3: System, r: Run)
    requires r == NewRun(10, false, true) && s1 == System([r], {0}, [])
    requires |s2.runs| == 1 && s2.active == {0} && s3 == System(s2.runs + [r], {0, 1}, s2.raised)
    ensures var e := Start(10, false, true);
            Enabled(INITIAL, e) && Next(INITIAL, e) == s1 && Enabled(s2, e) && Next(s2, e) == s3
  {
    hide NewRun;
  }

  lemma DeliveredToOne(s: System, s': System, r: Run)
    requires s == System([r], {0}, []) && r.parent.listening && r.child.hasPid && !r.child.groupSeenDead
    requires s' == System([RelayRun(r, SIGINT, Sent, true)], {0}, [])
    requires !s'.runs[0].parent.listening
    ensures var e := ParentSignal(SIGINT, [Sent], [true]);
            Enabled(s, e) && Next(s, e) == s'
  {
    hide RelayRun;
    assert Deliver(s', SIGINT, [Sent], [true], 1) == s';
    assert s' == Relay(s, 0, SIGINT, Sent, true) == Deliver(s, SIGINT, [Sent], [true], 0);
  }

  /** Its group is dead, but the newcomer is neither signalled nor done, so nothing is raised. */
  lemma ClosedFirst(s: System, s': System, relayed: Run, r: Run)
    requires s == System([relayed, r], {0, 1}, []) && r.parent.signal.None?
    requires relayed.child.onClose && relayed.parent.pending == Some(SIGINT)
    requires s' == System([FinishRelay(Probe(CloseListener(relayed), false)), r], {0, 1}, [])
    ensures var e := ChildClose(0, None, false); Enabled(s, e) && Next(s, e) == s'
  {
    CloseCases(s, 0, None, false);
    assert CloseListener(relayed).parent == relayed.parent;
    assert Has(s', 1) && !SignalledAndDone(s'.runs[1].parent);
    hide FinishRelay, Probe, CloseListener, Close;
  }

  /** The newcomer settles and leaves the set, and nobody asks again whether all are done. */
  lemma ClosedLast(s: System, lost: Run, r: Run)
    requires r == NewRun(10, false, true) && s == System([lost, r], {0, 1}, []) && SignalledAndDone(lost.parent)
    ensures var e := ChildClose(1, Some(0), false);
            && Enabled(s, e)
            && var s' := Next(s, e);
               s'.active == {0} && s'.raised == [] && AllDone(s') && |s'.runs| == 2 && s'.runs[0] == lost
  {
    hide CloseOutcome;
  }

  lemma OneStepMore(states: seq<System>, events: seq<Event>, e: Event, s: System)
    requires Execution(states, events) && Enabled(states[|events|], e) && s == Next(states[|events|], e)
    ensures Execution(states + [s], events + [e])
    ensures (states + [s])[|events + [e]|] == s
  {
    hide Next, Enabled;
  }

  lemma LateStart() returns (states: seq<System>, events: seq<Event>)
    ensures Execution(states, events) && |events| == 5 && events[1].ParentSignal? && events[2].Start?
    ensures var s := states[5];
            && s.raised == [] && s.active == {0} && AllDone(s) && Has(s, 0)
            && !s.runs[0].child.onClose && !s.runs[0].settled && s.runs[0].parent.signal.Some?
            && !MaySettle(s.runs[0])
  {
    var r := NewRun(10, false, true);
    RelayedAndClosed(r);
    var relayed := RelayRun(r, SIGINT, Sent, true);
    var lost := FinishRelay(Probe(CloseListener(relayed), false));
    assert r.parent.listening && r.parent.signal.None? && !r.child.groupSeenDead && r.child.hasPid;
    assert SignalledAndDone(lost.parent);
    hide RelayRun, NewRun, Close, FinishRelay, Probe, CloseListener;
    var s1, s2 := System([r], {0}, []), System([relayed], {0}, []);
    var s3, s4 := System([relayed, r], {0, 1}, []), System([lost, r], {0, 1}, []);
    StartedTwice(s1, s2, s3, r);
    DeliveredToOne(s1, s2, r);
    ClosedFirst(s3, s4, relayed, r);
    ClosedLast(s4, lost, r);
    var start, deliver := Start(10, false, true), ParentSignal(SIGINT, [Sent], [true]);
    var first, last := ChildClose(0, None, false), ChildClose(1, Some(0), false);
    var s5 := Next(s4, last);
    states, events := [INITIAL], [];
    OneStepMore(states, events, start, s1);
    states, events := states + [s1], events + [start];
    OneStepMore(states, events, deliver, s2);
    states, events := states + [s2], events + [deliver];
    OneStepMore(states, events, start, s3);
    states, events := states + [s3], events + [start];
    OneStepMore(states, events, first, s4);
    states, events := states + [s4], events + [first];
    OneStepMore(states, events, last, s5);
    states, events := states + [s5], events + [last];
  }

  /**
   * The condition on newcomers in `NoReraiseLost` is needed: a run that starts after the delivery and outlives the
   * signalled run takes the re-raise with it.  At the end everything is done and nothing was raised, and until
   * another run starts nothing ever will be; and the signalled run stays unsettled unless its child emits `error`.
   */
  lemma LateStartLosesTheRaise() returns (states: seq<System>, events: seq<Event>)
    ensures Execution(states, events) && |events| == 5 && events[1].ParentSignal? && events[2].Start?
    ensures var s := states[5];
            && s.raised == [] && s.active == {0} && AllDone(s) && !CanStillReraise(s)
            && Has(s, 0) && !s.runs[0].settled && !CanSettle(s, 0, true)
  {
    states, events := LateStart();
    var s := states[5];
    ReachableInv(states, events, 5);
    ReachableWaits(states, events, 5);
    assert AllClosed(s);
    hide *;
    CanStillReraiseIff(s);
    CanSettleIff(s, 0);
  }
}
