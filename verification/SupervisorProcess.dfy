/** The callbacks as they run: each updates the closure's variables and the shared set in place. */
module SupervisorProcess {
  import opened Wrappers
  import opened BoundedOutput
  import opened Supervisor

  class Process {
    var runs: seq<Run>
    var active: set<nat>
    var raised: seq<Signal>

    ghost function State(): System
      reads this
    {
      System(runs, active, raised)
    }

    constructor ()
      ensures State() == INITIAL
    {
      runs, active, raised := [], {}, [];
    }

    method RunProcess(maxChars: int, rejectOnFailure: bool, hasPid: bool)
      requires maxChars >= 1
      modifies this
      ensures State() == Next(old(State()), Start(maxChars, rejectOnFailure, hasPid))
    {
      active := active + {|runs|};
      runs := runs + [NewRun(maxChars, rejectOnFailure, hasPid)];
    }

    method MaybeReraiseParentSignal(signal: Signal)
      modifies this`raised
      ensures State() == MaybeReraise(old(State()), signal)
    {
      var todo := active;
      while todo != {}
        invariant todo <= active
        invariant forall i | i in active && i !in todo && Has(State(), i) :: SignalledAndDone(runs[i].parent)
      {
        var i :| i in todo;
        if i < |runs| && (runs[i].parent.signal.None? || !runs[i].parent.done) {
          assert Has(State(), i) && !SignalledAndDone(State().runs[i].parent);
          return;
        }
        todo := todo - {i};
      }
      raised := raised + [signal];
    }

    method SendToChild(run: Run, signal: Signal, result: SendResult) returns (r: Run)
      ensures r == SignalChild(run, signal, result)
    {
      r := run.(child := run.child.(sent := run.child.sent + {signal}));
      if r.child.hasPid && result.Refused? {
        r := r.(output := AppendStderr(r.output, result.message));
      }
    }

    method ProcessGroupIsAlive(child: Child, alive: bool) returns (seen: bool, c: Child)
      ensures seen == (child.hasPid && alive)
      ensures c == ProbeGroup(child, alive)
    {
      seen := child.hasPid && alive;
      c := child.(groupSeenDead := child.groupSeenDead || !seen);
    }

    method SettleWith(i: nat, outcome: Outcome)
      requires i < |runs|
      modifies this`runs, this`active
      ensures State() == Settle(old(State()), i, outcome)
    {
      var r := runs[i];
      if r.settled {
        return;
      }
      r := r.(settled := true);
      r := r.(timeoutArmed := false);
      if r.parent.pending.None? && r.kills.killTimer.Some? {
        r := r.(kills := r.kills.(armed := r.kills.armed - {r.kills.killTimer.value}));
      }
      if r.parent.pending.None? {
        active := active - {i};
      }
      r := r.(parent := r.parent.(listening := false));
      r := r.(outcomes := r.outcomes + [outcome]);
      runs := runs[i := r];
    }

    method RelayToChild(run: Run, signal: Signal, result: SendResult, alive: bool) returns (seenAlive: bool, r: Run)
      ensures seenAlive == (run.child.hasPid && alive)
      ensures r == RelayRun(run, signal, result, alive)
    {
      hide Append, ArmKillTimer, ClearKillTimer, ProbeGroup;
      var parent, child, kills := run.parent, run.child, run.kills;
      parent := parent.(pending := Some(signal), signal := Some(signal));
      r := SendToChild(run, signal, result);
      parent := parent.(listening := false);
      seenAlive, child := ProcessGroupIsAlive(r.child, alive);
      if !seenAlive {
        parent := parent.(done := true);
      } else {
        kills := ClearKillTimer(kills);
        kills := ArmKillTimer(kills, RelayKill(signal));
      }
      r := r.(child := child, kills := kills, parent := parent);
    }

    method OnRelayedSignal(i: nat, signal: Signal, result: SendResult, alive: bool)
      requires i < |runs|
      modifies this
      ensures State() == Relay(old(State()), i, signal, result, alive)
    {
      hide RelayRun, AllDone;
      var seenAlive, r := RelayToChild(runs[i], signal, result, alive);
      runs := runs[i := r];
      if !seenAlive {
        MaybeReraiseParentSignal(signal);
      }
    }

    method OnParentSignal(signal: Signal, results: seq<SendResult>, alives: seq<bool>)
      requires Enabled(State(), ParentSignal(signal, results, alives))
      modifies this
      ensures State() == Next(old(State()), ParentSignal(signal, results, alives))
    {
      hide Relay;
      var i := 0;
      while i < |runs|
        invariant i <= |runs| == |results| == |alives|
        invariant Deliver(State(), signal, results, alives, i) == Deliver(old(State()), signal, results, alives, 0)
      {
        if runs[i].parent.listening {
          OnRelayedSignal(i, signal, results[i], alives[i]);
        }
        i := i + 1;
      }
    }

    method OnTimeout(i: nat, result: SendResult)
      requires Enabled(State(), TimeoutFires(i, result))
      modifies this
      ensures State() == Next(old(State()), TimeoutFires(i, result))
    {
      hide Append;
      var r := runs[i].(timeoutArmed := false, timedOut := true);
      r := SendToChild(r, SIGTERM, result);
      if !r.kills.waitingForKillGrace {
        r := r.(kills := ArmKillTimer(r.kills, GraceKill));
      }
      runs := runs[i := r];
    }

    method OnKillTimer(i: nat, timer: nat, result: SendResult)
      requires Enabled(State(), KillFires(i, timer, result))
      modifies this
      ensures State() == Next(old(State()), KillFires(i, timer, result))
    {
      var kind := runs[i].kills.armed[timer];
      var r := runs[i].(kills := runs[i].kills.(armed := runs[i].kills.armed - {timer}));
      r := r.(kills := r.kills.(waitingForKillGrace := false, killTimer := None));
      r := SendToChild(r, SIGKILL, result);
      match kind {
        case RelayKill(signal) =>
          r := r.(parent := r.parent.(done := true));
          runs := runs[i := r];
          MaybeReraiseParentSignal(signal);
        case GraceKill =>
          runs := runs[i := r];
          if r.childClosedResult.Some? {
            SettleWith(i, CloseOutcome(r, r.childClosedResult.value));
          }
      }
    }

    method OnClose(i: nat, code: Option<int>, alive: bool)
      requires Enabled(State(), ChildClose(i, code, alive))
      modifies this
      ensures State() == Next(old(State()), ChildClose(i, code, alive))
    {
      hide AllDone, CloseOutcome, Settle, ProbeGroup, ClearKillTimer;
      var r := runs[i].(child := runs[i].child.(onClose := false));
      assert r == CloseListener(runs[i]);
      if r.parent.pending.Some? {
        OnRelayedClose(i, r, code, alive);
        return;
      }
      if r.kills.waitingForKillGrace {
        var seenAlive, child := ProcessGroupIsAlive(r.child, alive);
        r := r.(child := child);
        if seenAlive {
          runs := runs[i := r.(childClosedResult := Some(code))];
          return;
        }
      }
      runs := runs[i := r];
      SettleWith(i, CloseOutcome(r, code));
    }

    /** The part of the close handler that a relayed signal takes instead of settling. */
    method OnRelayedClose(i: nat, r: Run, code: Option<int>, alive: bool)
      requires i < |runs| && r.parent.pending.Some? && r == CloseListener(runs[i])
      modifies this
      ensures State() == Close(old(State()), i, code, alive)
    {
      hide AllDone, ProbeGroup, CloseListener;
      var seenAlive, child := ProcessGroupIsAlive(r.child, alive);
      if seenAlive {
        runs := runs[i := r.(child := child, childClosedResult := Some(code))];
        return;
      }
      var kills := r.kills;
      if kills.killTimer.Some? {
        kills := kills.(armed := kills.armed - {kills.killTimer.value}).(killTimer := None);
      }
      var done := r.(child := child, kills := kills, parent := r.parent.(done := true));
      assert done == FinishRelay(Probe(r, alive));
      hide FinishRelay, Probe;
      runs := runs[i := done];
      MaybeReraiseParentSignal(r.parent.pending.value);
    }

    method OnError(i: nat)
      requires Enabled(State(), ChildError(i))
      modifies this
      ensures State() == Next(old(State()), ChildError(i))
    {
      runs := runs[i := runs[i].(child := runs[i].child.(onError := false))];
      SettleWith(i, Rejected(ChildFailed));
    }

    method OnStdout(i: nat, chunk: string)
      requires Enabled(State(), Stdout(i, chunk))
      modifies this
      ensures State() == Next(old(State()), Stdout(i, chunk))
    {
      runs := runs[i := runs[i].(output := AppendStdout(runs[i].output, chunk))];
    }

    method OnStderr(i: nat, chunk: string)
      requires Enabled(State(), Stderr(i, chunk))
      modifies this
      ensures State() == Next(old(State()), Stderr(i, chunk))
    {
      runs := runs[i := runs[i].(output := AppendStderr(runs[i].output, chunk))];
    }

    /** The event loop hands over one event: the callbacks together are the transition system. */
    method Handle(e: Event)
      requires Enabled(State(), e)
      modifies this
      ensures State() == Next(old(State()), e)
    {
      hide Next;
      match e {
        case Start(maxChars, rejectOnFailure, hasPid) => RunProcess(maxChars, rejectOnFailure, hasPid);
        case Stdout(i, chunk) => OnStdout(i, chunk);
        case Stderr(i, chunk) => OnStderr(i, chunk);
        case TimeoutFires(i, result) => OnTimeout(i, result);
        case KillFires(i, timer, result) => OnKillTimer(i, timer, result);
        case ChildError(i) => OnError(i);
        case ChildClose(i, code, alive) => OnClose(i, code, alive);
        case ParentSignal(signal, results, alives) => OnParentSignal(signal, results, alives);
      }
    }
  }
}
