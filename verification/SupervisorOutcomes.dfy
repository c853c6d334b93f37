/** What the promise of a run is settled with. */
module SupervisorOutcomes {
  import opened Wrappers
  import opened BoundedOutput
  import opened Supervisor
  import opened SupervisorSafety
  import opened SupervisorTheorems
  import opened SupervisorSettling
  import opened SupervisorHistory

  /** The newest `maxChars` characters of `all`. */
  ghost predicate IsNewest(text: string, all: string, maxChars: int) {
    && |text| == (if |all| <= maxChars then |all| else maxChars)
    && text == all[|all| - |text|..]
  }

  /**
   * The caller's answer for an exit code: it is rejected for a failure if it asked for that, and for an exit 0 whose
   * stdout did not fit; otherwise it is given the code, the newest stdout and the captured stderr.
   */
  ghost predicate Answers(o: Outcome, exit: int, rejectOnFailure: bool, all: string, err: string, maxChars: int) {
    && (o.Fulfilled? <==> if exit == 0 then |all| <= maxChars else !rejectOnFailure)
    && (o.Fulfilled? ==> o.code == exit && IsNewest(o.stdout, all, maxChars) && Faithful(o.stderr, err, maxChars))
    && (o == Rejected(ExitedWith(exit)) <==> exit != 0 && rejectOnFailure)
    && (o == Rejected(TooMuchOutput) <==> exit == 0 && |all| > maxChars)
  }

  lemma CodeAnswers(r: Run, code: Option<int>, all: string, err: string)
    requires CaptureFaithful(r.output) && !r.timedOut && r.output.stream == all && r.output.errors == err
    ensures Answers(CloseOutcome(r, code), if code.Some? then code.value else 1, r.rejectOnFailure, all, err,
                    r.output.maxChars)
  {
  }

  lemma TimeoutAnswers(r: Run, code: Option<int>)
    requires r.timedOut
    ensures CloseOutcome(r, code) == Rejected(TimedOut)
  {
  }

  /** A run before its timeout has no kill timer in the way of its close; after it, only its grace timer. */
  lemma WaitsForGrace(r: Run, active: bool)
    requires RunInv(r, active) && Waits(r) && !r.settled && r.parent.signal.None? && r.child.onClose
    ensures r.kills.waitingForKillGrace <==> GraceArmed(r.kills)
    ensures GraceArmed(r.kills) ==> r.timedOut
    ensures r.outcomes == [] && CaptureFaithful(r.output)
  {
  }

  /** What a close makes of an unsettled run that no signal has reached. */
  lemma CloseSettlesOrHolds(s: System, i: nat, code: Option<int>, alive: bool)
    requires Has(s, i) && s.runs[i].parent.pending.None? && !s.runs[i].settled && s.runs[i].outcomes == []
    ensures var r, s' := s.runs[i], Close(s, i, code, alive);
            Has(s', i) &&
            if r.kills.waitingForKillGrace && r.child.hasPid && alive
            then !s'.runs[i].settled && s'.runs[i].outcomes == [] && s'.runs[i].childClosedResult == Some(code)
            else s'.runs[i].settled && s'.runs[i].outcomes == [CloseOutcome(r, code)]
  {
    CloseCases(s, i, code, alive);
    var r := CloseListener(s.runs[i]);
    var p := Probe(r, alive);
    SameAnswer(s.runs[i], code, alive);
    hide CloseOutcome, AllDone, Close, Probe, HoldClose, CloseListener, Settle;
    if !(r.kills.waitingForKillGrace && r.child.hasPid && alive) {
      var closed := if r.kills.waitingForKillGrace then p else r;
      SettlesWith(Put(s, i, closed), i, CloseOutcome(closed, code));
    }
  }

  lemma SettlesWith(s: System, i: nat, outcome: Outcome)
    requires Has(s, i) && !s.runs[i].settled && s.runs[i].outcomes == []
    ensures var s' := Settle(s, i, outcome); Has(s', i) && s'.runs[i].settled && s'.runs[i].outcomes == [outcome]
  {
  }

  lemma SameAnswer(r: Run, code: Option<int>, alive: bool)
    ensures var c := CloseListener(r);
            var p := Probe(c, alive);
            && CloseOutcome(c, code) == CloseOutcome(p, code) == CloseOutcome(r, code)
            && c.kills == r.kills && c.parent == r.parent && c.child.hasPid == r.child.hasPid
            && c.settled == p.settled == r.settled && c.outcomes == p.outcomes == r.outcomes
            && HoldClose(p, code).settled == r.settled && HoldClose(p, code).outcomes == r.outcomes
            && HoldClose(p, code).childClosedResult == Some(code)
  {
  }

  /**
   * In every execution, the close of a run that is neither settled nor signalled settles it: before its timeout with
   * the answer for the exit code and for everything its child has written, where a fatal signal counts as code 1;
   * after its timeout as timed out, unless the grace timer is armed and the group still alive.  Then the exit code is
   * kept for that timer.
   */
  lemma CloseDecides(states: seq<System>, events: seq<Event>, k: nat, i: nat, code: Option<int>, alive: bool)
    requires Execution(states, events) && k < |events| && events[k] == ChildClose(i, code, alive)
    requires Has(states[k], i) && !states[k].runs[i].settled && states[k].runs[i].parent.signal.None?
    ensures Has(states[k + 1], i)
    ensures var r, r' := states[k].runs[i], states[k + 1].runs[i];
            if r.timedOut && GraceArmed(r.kills) && r.child.hasPid && alive then
              !r'.settled && r'.childClosedResult == Some(code)
            else if r.timedOut then r'.outcomes == [Rejected(TimedOut)]
            else && |r'.outcomes| == 1
                 && Answers(r'.outcomes[0], if code.Some? then code.value else 1, r.rejectOnFailure,
                            StdoutOf(events[..k], i), StderrOf(states, events, i, k), r.output.maxChars)
  {
    var s := states[k];
    var r := s.runs[i];
    ReachableInv(states, events, k);
    ReachableWaits(states, events, k);
    RunsRecount(states, events, i, k);
    assert Enabled(s, events[k]) && states[k + 1] == Close(s, i, code, alive);
    assert RunInv(r, i in s.active) && Waits(r) && r.parent.pending.None?;
    hide Execution, Close;
    WaitsForGrace(r, i in s.active);
    CloseSettlesOrHolds(s, i, code, alive);
    hide RunInv, Waits, CloseOutcome, Answers, CaptureFaithful, StdoutOf, StderrOf, SentTo, Inv, AllWait;
    if r.timedOut {
      TimeoutAnswers(r, code);
    } else {
      CodeAnswers(r, code, StdoutOf(events[..k], i), StderrOf(states, events, i, k));
    }
  }
}
