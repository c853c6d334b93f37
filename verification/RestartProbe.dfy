/** Polling a gateway through its restart (`waitForRestartProbe`). */
module RestartProbe {
  import opened Text
  import opened Wrappers

  /** One turn of the loop: the clock at its guard, the two callbacks, what the request brought and when it ended. */
  datatype Poll = Poll(clock: int, processDone: bool, done: bool,
                       status: Option<nat>, errorKind: Option<string>, now: int)

  datatype Transition = Transition(ms: int, status: Option<nat>, errorKind: Option<string>)

  datatype ProbeResult = ProbeResult(downtimeMs: Option<int>, firstErrorKind: Option<string>,
                                     firstRecoveryMs: Option<int>, ms: Option<int>, status: Option<nat>,
                                     transitions: seq<Transition>, unavailableMs: Option<int>)

  // ------------------------------------------------------------------ the state of one attempt

  predicate Up(p: Poll) { p.status == Some(200) }

  /** An empty error kind counts as none, except in the state key. */
  function Kind(p: Poll): Option<string> { if p.errorKind == Some("") then None else p.errorKind }

  function StatusText(status: Option<nat>): string {
    match status
    case None => "none"
    case Some(n) => Decimal(n)
  }

  function StateKey(p: Poll): string { StatusText(p.status) + ":" + p.errorKind.GetOr("ok") }

  lemma {:induction false} SplitAtColon(a: string, b: string, c: string, d: string)
    requires ':' !in a && ':' !in c && a + ":" + b == c + ":" + d
    ensures a == c && b == d
  {
    var s := a + ":" + b;
    assert s[0] == if a == "" then ':' else a[0];
    assert s[0] == if c == "" then ':' else c[0];
    if a == "" {
      assert s[1..] == b && s[1..] == d;
    } else {
      assert a[1..] + ":" + b == s[1..] == c[1..] + ":" + d;
      SplitAtColon(a[1..], b, c[1..], d);
      assert a == [a[0]] + a[1..] && c == [c[0]] + c[1..];
    }
  }

  lemma StatusTextKind(status: Option<nat>)
    ensures ':' !in StatusText(status) && StatusText(status) != ""
    ensures status.Some? <==> IsDigit(StatusText(status)[0])
  {
  }

  /** Two attempts share a key exactly when status and error agree, where an error named "ok" passes for none. */
  lemma SameKey(p: Poll, q: Poll)
    ensures StateKey(p) == StateKey(q) <==> p.status == q.status && p.errorKind.GetOr("ok") == q.errorKind.GetOr("ok")
  {
    StatusTextKind(p.status);
    StatusTextKind(q.status);
    if StateKey(p) == StateKey(q) {
      SplitAtColon(StatusText(p.status), p.errorKind.GetOr("ok"), StatusText(q.status), q.errorKind.GetOr("ok"));
      if p.status.Some? {
        ValueOfDecimal(p.status.value);
        ValueOfDecimal(q.status.value);
      }
    }
  }

  // ------------------------------------------------------------------ what a row of attempts amounts to

  /** The first attempt without a 200, or the number of attempts. */
  function FirstDown(a: seq<Poll>): (u: nat)
    ensures u <= |a| && (u < |a| ==> !Up(a[u]))
    ensures forall i :: 0 <= i < u ==> Up(a[i])
  {
    if a == [] || !Up(a[0]) then 0 else 1 + FirstDown(a[1..])
  }

  predicate Recovered(a: seq<Poll>) { exists r :: FirstDown(a) < r < |a| && Up(a[r]) }

  function FirstKind(a: seq<Poll>): Option<string> {
    if a == [] then None else if Kind(a[0]).Some? then Kind(a[0]) else FirstKind(a[1..])
  }

  function TransitionOf(p: Poll, from: int): Transition { Transition(p.now - from, p.status, Kind(p)) }

  /** The attempt's state is not that of the attempt before it. */
  predicate Change(a: seq<Poll>, i: nat)
    requires i < |a|
  {
    i == 0 || StateKey(a[i]) != StateKey(a[i - 1])
  }

  /** The attempts with repeats of the state before them removed, as times after `from`. */
  function Transitions(a: seq<Poll>, from: int): seq<Transition> {
    if a == [] then []
    else
      var n := |a| - 1;
      Transitions(a[..n], from)
      + if Change(a, n) then [TransitionOf(a[n], from)] else []
  }

  /** The loop goes on to poll `i`: nothing before it has stopped the loop, and nothing does now. */
  predicate Polls(polls: seq<Poll>, i: nat, deadlineAt: int)
    requires i < |polls|
  {
    && polls[i].clock < deadlineAt && !polls[i].processDone
    && !(polls[i].done && i > 0 && FirstDown(polls[..i]) == i)
    && !Recovered(polls[..i])
  }

  predicate Reports(a: seq<Poll>, signalSentAt: int, r: ProbeResult) {
    var u := FirstDown(a);
    && r.transitions == Transitions(a, signalSentAt)
    && r.firstErrorKind == FirstKind(a)
    && r.status == (if a == [] then None else a[|a| - 1].status)
    && r.unavailableMs == (if u < |a| then Some(a[u].now - signalSentAt) else None)
    && r.downtimeMs == (if Recovered(a) then Some(a[|a| - 1].now - a[u].now) else None)
    && r.firstRecoveryMs == (if Recovered(a) then Some(a[|a| - 1].now - signalSentAt) else None)
    && r.ms == (if Recovered(a) || (a != [] && u == |a|) then Some(a[|a| - 1].now - signalSentAt) else None)
  }

  // ------------------------------------------------------------------ one attempt more

  lemma {:induction false} FirstDownIs(a: seq<Poll>, u: nat)
    requires u <= |a| && (u < |a| ==> !Up(a[u]))
    requires forall i :: 0 <= i < u ==> Up(a[i])
    ensures FirstDown(a) == u
  {
    if u > 0 {
      assert Up(a[0]);
      FirstDownIs(a[1..], u - 1);
    }
  }

  lemma OneMoreDown(a: seq<Poll>, p: Poll)
    ensures FirstDown(a + [p]) == if FirstDown(a) < |a| || !Up(p) then FirstDown(a) else |a| + 1
    ensures Recovered(a + [p]) <==> Recovered(a) || (FirstDown(a) < |a| && Up(p))
  {
    hide Up;
    var all, u := a + [p], FirstDown(a);
    FirstDownIs(all, if u < |a| || !Up(p) then u else |a| + 1);
    RecoveredOneMore(a, p);
  }

  lemma RecoveredOneMore(a: seq<Poll>, p: Poll)
    requires FirstDown(a + [p]) == if FirstDown(a) < |a| || !Up(p) then FirstDown(a) else |a| + 1
    ensures Recovered(a + [p]) <==> Recovered(a) || (FirstDown(a) < |a| && Up(p))
  {
    hide Up, FirstDown;
    var all := a + [p];
    if Recovered(a) {
      var r :| FirstDown(a) < r < |a| && Up(a[r]);
      assert Up(all[r]);
    }
    assert all[|a|] == p;
  }

  lemma {:induction false} OneMoreKind(a: seq<Poll>, p: Poll)
    ensures FirstKind(a + [p]) == if FirstKind(a).Some? then FirstKind(a) else Kind(p)
  {
    if a == [] {
      assert (a + [p])[1..] == [];
    } else {
      OneMoreKind(a[1..], p);
      assert (a + [p])[1..] == a[1..] + [p];
    }
  }

  lemma {:induction false} OneMoreTransition(a: seq<Poll>, p: Poll, from: int)
    ensures Transitions(a + [p], from) == Transitions(a, from)
            + if a == [] || StateKey(p) != StateKey(a[|a| - 1]) then [TransitionOf(p, from)] else []
  {
    hide StateKey, TransitionOf;
    var all := a + [p];
    assert all[..|a|] == a && all[|a|] == p;
    assert a != [] ==> all[|a| - 1] == a[|a| - 1];
  }

  // ------------------------------------------------------------------ the loop

  /** What the loop's variables hold after the attempts `a`. */
  ghost predicate Remembers(a: seq<Poll>, from: int, firstErrorKind: Option<string>, lastStatus: Option<nat>,
                            lastStateKey: Option<string>, lastSuccessMs: Option<int>, unavailableMs: Option<int>) {
    var n, u := |a|, FirstDown(a);
    && firstErrorKind == FirstKind(a)
    && lastStatus == (if n == 0 then None else a[n - 1].status)
    && lastStateKey == (if n == 0 then None else Some(StateKey(a[n - 1])))
    && unavailableMs == (if u < n then Some(a[u].now - from) else None)
    && (u == n > 0 ==> lastSuccessMs == Some(a[n - 1].now - from))
    && (n == 0 ==> lastSuccessMs == None)
  }

  lemma RemembersNext(a: seq<Poll>, p: Poll, from: int, firstErrorKind: Option<string>, lastStatus: Option<nat>,
                      lastStateKey: Option<string>, lastSuccessMs: Option<int>, unavailableMs: Option<int>)
    requires Remembers(a, from, firstErrorKind, lastStatus, lastStateKey, lastSuccessMs, unavailableMs)
    ensures Remembers(a + [p], from,
                      if Kind(p).Some? && firstErrorKind == None then p.errorKind else firstErrorKind,
                      p.status, Some(StateKey(p)),
                      if Up(p) then Some(p.now - from) else lastSuccessMs,
                      if !Up(p) && unavailableMs == None then Some(p.now - from) else unavailableMs)
    ensures Recovered(a + [p]) <==> Recovered(a) || (unavailableMs != None && Up(p))
  {
    OneMoreDown(a, p);
    OneMoreKind(a, p);
    hide FirstDown, FirstKind, Recovered, StateKey, Up;
    assert (a + [p])[|a|] == p;
  }

  lemma NothingRemembered(from: int)
    ensures Remembers([], from, None, None, None, None, None) && !Recovered([])
    ensures Transitions([], from) == []
  {
  }

  /** The loop ended without a recovery. */
  lemma ReportsEnd(a: seq<Poll>, from: int, firstErrorKind: Option<string>, lastStatus: Option<nat>,
                   lastStateKey: Option<string>, lastSuccessMs: Option<int>, unavailableMs: Option<int>)
    requires Remembers(a, from, firstErrorKind, lastStatus, lastStateKey, lastSuccessMs, unavailableMs)
    requires !Recovered(a)
    ensures Reports(a, from, ProbeResult(None, firstErrorKind, None,
                                         if unavailableMs == None then lastSuccessMs else None,
                                         lastStatus, Transitions(a, from), unavailableMs))
    ensures unavailableMs == None && lastSuccessMs != None <==> FirstDown(a) == |a| > 0
    ensures unavailableMs == None && lastSuccessMs != None ==> lastStatus == Some(200)
  {
    hide FirstKind, StateKey, Transitions;
  }

  /** The last attempt was the recovery. */
  lemma ReportsRecovery(a: seq<Poll>, from: int, firstErrorKind: Option<string>, lastStatus: Option<nat>,
                        lastStateKey: Option<string>, lastSuccessMs: Option<int>, unavailableMs: Option<int>)
    requires Remembers(a, from, firstErrorKind, lastStatus, lastStateKey, lastSuccessMs, unavailableMs)
    requires Recovered(a)
    ensures a != [] && unavailableMs.Some?
    ensures var elapsedMs := a[|a| - 1].now - from;
            Reports(a, from, ProbeResult(Some(elapsedMs - unavailableMs.value), firstErrorKind, Some(elapsedMs),
                                         Some(elapsedMs), lastStatus, Transitions(a, from), unavailableMs))
  {
    hide FirstKind, StateKey, Transitions;
  }

  /** `n` counts the attempts made; `events` is what the loop adds to the shared list. */
  method WaitForRestartProbe(polls: seq<Poll>, deadlineAt: int, sampleStartAt: int, signalSentAt: int)
    returns (n: nat, r: ProbeResult, events: seq<Transition>)
    ensures n <= |polls|
    ensures forall i :: 0 <= i < n ==> Polls(polls, i, deadlineAt)
    ensures n == |polls| || !Polls(polls, n, deadlineAt)
    ensures Reports(polls[..n], signalSentAt, r)
    ensures events == Transitions(polls[..n], sampleStartAt)
  {
    hide StateKey, Transitions, FirstKind, FirstDown, Recovered, Remembers, Reports;
    NothingRemembered(signalSentAt);
    NothingRemembered(sampleStartAt);
    assert polls[..0] == [];
    n := 0;
    events := [];
    var firstErrorKind: Option<string>, firstRecoveryMs: Option<int> := None, None;
    var lastStatus: Option<nat>, lastStateKey: Option<string> := None, None;
    var lastSuccessMs: Option<int>, unavailableMs: Option<int> := None, None;
    var transitions: seq<Transition> := [];
    while n < |polls| && polls[n].clock < deadlineAt
      invariant n <= |polls| && forall i :: 0 <= i < n ==> Polls(polls, i, deadlineAt)
      invariant !Recovered(polls[..n]) && firstRecoveryMs == None
      invariant Remembers(polls[..n], signalSentAt, firstErrorKind, lastStatus, lastStateKey, lastSuccessMs,
                          unavailableMs)
      invariant lastStateKey == if n == 0 then None else Some(StateKey(polls[n - 1]))
      invariant transitions == Transitions(polls[..n], signalSentAt)
      invariant events == Transitions(polls[..n], sampleStartAt)
    {
      ghost var before := polls[..n];
      if polls[n].processDone {
        break;
      }
      ReportsEnd(before, signalSentAt, firstErrorKind, lastStatus, lastStateKey, lastSuccessMs, unavailableMs);
      if polls[n].done && unavailableMs == None && lastSuccessMs != None {
        r := ProbeResult(None, firstErrorKind, firstRecoveryMs, lastSuccessMs, Some(200), transitions, None);
        return;
      }
      assert Polls(polls, n, deadlineAt);
      var attempt := polls[n];
      assert polls[..n + 1] == before + [attempt];
      assert n > 0 ==> before[n - 1] == polls[n - 1];
      RemembersNext(before, attempt, signalSentAt, firstErrorKind, lastStatus, lastStateKey, lastSuccessMs,
                    unavailableMs);
      OneMoreTransition(before, attempt, signalSentAt);
      OneMoreTransition(before, attempt, sampleStartAt);
      hide Polls, Up, Kind;
      var elapsedMs := attempt.now - signalSentAt;
      lastStatus := attempt.status;
      var stateKey := StateKey(attempt);
      if Some(stateKey) != lastStateKey {
        transitions := transitions + [TransitionOf(attempt, signalSentAt)];
        events := events + [TransitionOf(attempt, sampleStartAt)];
        lastStateKey := Some(stateKey);
      }
      if Kind(attempt).Some? && firstErrorKind == None {
        firstErrorKind := attempt.errorKind;
      }
      if !Up(attempt) && unavailableMs == None {
        unavailableMs := Some(elapsedMs);
      }
      if Up(attempt) {
        lastSuccessMs := Some(elapsedMs);
      }
      n := n + 1;
      if Up(attempt) && unavailableMs != None {
        firstRecoveryMs := Some(elapsedMs);
        assert polls[..n][n - 1] == attempt && transitions == Transitions(polls[..n], signalSentAt);
        r := ProbeResult(Some(elapsedMs - unavailableMs.value), firstErrorKind, firstRecoveryMs, Some(elapsedMs),
                         attempt.status, transitions, unavailableMs);
        ReportsRecovery(polls[..n], signalSentAt, firstErrorKind, lastStatus, lastStateKey, lastSuccessMs,
                        unavailableMs);
        RecoveredStops(polls, n, deadlineAt);
        return;
      }
    }
    ReportsEnd(polls[..n], signalSentAt, firstErrorKind, lastStatus, lastStateKey, lastSuccessMs, unavailableMs);
    r := ProbeResult(None, firstErrorKind, firstRecoveryMs, if unavailableMs == None then lastSuccessMs else None,
                     lastStatus, transitions, unavailableMs);
  }

  lemma RecoveredStops(polls: seq<Poll>, n: nat, deadlineAt: int)
    requires n <= |polls| && Recovered(polls[..n])
    ensures n < |polls| ==> !Polls(polls, n, deadlineAt)
  {
  }

  // ------------------------------------------------------------------ what the result says

  /** A recovery is the last attempt made: the first 200 after the first attempt without one. */
  lemma StopsAtFirstRecovery(polls: seq<Poll>, n: nat, deadlineAt: int)
    requires n <= |polls| && forall i :: 0 <= i < n ==> Polls(polls, i, deadlineAt)
    requires Recovered(polls[..n])
    ensures var u := FirstDown(polls[..n]);
            && u < n - 1 && polls[n - 1].status == Some(200) && polls[u].status != Some(200)
            && (forall i :: 0 <= i < u ==> polls[i].status == Some(200))
            && (forall i :: u < i < n - 1 ==> polls[i].status != Some(200))
  {
    assert polls[..n] == polls[..n - 1] + [polls[n - 1]];
    OneMoreDown(polls[..n - 1], polls[n - 1]);
    assert Polls(polls, n - 1, deadlineAt);
    var u := FirstDown(polls[..n]);
    assert !Recovered(polls[..n - 1]) && u == FirstDown(polls[..n - 1]);
    forall i | u < i < n - 1 ensures !Up(polls[i]) {
      assert polls[..n - 1][i] == polls[i];
    }
  }

  /** Whether the loop makes an attempt: in time, while the process runs, before a recovery, and until it is done. */
  lemma PollsDecides(polls: seq<Poll>, i: nat, deadlineAt: int)
    requires i < |polls|
    ensures Polls(polls, i, deadlineAt) <==>
            && polls[i].clock < deadlineAt && !polls[i].processDone
            && !(polls[i].done && i > 0 && forall j :: 0 <= j < i ==> polls[j].status == Some(200))
            && !exists u, v :: 0 <= u < v < i && polls[u].status != Some(200) && polls[v].status == Some(200)
  {
    var a := polls[..i];
    assert forall j :: 0 <= j < i ==> a[j] == polls[j];
    RecoveredIs(a);
    assert FirstDown(a) == i <==> forall j :: 0 <= j < i ==> Up(a[j]);
  }

  /** A request was answered with 200 after one that was not. */
  ghost predicate Recovers(a: seq<Poll>, u: int, v: int) {
    0 <= u < v < |a| && a[u].status != Some(200) && a[v].status == Some(200)
  }

  lemma RecoveredIs(a: seq<Poll>)
    ensures Recovered(a) <==> exists u, v :: Recovers(a, u, v)
  {
    if Recovered(a) {
      var r :| FirstDown(a) < r < |a| && Up(a[r]);
      assert Recovers(a, FirstDown(a), r);
    }
    if u, v :| Recovers(a, u, v) { assert FirstDown(a) <= u; }
  }

  /** Attempt `u` is the first that was not answered with 200. */
  ghost predicate GoesDownAt(a: seq<Poll>, u: nat) {
    u < |a| && a[u].status != Some(200) && forall i :: 0 <= i < u ==> a[i].status == Some(200)
  }

  ghost predicate FirstErrorAt(a: seq<Poll>, i: nat) {
    && i < |a| && a[i].errorKind.Some? && a[i].errorKind.value != ""
    && forall j :: 0 <= j < i ==> a[j].errorKind.None? || a[j].errorKind.value == ""
  }

  lemma {:induction false} FirstKindIs(a: seq<Poll>, kind: string)
    ensures FirstKind(a) == Some(kind) <==> exists i: nat :: FirstErrorAt(a, i) && a[i].errorKind == Some(kind)
  {
    if a != [] {
      FirstKindIs(a[1..], kind);
      forall i: nat | i > 0 ensures FirstErrorAt(a, i) <==> Kind(a[0]).None? && FirstErrorAt(a[1..], i - 1) {
        if i < |a| { assert forall j :: 0 < j <= i ==> a[j] == a[1..][j - 1]; }
      }
      if FirstErrorAt(a[1..], 0) { assert Kind(a[0]).None? ==> FirstErrorAt(a, 1); }
      forall i: nat | FirstErrorAt(a[1..], i) ensures Kind(a[0]).None? ==> FirstErrorAt(a, i + 1) {
        assert FirstErrorAt(a, i + 1) <==> Kind(a[0]).None? && FirstErrorAt(a[1..], i + 1 - 1);
      }
      assert Kind(a[0]).Some? ==> FirstErrorAt(a, 0);
    }
  }

  /** The clock does not run backwards from one attempt to the next. */
  ghost predicate ClockRuns(polls: seq<Poll>) {
    forall i, j :: 0 <= i < j < |polls| ==> polls[i].now <= polls[j].now
  }

  /** The first attempt without a 200 is where the service goes down, if it does. */
  lemma FirstDownDecides(a: seq<Poll>)
    ensures forall u: nat :: GoesDownAt(a, u) <==> u == FirstDown(a) < |a|
    ensures FirstDown(a) == |a| <==> forall i :: 0 <= i < |a| ==> a[i].status == Some(200)
  {
    forall u: nat | GoesDownAt(a, u) ensures u == FirstDown(a) { assert !Up(a[u]); }
  }

  lemma FirstKindDecides(a: seq<Poll>)
    ensures forall kind :: FirstKind(a) == Some(kind) <==>
              exists i: nat :: FirstErrorAt(a, i) && a[i].errorKind == Some(kind)
  {
    forall kind
      ensures FirstKind(a) == Some(kind) <==> exists i: nat :: FirstErrorAt(a, i) && a[i].errorKind == Some(kind)
    {
      FirstKindIs(a, kind);
    }
  }

  /** The outage that a report is about starts at attempt `u`. */
  ghost predicate OutageFrom(a: seq<Poll>, from: int, r: ProbeResult, u: nat) {
    && GoesDownAt(a, u) && r.unavailableMs == Some(a[u].now - from)
    && (r.downtimeMs.Some? ==> r.downtimeMs == Some(a[|a| - 1].now - a[u].now))
  }

  ghost predicate AllUp(a: seq<Poll>) { forall i :: 0 <= i < |a| ==> a[i].status == Some(200) }

  lemma TimesSay(a: seq<Poll>, from: int, r: ProbeResult)
    requires Reports(a, from, r)
    ensures r.status == if a == [] then None else a[|a| - 1].status
    ensures r.firstErrorKind == FirstKind(a)
    ensures r.downtimeMs.Some? <==> Recovered(a)
    ensures r.downtimeMs.Some? ==> a != [] && r.firstRecoveryMs == r.ms == Some(a[|a| - 1].now - from)
    ensures r.downtimeMs.None? ==>
              && r.firstRecoveryMs.None?
              && r.ms == if a != [] && FirstDown(a) == |a| then Some(a[|a| - 1].now - from) else None
  {
    hide FirstKind, Transitions;
  }

  lemma OutageSays(a: seq<Poll>, from: int, r: ProbeResult)
    requires Reports(a, from, r)
    ensures if AllUp(a) then r.unavailableMs.None? && r.downtimeMs.None? else exists u: nat :: OutageFrom(a, from, r, u)
  {
    FirstDownDecides(a);
    assert Recovered(a) ==> FirstDown(a) < |a|;
    hide FirstKind, Transitions, FirstDown, Recovered, GoesDownAt;
    if !AllUp(a) { assert OutageFrom(a, from, r, FirstDown(a)); }
  }

  /**
   * What is reported of the attempts: the last status; the first error there was; when the first attempt without a
   * 200 was over; and on recovery, the time from then to the last attempt, which is also the time of the success.
   */
  lemma ReportSays(a: seq<Poll>, from: int, r: ProbeResult)
    requires Reports(a, from, r)
    ensures r.status == if a == [] then None else a[|a| - 1].status
    ensures forall kind :: r.firstErrorKind == Some(kind) <==>
              exists i: nat :: FirstErrorAt(a, i) && a[i].errorKind == Some(kind)
    ensures if AllUp(a) then r.unavailableMs.None? && r.downtimeMs.None? else exists u: nat :: OutageFrom(a, from, r, u)
    ensures r.downtimeMs.Some? <==> exists u, v :: Recovers(a, u, v)
    ensures r.downtimeMs.Some? ==> a != [] && r.firstRecoveryMs == r.ms == Some(a[|a| - 1].now - from)
    ensures r.downtimeMs.None? ==>
              && r.firstRecoveryMs.None?
              && r.ms == if a != [] && AllUp(a) then Some(a[|a| - 1].now - from) else None
  {
    RecoveredIs(a);
    FirstDownDecides(a);
    FirstKindDecides(a);
    assert AllUp(a) <==> FirstDown(a) == |a|;
    hide *;
    TimesSay(a, from, r);
    OutageSays(a, from, r);
  }

  /** The reported outage lasts from attempt `u`, the first without a 200, to the last one made, the next 200. */
  ghost predicate Outage(polls: seq<Poll>, n: nat, from: int, r: ProbeResult, u: nat)
    requires n <= |polls|
  {
    && GoesDownAt(polls, u) && u < n - 1 && polls[n - 1].status == Some(200)
    && (forall i :: u < i < n - 1 ==> polls[i].status != Some(200))
    && r.unavailableMs == Some(polls[u].now - from)
    && r.downtimeMs == Some(polls[n - 1].now - polls[u].now)
    && r.firstRecoveryMs == r.ms == Some(polls[n - 1].now - from)
  }

  lemma OutageFound(polls: seq<Poll>, n: nat, deadlineAt: int, from: int, r: ProbeResult)
    requires n <= |polls| && forall i :: 0 <= i < n ==> Polls(polls, i, deadlineAt)
    requires Reports(polls[..n], from, r) && Recovered(polls[..n])
    ensures Outage(polls, n, from, r, FirstDown(polls[..n]))
  {
    StopsAtFirstRecovery(polls, n, deadlineAt);
    var a := polls[..n];
    assert a[n - 1] == polls[n - 1] && a[FirstDown(a)] == polls[FirstDown(a)];
    hide Recovered, Polls, FirstDown, FirstKind, Transitions;
  }

  /** A downtime is reported exactly on recovery, from the first attempt without a 200 to the next 200. */
  lemma DowntimeIsTheOutage(polls: seq<Poll>, n: nat, deadlineAt: int, signalSentAt: int, r: ProbeResult)
    requires n <= |polls| && forall i :: 0 <= i < n ==> Polls(polls, i, deadlineAt)
    requires Reports(polls[..n], signalSentAt, r) && ClockRuns(polls)
    ensures r.downtimeMs.Some? <==>
            exists u, v :: 0 <= u < v < n && polls[u].status != Some(200) && polls[v].status == Some(200)
    ensures r.downtimeMs.Some? ==>
              r.downtimeMs.value >= 0 && exists u: nat :: Outage(polls, n, signalSentAt, r, u)
    ensures r.ms.Some? <==>
            r.downtimeMs.Some? || (n > 0 && forall i :: 0 <= i < n ==> polls[i].status == Some(200))
  {
    var a := polls[..n];
    SameOutages(polls, n);
    ReportSays(a, signalSentAt, r);
    RecoveredIs(a);
    hide Reports, Polls, Recovered, FirstErrorAt, FirstDown, Recovers;
    if Recovered(a) { OutageFound(polls, n, deadlineAt, signalSentAt, r); }
  }

  lemma SameOutages(polls: seq<Poll>, n: nat)
    requires n <= |polls|
    ensures var a := polls[..n];
            && (exists u, v :: Recovers(a, u, v)) ==
               (exists u, v :: 0 <= u < v < n && polls[u].status != Some(200) && polls[v].status == Some(200))
            && AllUp(a) == (forall i :: 0 <= i < n ==> polls[i].status == Some(200))
            && forall i :: 0 <= i < n ==> a[i] == polls[i]
  {
    var a := polls[..n];
    if u, v :| 0 <= u < v < n && polls[u].status != Some(200) && polls[v].status == Some(200) {
      assert Recovers(a, u, v);
    }
  }

  /** `at` lists, in order, exactly the attempts at which the state changed. */
  ghost predicate ListsChanges(a: seq<Poll>, at: seq<nat>) {
    && (forall i, j :: 0 <= i < j < |at| ==> at[i] < at[j])
    && (forall k :: 0 <= k < |at| ==> at[k] < |a| && Change(a, at[k]))
    && (forall i :: 0 <= i < |a| && Change(a, i) ==> i in at)
  }

  lemma SameChange(a: seq<Poll>, n: nat, i: nat)
    requires i < n <= |a|
    ensures Change(a[..n], i) == Change(a, i) && a[..n][i] == a[i]
  {
  }

  lemma OneMoreListed(a: seq<Poll>, at: seq<nat>)
    requires a != [] && ListsChanges(a[..|a| - 1], at)
    ensures ListsChanges(a, if Change(a, |a| - 1) then at + [|a| - 1] else at)
  {
    hide Change;
    var n := |a| - 1;
    forall i | 0 <= i < n ensures Change(a[..n], i) == Change(a, i) { SameChange(a, n, i); }
    if Change(a, n) {
      var more := at + [n];
      assert more[|at|] == n && forall k :: 0 <= k < |at| ==> more[k] == at[k];
      forall i | 0 <= i < |a| && Change(a, i) ensures i in more {
        assert i < n ==> i in at;
      }
    }
  }

  /** The transitions are these attempts. */
  ghost predicate AreTransitions(a: seq<Poll>, from: int, at: seq<nat>) {
    && |Transitions(a, from)| == |at|
    && forall k :: 0 <= k < |at| ==> at[k] < |a| && Transitions(a, from)[k] == TransitionOf(a[at[k]], from)
  }

  lemma OneMoreAt(a: seq<Poll>, from: int, at: seq<nat>)
    requires a != [] && AreTransitions(a[..|a| - 1], from, at)
    ensures AreTransitions(a, from, if Change(a, |a| - 1) then at + [|a| - 1] else at)
  {
    hide Change, TransitionOf;
    var n := |a| - 1;
    forall k | 0 <= k < |at| ensures Transitions(a[..n], from)[k] == TransitionOf(a[at[k]], from) {
      assert a[..n][at[k]] == a[at[k]];
    }
  }

  lemma {:induction false} TransitionsAreListed(a: seq<Poll>, from: int) returns (at: seq<nat>)
    ensures ListsChanges(a, at) && AreTransitions(a, from, at)
  {
    if a == [] {
      at := [];
    } else {
      hide Change, ListsChanges, AreTransitions;
      var n := |a| - 1;
      at := TransitionsAreListed(a[..n], from);
      OneMoreListed(a, at);
      OneMoreAt(a, from, at);
      if Change(a, n) {
        at := at + [n];
      }
    }
  }

  /** Status or error differ, where an error named "ok" passes for none. */
  ghost predicate Differs(p: Poll, q: Poll) {
    p.status != q.status || p.errorKind.GetOr("ok") != q.errorKind.GetOr("ok")
  }

  /** When the attempt was over, counted from `from`, its status, and its error unless that is empty. */
  ghost predicate Describes(x: Transition, p: Poll, from: int) {
    && x.ms == p.now - from && x.status == p.status
    && forall kind :: x.errorKind == Some(kind) <==> p.errorKind == Some(kind) && kind != ""
  }

  lemma TransitionDescribes(p: Poll, from: int)
    ensures Describes(TransitionOf(p, from), p, from)
  {
  }

  /** The transitions are the attempts without adjacent repeats: one for each change of state, in order. */
  lemma TransitionsAreTheChanges(a: seq<Poll>, from: int) returns (at: seq<nat>)
    ensures |Transitions(a, from)| == |at| && forall i, j :: 0 <= i < j < |at| ==> at[i] < at[j]
    ensures forall i: nat :: i in at <==> i < |a| && (i == 0 || Differs(a[i], a[i - 1]))
    ensures forall k :: 0 <= k < |at| ==> at[k] < |a| && Describes(Transitions(a, from)[k], a[at[k]], from)
  {
    at := TransitionsAreListed(a, from);
    forall i | 0 < i < |a| ensures Change(a, i) <==> Differs(a[i], a[i - 1]) { SameKey(a[i], a[i - 1]); }
    hide Differs, StateKey;
    forall k | 0 <= k < |at| ensures Describes(Transitions(a, from)[k], a[at[k]], from) {
      TransitionDescribes(a[at[k]], from);
    }
  }

  lemma {:induction false} LastTransitionSince(a: seq<Poll>, from: int) returns (since: nat)
    requires a != []
    ensures since < |a| && Change(a, since) && forall i :: since <= i < |a| ==> StateKey(a[i]) == StateKey(a[since])
    ensures Transitions(a, from) != []
    ensures Transitions(a, from)[|Transitions(a, from)| - 1] == TransitionOf(a[since], from)
  {
    hide StateKey;
    var n := |a| - 1;
    if Change(a, n) {
      since := n;
    } else {
      since := LastTransitionSince(a[..n], from);
      assert Change(a[..n], since) == Change(a, since);
      assert forall i :: since <= i < n ==> StateKey(a[..n][i]) == StateKey(a[i]);
    }
  }

  /** The last transition dates the state of the last attempt back to where that state began. */
  lemma LastTransitionHolds(a: seq<Poll>, from: int) returns (since: nat)
    requires a != []
    ensures since < |a| && (since == 0 || Differs(a[since], a[since - 1]))
    ensures forall i :: since <= i < |a| ==> !Differs(a[i], a[since])
    ensures Transitions(a, from) != []
    ensures Describes(Transitions(a, from)[|Transitions(a, from)| - 1], a[since], from)
  {
    since := LastTransitionSince(a, from);
    TransitionDescribes(a[since], from);
    if since > 0 { SameKey(a[since], a[since - 1]); }
    forall i | since <= i < |a| ensures !Differs(a[i], a[since]) { SameKey(a[i], a[since]); }
    hide StateKey;
  }
}
