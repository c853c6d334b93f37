/**
 * Recording releases in write-once refs (`recordMobileReleaseRef`): any number of recorders look at, push to
 * and read back a remote that the others change meanwhile.
 */
module ReleaseRefs {
  import opened Wrappers

  datatype Status = Created | AlreadyRecorded | Failed

  /** Where a recorder is: before its preflight, before its push, before reading back, or finished. */
  datatype Phase = Starting | Pushing | Verifying | Done(status: Status)

  datatype Recorder = Recorder(ref: string, sha: string, phase: Phase)

  datatype World = World(refs: map<string, string>, recorders: seq<Recorder>)

  /**
   * `reachable` says whether git could read the remote.  A push `lands` or not, and independently of that the
   * recorder is told `ok` or not; with the lease `<ref>:` it can only ever create the ref.
   */
  datatype Event =
    | Join(ref: string, sha: string)
    | Preflight(i: nat, reachable: bool)
    | Push(i: nat, lands: bool, ok: bool)
    | Verify(i: nat, reachable: bool)

  ghost predicate Succeeded(r: Recorder) { r.phase == Done(Created) || r.phase == Done(AlreadyRecorded) }

  function AfterPreflight(refs: map<string, string>, r: Recorder, reachable: bool): Phase {
    if !reachable then Done(Failed)
    else if r.ref !in refs then Pushing
    else if refs[r.ref] == r.sha then Done(AlreadyRecorded)
    else Done(Failed)
  }

  function AfterVerify(refs: map<string, string>, r: Recorder, reachable: bool): Phase {
    if reachable && r.ref in refs && refs[r.ref] == r.sha then Done(Created) else Done(Failed)
  }

  function LeasePush(refs: map<string, string>, ref: string, sha: string, lands: bool): map<string, string> {
    if lands && ref !in refs then refs[ref := sha] else refs
  }

  predicate Enabled(w: World, e: Event) {
    match e
    case Join(_, _) => true
    case Preflight(i, _) => i < |w.recorders| && w.recorders[i].phase.Starting?
    case Push(i, _, _) => i < |w.recorders| && w.recorders[i].phase.Pushing?
    case Verify(i, _) => i < |w.recorders| && w.recorders[i].phase.Verifying?
  }

  function Advance(w: World, i: nat, phase: Phase): World
    requires i < |w.recorders|
  {
    w.(recorders := w.recorders[i := w.recorders[i].(phase := phase)])
  }

  function Next(w: World, e: Event): World
    requires Enabled(w, e)
  {
    match e
    case Join(ref, sha) => w.(recorders := w.recorders + [Recorder(ref, sha, Starting)])
    case Preflight(i, reachable) => Advance(w, i, AfterPreflight(w.refs, w.recorders[i], reachable))
    case Push(i, lands, ok) =>
      var r := w.recorders[i];
      Advance(w.(refs := LeasePush(w.refs, r.ref, r.sha, lands)), i, if ok then Verifying else Done(Failed))
    case Verify(i, reachable) => Advance(w, i, AfterVerify(w.refs, w.recorders[i], reachable))
  }

  /** A history of the world from a remote that already holds some refs. */
  ghost predicate Execution(worlds: seq<World>, events: seq<Event>) {
    && |worlds| == |events| + 1
    && worlds[0].recorders == []
    && forall k :: 0 <= k < |events| ==> Enabled(worlds[k], events[k]) && worlds[k + 1] == Next(worlds[k], events[k])
  }

  // ------------------------------------------------------------------ what every step keeps

  ghost predicate Holds(w: World, ref: string, sha: string) { ref in w.refs && w.refs[ref] == sha }

  /** A recorder that reported success finds its sha on the remote. */
  ghost predicate Inv(w: World) {
    forall i: nat | i < |w.recorders| && Succeeded(w.recorders[i]) :: Holds(w, w.recorders[i].ref, w.recorders[i].sha)
  }

  /** Refs are only added, and each new one holds the sha of a recorder that was pushing it. */
  ghost predicate OnlyAdds(w: World, w': World) {
    && (forall ref | ref in w.refs :: Holds(w', ref, w.refs[ref]))
    && (forall ref | ref in w'.refs && ref !in w.refs ::
          exists i: nat ::
            && i < |w.recorders| && w.recorders[i].phase.Pushing? && w.recorders[i].ref == ref
            && w.recorders[i].sha == w'.refs[ref])
  }

  /** Recorders keep what they record, and a finished one stays finished. */
  ghost predicate KeepsRecorders(w: World, w': World) {
    && |w.recorders| <= |w'.recorders|
    && forall i: nat | i < |w.recorders| ::
         var r, r' := w.recorders[i], w'.recorders[i];
         r'.ref == r.ref && r'.sha == r.sha && (r.phase.Done? ==> r' == r)
  }

  lemma StepKeeps(w: World, e: Event)
    requires Inv(w) && Enabled(w, e)
    ensures Inv(Next(w, e)) && OnlyAdds(w, Next(w, e)) && KeepsRecorders(w, Next(w, e))
  {
    var w' := Next(w, e);
    forall i: nat | i < |w'.recorders| && Succeeded(w'.recorders[i])
      ensures Holds(w', w'.recorders[i].ref, w'.recorders[i].sha)
    {
      assert i < |w.recorders| && w'.recorders[i].ref == w.recorders[i].ref;
    }
  }

  lemma {:induction false} ReachableInv(worlds: seq<World>, events: seq<Event>, k: nat)
    requires Execution(worlds, events) && k <= |events|
    ensures Inv(worlds[k])
  {
    if k > 0 {
      ReachableInv(worlds, events, k - 1);
      StepKeeps(worlds[k - 1], events[k - 1]);
    }
  }

  lemma {:induction false} RefsStay(worlds: seq<World>, events: seq<Event>, j: nat, k: nat)
    requires Execution(worlds, events) && j <= k <= |events|
    ensures forall ref | ref in worlds[j].refs :: Holds(worlds[k], ref, worlds[j].refs[ref])
    ensures KeepsRecorders(worlds[j], worlds[k])
    decreases k
  {
    if j < k {
      RefsStay(worlds, events, j, k - 1);
      ReachableInv(worlds, events, k - 1);
      StepKeeps(worlds[k - 1], events[k - 1]);
      hide Next, Enabled;
    }
  }

  // ------------------------------------------------------------------ the promises

  /** A ref changes at most once: of any two moments it is the same, or it was absent and came to one sha for good. */
  lemma RefIsWriteOnce(worlds: seq<World>, events: seq<Event>, i: nat, j: nat, k: nat, ref: string)
    requires Execution(worlds, events) && i <= j <= k <= |events|
    requires ref in worlds[j].refs
    ensures ref in worlds[i].refs ==> worlds[i].refs[ref] == worlds[j].refs[ref]
    ensures Holds(worlds[k], ref, worlds[j].refs[ref])
  {
    RefsStay(worlds, events, i, j);
    RefsStay(worlds, events, j, k);
  }

  /** A recorder that has reported success keeps that report, and the ref holds its sha from then on. */
  lemma SuccessLasts(worlds: seq<World>, events: seq<Event>, j: nat, k: nat, i: nat)
    requires Execution(worlds, events) && j <= k <= |events|
    requires i < |worlds[j].recorders| && Succeeded(worlds[j].recorders[i])
    ensures i < |worlds[k].recorders| && worlds[k].recorders[i] == worlds[j].recorders[i]
    ensures Holds(worlds[k], worlds[j].recorders[i].ref, worlds[j].recorders[i].sha)
  {
    ReachableInv(worlds, events, j);
    RefsStay(worlds, events, j, k);
  }

  /** Recorders of one ref that both succeed, at whatever times, agree on the sha. */
  lemma SuccessesAgree(worlds: seq<World>, events: seq<Event>, j: nat, k: nat, a: nat, b: nat)
    requires Execution(worlds, events) && j <= k <= |events|
    requires a < |worlds[j].recorders| && Succeeded(worlds[j].recorders[a])
    requires b < |worlds[k].recorders| && Succeeded(worlds[k].recorders[b])
    requires worlds[j].recorders[a].ref == worlds[k].recorders[b].ref
    ensures worlds[j].recorders[a].sha == worlds[k].recorders[b].sha
  {
    SuccessLasts(worlds, events, j, k, a);
    ReachableInv(worlds, events, k);
  }

  ghost predicate WrittenBy(w: World, ref: string, sha: string) {
    exists i: nat :: i < |w.recorders| && w.recorders[i].ref == ref && w.recorders[i].sha == sha
  }

  /** Nothing appears on the remote that no recorder meant to put there. */
  lemma {:induction false} EveryRefIsAccountedFor(worlds: seq<World>, events: seq<Event>, k: nat, ref: string)
    requires Execution(worlds, events) && k <= |events| && ref in worlds[k].refs
    ensures ref in worlds[0].refs || WrittenBy(worlds[k], ref, worlds[k].refs[ref])
  {
    if k > 0 {
      var w, w' := worlds[k - 1], worlds[k];
      ReachableInv(worlds, events, k - 1);
      StepKeeps(w, events[k - 1]);
      hide Next, Enabled;
      if ref in w.refs {
        EveryRefIsAccountedFor(worlds, events, k - 1, ref);
        if ref !in worlds[0].refs {
          var i: nat :| i < |w.recorders| && w.recorders[i].ref == ref && w.recorders[i].sha == w.refs[ref];
          assert w'.recorders[i].ref == ref;
        }
      } else {
        var i: nat :| i < |w.recorders| && w.recorders[i].ref == ref && w.recorders[i].sha == w'.refs[ref];
        assert w'.recorders[i].ref == ref;
      }
    }
  }

  /** Once a ref exists, every later look at it by a recorder decides at once, and always for the same sha. */
  lemma LaterPreflightsDecide(worlds: seq<World>, events: seq<Event>, j: nat, k: nat, m: nat, ref: string)
    requires Execution(worlds, events) && j <= k < |events| && ref in worlds[j].refs
    requires events[k] == Preflight(m, true) && worlds[k].recorders[m].ref == ref
    ensures m < |worlds[k + 1].recorders|
    ensures worlds[k + 1].recorders[m].phase
         == Done(if worlds[k].recorders[m].sha == worlds[j].refs[ref] then AlreadyRecorded else Failed)
  {
    RefsStay(worlds, events, j, k);
    assert Enabled(worlds[k], events[k]) && worlds[k + 1] == Next(worlds[k], events[k]);
  }

  /**
   * A retry settles a doubtful push: once a recorder's push has landed, even if the recorder was told that it
   * failed, every later preflight that reaches the remote reports success for its sha and failure for any other.
   */
  lemma RetryDecides(worlds: seq<World>, events: seq<Event>, j: nat, k: nat, i: nat, ok: bool, m: nat)
    requires Execution(worlds, events) && j < k < |events|
    requires events[j] == Push(i, true, ok) && worlds[j].recorders[i].ref !in worlds[j].refs
    requires events[k] == Preflight(m, true) && worlds[k].recorders[m].ref == worlds[j].recorders[i].ref
    ensures m < |worlds[k + 1].recorders|
    ensures worlds[k + 1].recorders[m].phase
         == Done(if worlds[k].recorders[m].sha == worlds[j].recorders[i].sha then AlreadyRecorded else Failed)
  {
    var r := worlds[j].recorders[i];
    assert Enabled(worlds[j], events[j]) && worlds[j + 1] == Next(worlds[j], events[j]);
    assert r.ref in worlds[j + 1].refs && worlds[j + 1].refs[r.ref] == r.sha;
    LaterPreflightsDecide(worlds, events, j + 1, k, m, r.ref);
  }

  /** A ref that is absent when a preflight looks at it was absent at every earlier moment. */
  lemma AbsentMeansNeverWritten(worlds: seq<World>, events: seq<Event>, j: nat, k: nat, m: nat)
    requires Execution(worlds, events) && j <= k < |events|
    requires events[k] == Preflight(m, true) && m < |worlds[k + 1].recorders|
    requires worlds[k + 1].recorders[m].phase.Pushing?
    ensures worlds[k].recorders[m].ref !in worlds[j].refs
  {
    assert Enabled(worlds[k], events[k]) && worlds[k + 1] == Next(worlds[k], events[k]);
    if worlds[k].recorders[m].ref in worlds[j].refs {
      LaterPreflightsDecide(worlds, events, j, k, m, worlds[k].recorders[m].ref);
    }
  }

  // ------------------------------------------------------------------ what a recorder is told

  /** The recorder is finished, and was told this. */
  ghost predicate Reports(w: World, m: nat, status: Status) {
    m < |w.recorders| && w.recorders[m].phase == Done(status)
  }

  /** Every recorder goes back to one start, and is about the ref and the sha it was started with. */
  lemma {:induction false} RecordersKeepOrders(worlds: seq<World>, events: seq<Event>, m: nat, k: nat)
    returns (j: nat)
    requires Execution(worlds, events) && k <= |events| && m < |worlds[k].recorders|
    ensures j < k && |worlds[j].recorders| == m
    ensures events[j] == Join(worlds[k].recorders[m].ref, worlds[k].recorders[m].sha)
  {
    assert Enabled(worlds[k - 1], events[k - 1]) && worlds[k] == Next(worlds[k - 1], events[k - 1]);
    if m < |worlds[k - 1].recorders| {
      j := RecordersKeepOrders(worlds, events, m, k - 1);
    } else {
      j := k - 1;
    }
  }

  /** A read-back reports that the ref was created exactly if it reaches the remote and finds the sha there. */
  lemma ReadBackDecides(worlds: seq<World>, events: seq<Event>, k: nat, m: nat, reachable: bool)
    requires Execution(worlds, events) && k < |events| && events[k] == Verify(m, reachable)
    ensures m < |worlds[k].recorders|
    ensures var r := worlds[k].recorders[m];
            if reachable && Holds(worlds[k], r.ref, r.sha) then Reports(worlds[k + 1], m, Created)
            else Reports(worlds[k + 1], m, Failed)
  {
    assert Enabled(worlds[k], events[k]) && worlds[k + 1] == Next(worlds[k], events[k]);
  }

  /** A push that is not acknowledged fails, whether it landed or not; one that is goes on to the read-back. */
  lemma PushDecides(worlds: seq<World>, events: seq<Event>, k: nat, m: nat, lands: bool, ok: bool)
    requires Execution(worlds, events) && k < |events| && events[k] == Push(m, lands, ok)
    ensures m < |worlds[k].recorders| && m < |worlds[k + 1].recorders|
    ensures if ok then worlds[k + 1].recorders[m].phase == Verifying else Reports(worlds[k + 1], m, Failed)
    ensures var r := worlds[k].recorders[m];
            worlds[k + 1].refs == if lands && r.ref !in worlds[k].refs then worlds[k].refs[r.ref := r.sha]
                                  else worlds[k].refs
  {
    assert Enabled(worlds[k], events[k]) && worlds[k + 1] == Next(worlds[k], events[k]);
  }

  /** A preflight fails when it cannot reach the remote, and passes exactly when it reaches it and finds no ref. */
  lemma PreflightDecides(worlds: seq<World>, events: seq<Event>, k: nat, m: nat, reachable: bool)
    requires Execution(worlds, events) && k < |events| && events[k] == Preflight(m, reachable)
    ensures m < |worlds[k].recorders| && m < |worlds[k + 1].recorders|
    ensures var r, phase := worlds[k].recorders[m], worlds[k + 1].recorders[m].phase;
            && (phase == Pushing <==> reachable && r.ref !in worlds[k].refs)
            && (phase == Done(AlreadyRecorded) <==> reachable && Holds(worlds[k], r.ref, r.sha))
            && (phase == Done(Failed) <==>
                !reachable || (r.ref in worlds[k].refs && !Holds(worlds[k], r.ref, r.sha)))
  {
    assert Enabled(worlds[k], events[k]) && worlds[k + 1] == Next(worlds[k], events[k]);
  }

  /**
   * A recorder whose push was acknowledged and landed on an absent ref reports at any later read-back that reaches the
   * remote that it created the ref, whatever others do in between; and it keeps that report.
   */
  lemma AcknowledgedPushSucceeds(worlds: seq<World>, events: seq<Event>, j: nat, k: nat, m: nat, end: nat)
    requires Execution(worlds, events) && j < k < end <= |events|
    requires events[j] == Push(m, true, true) && worlds[j].recorders[m].ref !in worlds[j].refs
    requires events[k] == Verify(m, true)
    ensures Reports(worlds[end], m, Created)
  {
    PushDecides(worlds, events, j, m, true, true);
    RefsStay(worlds, events, j, j + 1);
    RefsStay(worlds, events, j + 1, k);
    ReadBackDecides(worlds, events, k, m, true);
    RefsStay(worlds, events, k + 1, end);
    var r := worlds[j].recorders[m];
    assert worlds[j + 1].recorders[m].ref == r.ref && worlds[j + 1].recorders[m].sha == r.sha;
    assert worlds[k].recorders[m].ref == r.ref && worlds[k].recorders[m].sha == r.sha;
    assert r.ref in worlds[j + 1].refs && Holds(worlds[k], r.ref, r.sha);
    hide Execution;
  }

  // ------------------------------------------------------------------ how a recorder came to its report

  /** The preflight of recorder `m` reached the remote at step `p` and found no ref. */
  ghost predicate Passed(worlds: seq<World>, events: seq<Event>, m: nat, p: nat)
    requires |worlds| == |events| + 1
  {
    p < |events| && events[p] == Preflight(m, true)
    && m < |worlds[p].recorders| && worlds[p].recorders[m].ref !in worlds[p].refs
  }

  ghost predicate Acknowledged(events: seq<Event>, m: nat, q: nat) {
    q < |events| && events[q].Push? && events[q].i == m && events[q].ok
  }

  ghost predicate Finds(worlds: seq<World>, events: seq<Event>, m: nat, k: nat, e: Event)
    requires |worlds| == |events| + 1
  {
    && k < |events| && events[k] == e && m < |worlds[k].recorders|
    && Holds(worlds[k], worlds[k].recorders[m].ref, worlds[k].recorders[m].sha)
  }

  /** What makes recorder `m` fail: no answer, a ref with another sha, or at the end no ref with its own. */
  ghost predicate Fails(worlds: seq<World>, events: seq<Event>, m: nat, k: nat)
    requires |worlds| == |events| + 1
  {
    && k < |events| && !events[k].Join? && events[k].i == m && m < |worlds[k].recorders|
    && var r := worlds[k].recorders[m];
       match events[k]
       case Preflight(_, reachable) => !reachable || (r.ref in worlds[k].refs && worlds[k].refs[r.ref] != r.sha)
       case Push(_, _, ok) => !ok
       case Verify(_, reachable) => !reachable || !Holds(worlds[k], r.ref, r.sha)
  }

  /** What a phase says about the past of recorder `m`, before step `k`. */
  ghost predicate Story(worlds: seq<World>, events: seq<Event>, m: nat, k: nat, phase: Phase)
    requires |worlds| == |events| + 1
  {
    match phase
    case Starting => true
    case Pushing => exists p: nat :: p < k && Passed(worlds, events, m, p)
    case Verifying =>
      exists p: nat, q: nat :: p < q < k && Passed(worlds, events, m, p) && Acknowledged(events, m, q)
    case Done(Created) =>
      exists p: nat, q: nat, v: nat :: p < q < v < k && Passed(worlds, events, m, p) && Acknowledged(events, m, q)
                                       && Finds(worlds, events, m, v, Verify(m, true))
    case Done(AlreadyRecorded) => exists p: nat :: p < k && Finds(worlds, events, m, p, Preflight(m, true))
    case Done(Failed) => exists v: nat :: v < k && Fails(worlds, events, m, v)
  }

  lemma StoryLasts(worlds: seq<World>, events: seq<Event>, m: nat, k: nat, phase: Phase)
    requires |worlds| == |events| + 1 && Story(worlds, events, m, k, phase)
    ensures Story(worlds, events, m, k + 1, phase)
  {
    hide Passed, Acknowledged, Finds, Fails;
  }

  lemma StoryGoesOn(worlds: seq<World>, events: seq<Event>, m: nat, k: nat)
    requires Execution(worlds, events) && k < |events|
    requires m < |worlds[k].recorders| && Story(worlds, events, m, k, worlds[k].recorders[m].phase)
    ensures m < |worlds[k + 1].recorders| && Story(worlds, events, m, k + 1, worlds[k + 1].recorders[m].phase)
  {
    var e := events[k];
    assert Enabled(worlds[k], e) && worlds[k + 1] == Next(worlds[k], e);
    var phase := worlds[k].recorders[m].phase;
    StoryLasts(worlds, events, m, k, phase);
    if !e.Join? && e.i == m {
      match e
      case Preflight(_, reachable) =>
        PreflightDecides(worlds, events, k, m, reachable);
        assert Reports(worlds[k + 1], m, Failed) ==> Fails(worlds, events, m, k);
        assert reachable && worlds[k].recorders[m].ref !in worlds[k].refs ==> Passed(worlds, events, m, k);
        assert reachable && Holds(worlds[k], worlds[k].recorders[m].ref, worlds[k].recorders[m].sha) ==>
            Finds(worlds, events, m, k, Preflight(m, true));
      case Push(_, lands, ok) =>
        PushDecides(worlds, events, k, m, lands, ok);
        assert if ok then Acknowledged(events, m, k) else Fails(worlds, events, m, k);
      case Verify(_, reachable) =>
        ReadBackDecides(worlds, events, k, m, reachable);
        assert Reports(worlds[k + 1], m, Failed) ==> Fails(worlds, events, m, k);
        assert reachable && Holds(worlds[k], worlds[k].recorders[m].ref, worlds[k].recorders[m].sha) ==>
            Finds(worlds, events, m, k, Verify(m, true));
    }
  }

  lemma GoesOn(worlds: seq<World>, events: seq<Event>, e: Event)
    requires Execution(worlds, events) && Enabled(worlds[|events|], e)
    ensures Execution(worlds + [Next(worlds[|events|], e)], events + [e])
  {
    var more, all := worlds + [Next(worlds[|events|], e)], events + [e];
    hide Enabled, Next;
    forall k | 0 <= k < |all| ensures Enabled(more[k], all[k]) && more[k + 1] == Next(more[k], all[k]) {
      if k < |events| {
        assert Enabled(worlds[k], events[k]) && worlds[k + 1] == Next(worlds[k], events[k]);
        assert more[k] == worlds[k] && more[k + 1] == worlds[k + 1] && all[k] == events[k];
      } else {
        assert more[k] == worlds[k] && more[k + 1] == Next(worlds[k], e) && all[k] == e;
      }
    }
  }

  /** What a recorder that starts in `w` and meets no trouble reports, and what it leaves. */
  ghost predicate Records(w: World, ref: string, sha: string, end: World) {
    var m := |w.recorders|;
    if ref !in w.refs then Reports(end, m, Created) && end.refs == w.refs[ref := sha]
    else end.refs == w.refs && Reports(end, m, if w.refs[ref] == sha then AlreadyRecorded else Failed)
  }

  /** After any history a new recorder can run to its end: it creates the ref, finds it recorded, or finds another. */
  lemma NewcomerCanFinish(worlds: seq<World>, events: seq<Event>, ref: string, sha: string)
    returns (worlds': seq<World>, events': seq<Event>)
    requires Execution(worlds, events)
    ensures Execution(worlds', events') && events <= events' && worlds <= worlds'
    ensures Records(worlds[|events|], ref, sha, worlds'[|events'|])
  {
    var w := worlds[|events|];
    var m := |w.recorders|;
    var steps := if ref in w.refs then [Join(ref, sha), Preflight(m, true)]
                 else [Join(ref, sha), Preflight(m, true), Push(m, true, true), Verify(m, true)];
    worlds', events' := worlds, events;
    var i := 0;
    var world := w;
    while i < |steps|
      invariant i <= |steps| && Execution(worlds', events') && events <= events' && worlds <= worlds'
      invariant worlds'[|events'|] == world && |world.recorders| == if i == 0 then m else m + 1
      invariant i > 0 ==> world.recorders[m].ref == ref && world.recorders[m].sha == sha
      invariant i == 1 ==> world.recorders[m].phase == Starting
      invariant i == 2 ==> world.recorders[m].phase == AfterPreflight(w.refs, Recorder(ref, sha, Starting), true)
      invariant i == 3 ==> world.recorders[m].phase == Verifying
      invariant i == 4 ==> world.recorders[m].phase == Done(Created)
      invariant world.refs == if i >= 3 then w.refs[ref := sha] else w.refs
    {
      GoesOn(worlds', events', steps[i]);
      world := Next(world, steps[i]);
      worlds', events', i := worlds' + [world], events' + [steps[i]], i + 1;
    }
  }

  /**
   * Every report has its history: "created" a preflight that found no ref, an acknowledged push and a read-back that
   * found the sha, in this order; "already recorded" a preflight that found the sha; and a failure a step that got no
   * answer, or met a ref with another sha, or read back that its own is not there.
   */
  lemma {:induction false} ReportsHaveAStory(worlds: seq<World>, events: seq<Event>, m: nat, k: nat)
    requires Execution(worlds, events) && k <= |events| && m < |worlds[k].recorders|
    ensures Story(worlds, events, m, k, worlds[k].recorders[m].phase)
  {
    assert Enabled(worlds[k - 1], events[k - 1]) && worlds[k] == Next(worlds[k - 1], events[k - 1]);
    if m < |worlds[k - 1].recorders| {
      ReportsHaveAStory(worlds, events, m, k - 1);
      StoryGoesOn(worlds, events, m, k - 1);
    }
  }

  // ------------------------------------------------------------------ the recorder as it runs

  class Remote {
    var refs: map<string, string>
    var recorders: seq<Recorder>

    ghost function State(): World
      reads this
    {
      World(refs, recorders)
    }

    /** `git ls-remote --refs`: `None` when the remote could not be inspected. */
    method ReadRemoteRef(ref: string, reachable: bool) returns (found: Option<Option<string>>)
      ensures found == if !reachable then None else Some(if ref in refs then Some(refs[ref]) else None)
    {
      if !reachable {
        return None;
      }
      found := Some(if ref in refs then Some(refs[ref]) else None);
    }

    method PreflightMobileReleaseRef(i: nat, reachable: bool)
      requires Enabled(State(), Preflight(i, reachable))
      modifies this`recorders
      ensures State() == Next(old(State()), Preflight(i, reachable))
    {
      var r := recorders[i];
      var existing := ReadRemoteRef(r.ref, reachable);
      if existing.None? {
        recorders := recorders[i := r.(phase := Done(Failed))];
      } else if existing.value.None? {
        recorders := recorders[i := r.(phase := Pushing)];
      } else if existing.value.value == r.sha {
        recorders := recorders[i := r.(phase := Done(AlreadyRecorded))];
      } else {
        recorders := recorders[i := r.(phase := Done(Failed))];
      }
    }

    method PushWithLease(i: nat, lands: bool, ok: bool)
      requires Enabled(State(), Push(i, lands, ok))
      modifies this
      ensures State() == Next(old(State()), Push(i, lands, ok))
    {
      var r := recorders[i];
      if lands && r.ref !in refs {
        refs := refs[r.ref := r.sha];
      }
      recorders := recorders[i := r.(phase := if ok then Verifying else Done(Failed))];
    }

    method ConfirmRecorded(i: nat, reachable: bool)
      requires Enabled(State(), Verify(i, reachable))
      modifies this`recorders
      ensures State() == Next(old(State()), Verify(i, reachable))
    {
      var r := recorders[i];
      var recorded := ReadRemoteRef(r.ref, reachable);
      var confirmed := recorded.Some? && recorded.value == Some(r.sha);
      recorders := recorders[i := r.(phase := if confirmed then Done(Created) else Done(Failed))];
    }
  }
}
