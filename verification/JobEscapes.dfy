/** Why a job can be running without the maintenance lock: the one kind of step after which an executor
    lets go of a job without a final status. */
module JobEscapes {
  import opened Common
  import opened JobTable
  import opened JobExecutor
  import opened JobProtocol

  /** The executor's step leaves the job to the worker's `finally` as it is: a swallowed exception before
      the executor's own handlers or in the transaction of its last write, or a failing transaction in
      the worker's handler. */
  predicate Escapes(job: Job, pc: Pc, choice: Choice) {
    && job.status.Running?
    && ((pc.Begin? && !choice.Good? && Swallowed(job.kind))
        || (pc.Finish? && !pc.status.Succeeded? && choice.Raise? && Swallowed(job.kind))
        || (pc.LastTry? && choice.Raise?))
  }

  /** The live worker takes such a step on job `i`. */
  predicate EscapeStepOf(s: State, event: Event, i: nat) {
    && event.Step? && s.live && s.task.Some? && s.task.value.id == i < |s.db.jobs|
    && Escapes(s.db.jobs[i], s.task.value.pc, event.choice)
  }

  predicate EscapeStep(s: State, event: Event) {
    s.task.Some? && EscapeStepOf(s, event, s.task.value.id)
  }

  // ---- The step ----

  /** These are exactly the steps that reach the release of the lock with the job still running. */
  lemma EscapesIff(l: Local, k: int, choice: Choice)
    requires LocalOk(l, k) && !l.pc.Releasing?
    ensures var next := Execute(l, choice);
            next.pc.Releasing? && next.job.status.Running? <==> Escapes(l.job, l.pc, choice)
    ensures Escapes(l.job, l.pc, choice) ==> Execute(l, choice).job == l.job && Execute(l, choice).effect.None?
  {
    hide RowOk, AtPc, ExecuteBegin, ExecutePreparing, ExecuteBackup, ExecuteCountdown, ExecuteStop, ExecuteApply, ExecuteStart;
    hide ExecuteOther, ExecuteEnd;
    var plain := l.(effect := None);
    NeverReleases(plain, choice);
    if l.pc.Begin? {
      BeginEscapes(plain, k, choice);
    }
    if l.pc.Finish? || l.pc.Wrapup? || l.pc.LastTry? {
      EndEscapes(plain, k, choice);
    }
  }

  lemma BeginEscapes(l: Local, k: int, choice: Choice)
    requires LocalOk(l, k) && l.pc.Begin?
    ensures var next := ExecuteBegin(l, choice);
            && (next.pc.Releasing? && next.job.status.Running? <==> Escapes(l.job, l.pc, choice))
            && next.job == l.job && next.effect == l.effect
  {
    hide RowOk;
  }

  lemma EndEscapes(l: Local, k: int, choice: Choice)
    requires LocalOk(l, k) && (l.pc.Finish? || l.pc.Wrapup? || l.pc.LastTry?)
    ensures var next := ExecuteEnd(l, choice);
            && (next.pc.Releasing? && next.job.status.Running? <==> Escapes(l.job, l.pc, choice))
            && (Escapes(l.job, l.pc, choice) ==> next.job == l.job) && next.effect == l.effect
  {
    hide RowOk;
  }

  lemma NeverReleases(l: Local, choice: Choice)
    ensures l.pc.Preparing? ==> !ExecutePreparing(l, choice).pc.Releasing?
    ensures l.pc.Copying? || l.pc.Closing? || l.pc.Publishing? || l.pc.Validating? || l.pc.Registering? ==>
              !ExecuteBackup(l, choice).pc.Releasing?
    ensures l.pc.Contact? || l.pc.Counting? || l.pc.Marking? || l.pc.Announcing? ==> !ExecuteCountdown(l, choice).pc.Releasing?
    ensures l.pc.BeforeStop? || l.pc.StopCall? || l.pc.StopWait? ==> !ExecuteStop(l, choice).pc.Releasing?
    ensures l.pc.BeforeApply? || l.pc.ApplyCall? || l.pc.ApplyWait? ==> !ExecuteApply(l, choice).pc.Releasing?
    ensures l.pc.BeforeStart? || l.pc.StartCall? || l.pc.StartWait? || l.pc.BeforeVerify? || l.pc.Verifying? ==>
              !ExecuteStart(l, choice).pc.Releasing?
    ensures l.pc.RestartCall? || l.pc.RestartWait? || l.pc.SignalCall? || l.pc.SignalWait? || l.pc.Opaque? ==>
              !ExecuteOther(l, choice).pc.Releasing?
  {
  }

  // ---- Runs ----

  ghost predicate EscapeAt(events: seq<Event>, m: nat, i: nat) {
    m < |events| && EscapeStepOf(Run(events[..m]), events[m], i)
  }

  /** The worker has not been restarted after event `m`. */
  ghost predicate NoRestartSince(events: seq<Event>, m: nat) {
    forall n :: m < n < |events| && events[n].Restarted? ==> Run(events[..n]).live
  }

  ghost predicate Escaped(events: seq<Event>, i: nat) {
    exists m :: EscapeAt(events, m, i) && NoRestartSince(events, m)
  }

  /** Since the last restart the executor of job `i` took an escape step, and the worker has let the job
      go. */
  ghost predicate LeftBehind(events: seq<Event>, i: nat) {
    Escaped(events, i) && !(Run(events).task.Some? && Run(events).task.value.id == i)
  }

  /** No escape step at all. */
  ghost predicate Clean(events: seq<Event>) {
    forall m :: 0 <= m < |events| ==> !EscapeStep(Run(events[..m]), events[m])
  }

  predicate Restarts(s: State, event: Event) {
    event.Restarted? && !s.live
  }

  lemma EscapedGrows(events: seq<Event>, n: nat, i: nat)
    requires n + 1 == |events|
    ensures Escaped(events, i) <==>
              EscapeStepOf(Run(events[..n]), events[n], i) || (Escaped(events[..n], i) && !Restarts(Run(events[..n]), events[n]))
  {
    hide Run, EscapeStepOf;
    var init := events[..n];
    forall m | 0 <= m < n
      ensures EscapeAt(init, m, i) == EscapeAt(events, m, i)
      ensures NoRestartSince(events, m) <==> NoRestartSince(init, m) && !Restarts(Run(init), events[n])
    {
      assert init[..m] == events[..m];
      assert forall k :: m < k < n ==> init[..k] == events[..k] && init[k] == events[k];
    }
    if EscapeStepOf(Run(init), events[n], i) {
      assert EscapeAt(events, n, i) && NoRestartSince(events, n);
    }
    if Escaped(init, i) && !Restarts(Run(init), events[n]) {
      var m: nat :| EscapeAt(init, m, i) && NoRestartSince(init, m);
      assert EscapeAt(events, m, i) && NoRestartSince(events, m);
    }
    if Escaped(events, i) {
      var m: nat :| EscapeAt(events, m, i) && NoRestartSince(events, m);
      if m < n {
        assert EscapeAt(init, m, i) && NoRestartSince(init, m);
      }
    }
  }

  /** The task is on its way out with its job still running. */
  predicate OnTheWayOut(s: State, i: nat) {
    && s.task.Some? && s.task.value.id == i && s.task.value.pc.Releasing?
    && i < |s.db.jobs| && s.db.jobs[i].status.Running?
  }

  /** One event: a job is on its way out, or escaped, after an escape step, or if it was before and the
      worker has not been restarted. */
  lemma OutGrows(s: State, event: Event, i: nat)
    requires Inv(s)
    ensures var t := Next(s, event);
            (OnTheWayOut(t, i) || i in t.escaped) <==>
              EscapeStepOf(s, event, i) || ((OnTheWayOut(s, i) || i in s.escaped) && !Restarts(s, event))
  {
    hide Sound, RowOk, DistinctKeys, Escalates, Execute, Claim, Escapes, AtPc, CancelJob, NowJob, Admits, Recover, InterruptJob;
    match event
    case Step(choice) =>
      if s.live && s.task.Some? && !s.task.value.pc.Releasing? {
        TaskEscapes(s, choice);
      }
      ReleasingIsNoEscape(s, event, i);
    case CancelRequest(id) =>
      if id < |s.db.jobs| {
        CancelStatus(s.db.jobs[id]);
        OutsideOut(s, id, i);
      }
    case NowRequest(id) =>
      if id < |s.db.jobs| {
        CancelStatus(s.db.jobs[id]);
      }
    case Take =>
      if s.live && s.task.None? {
        ClaimTakesLeast(s.db, ALL_KINDS);
      }
    case Restarted =>
    case Crash =>
    case Request(_, _, _, _, _) =>
  }

  lemma ReleasingIsNoEscape(s: State, event: Event, i: nat)
    ensures s.task.Some? && s.task.value.pc.Releasing? ==> !EscapeStepOf(s, event, i)
  {
  }

  lemma OutsideOut(s: State, id: nat, i: nat)
    requires Inv(s) && id < |s.db.jobs|
    ensures i in s.escaped ==> i < |s.db.jobs| && s.db.jobs[i].status.Running?
  {
    hide Sound, RowOk, DistinctKeys, Escalates;
  }

  lemma TaskEscapes(s: State, choice: Choice)
    requires Inv(s) && s.live && s.task.Some? && !s.task.value.pc.Releasing?
    ensures var i, t := s.task.value.id, Next(s, Step(choice));
            && i < |s.db.jobs| && t.task.Some? && t.task.value.id == i && t.escaped == s.escaped
            && (OnTheWayOut(t, i) <==> EscapeStepOf(s, Step(choice), i))
            && (OnTheWayOut(t, i) ==> t.db == s.db && t.live)
  {
    hide Sound, RowOk, DistinctKeys, Escalates, Execute, AtPc, Escapes;
    var task := s.task.value;
    var l := Local(s.db.jobs[task.id], task.pc, task.critical, None);
    SoundRow(l.job, s.done[task.id]);
    EscapesIff(l, Progress(l.job, s.done[task.id]), choice);
    if Escapes(l.job, l.pc, choice) {
      assert s.db.jobs[task.id := l.job] == s.db.jobs;
    }
  }

  /** In every run, the jobs that escaped are exactly those left behind. */
  lemma {:induction false} EscapedIff(events: seq<Event>, i: nat)
    ensures OnTheWayOut(Run(events), i) || i in Run(events).escaped <==> Escaped(events, i)
    ensures i in Run(events).escaped <==> LeftBehind(events, i)
  {
    hide Next, Inv, EscapeStepOf, Escaped, Restarts;
    AlwaysInv(events);
    if events == [] {
      NothingEscaped(i);
    } else {
      var n := |events| - 1;
      EscapedIff(events[..n], i);
      AlwaysInv(events[..n]);
      EscapedGrows(events, n, i);
      OutGrows(Run(events[..n]), events[n], i);
    }
    TaskIsNotEscaped(Run(events));
  }

  lemma NothingEscaped(i: nat)
    ensures !Escaped([], i) && !OnTheWayOut(Run([]), i) && i !in Run([]).escaped
  {
  }

  lemma TaskIsNotEscaped(s: State)
    requires Inv(s)
    ensures s.task.Some? ==> s.task.value.id !in s.escaped
  {
    hide RowsOk, DistinctKeys, Escalates, RunningOk, AtPc;
  }

  /** A run without an escape step leaves no job behind. */
  lemma CleanLeavesNone(events: seq<Event>, i: nat)
    requires Clean(events)
    ensures !Escaped(events, i) && i !in Run(events).escaped
  {
    hide Run, EscapeStepOf;
    EscapedIff(events, i);
    if Escaped(events, i) {
      var m: nat :| EscapeAt(events, m, i) && NoRestartSince(events, m);
      EscapeIsStep(Run(events[..m]), events[m], i);
    }
  }

  lemma EscapeIsStep(s: State, event: Event, i: nat)
    requires EscapeStepOf(s, event, i)
    ensures EscapeStep(s, event)
  {
  }

  // ---- The lock ----

  /** Every running job that needs the lock owns it. */
  ghost predicate RunningOwnLock(s: State) {
    forall i :: 0 <= i < |s.db.jobs| && s.db.jobs[i].status.Running? && NeedsLock(s.db.jobs[i].kind) ==> s.db.lock == Some(i)
  }

  /** At most one job is running. */
  ghost predicate OneRunning(s: State) {
    forall i, j :: 0 <= i < |s.db.jobs| && 0 <= j < |s.db.jobs| && s.db.jobs[i].status.Running? && s.db.jobs[j].status.Running? ==> i == j
  }

  lemma NoneEscapedOwnLock(s: State)
    requires Inv(s)
    ensures (forall i :: i in s.escaped ==> i < |s.db.jobs|)
    ensures (forall i :: i in s.escaped ==> !NeedsLock(s.db.jobs[i].kind)) <==> RunningOwnLock(s)
    ensures s.escaped == {} ==> OneRunning(s)
  {
    hide Sound, RowOk, DistinctKeys, Escalates, AtPc;
    if RunningOwnLock(s) {
      forall i | i in s.escaped
        ensures !NeedsLock(s.db.jobs[i].kind)
      {
      }
    }
  }

  /** Without an escape step, at most one job is running, and it owns the lock if it needs it. */
  lemma CleanQueue(events: seq<Event>)
    requires Clean(events)
    ensures Run(events).escaped == {} && OneRunning(Run(events)) && RunningOwnLock(Run(events))
  {
    hide Run, Inv, Clean, OneRunning, RunningOwnLock;
    forall i: nat
      ensures i !in Run(events).escaped
    {
      CleanLeavesNone(events, i);
    }
    assert Run(events).escaped == {};
    AlwaysInv(events);
    NoneEscapedOwnLock(Run(events));
  }

  /** After an escape step, once the worker releases the lock, the job is still running, the lock is
      free, and a worker that survives is ready for the next job. */
  lemma EscapeLosesTheLock(events: seq<Event>, event: Event)
    requires EscapeStep(Run(events), event)
    ensures var i, s := Run(events).task.value.id, Run(events + [event] + [Step(Good)]);
            && i < |s.db.jobs| && s.db.jobs[i].status.Running? && s.db.jobs == Run(events).db.jobs
            && s.db.lock == None && s.task == None && LeftBehind(events + [event] + [Step(Good)], i)
  {
    hide Inv, Escapes, LeftBehind, Run, Execute;
    AlwaysInv(events);
    AlwaysInv(events + [event]);
    var s := Run(events);
    var i := s.task.value.id;
    RunSnoc(events, event);
    RunSnoc(events + [event], Step(Good));
    EscapeNotReleasing(s, event);
    TaskEscapes(s, event.choice);
    HolderOfLock(Run(events + [event]));
    EscapedIff(events + [event] + [Step(Good)], i);
  }

  lemma EscapeNotReleasing(s: State, event: Event)
    requires EscapeStep(s, event)
    ensures event.Step? && s.live && !s.task.value.pc.Releasing?
  {
  }

  lemma HolderOfLock(s: State)
    requires Inv(s) && s.task.Some?
    ensures s.db.lock.None? || s.db.lock == Some(s.task.value.id)
  {
    hide RowsOk, DistinctKeys, Escalates, RunningOk, AtPc;
  }

  /** The exact condition, one event at a time: after a clean run, every running job that needs the lock
      still owns it after the next event and the release that may follow, if and only if that event is
      not an escape step of a job that needs the lock. */
  lemma LockKeptIff(events: seq<Event>, event: Event)
    requires Clean(events)
    ensures RunningOwnLock(Run(events + [event])) && RunningOwnLock(Run(events + [event] + [Step(Good)])) <==>
              !(EscapeStep(Run(events), event) && NeedsLock(Run(events).db.jobs[Run(events).task.value.id].kind))
  {
    hide Inv, RunningOwnLock, EscapeStep, LeftBehind, Run, Clean;
    var one, two := events + [event], events + [event] + [Step(Good)];
    CleanQueue(events);
    RunSnoc(events, event);
    RunSnoc(one, Step(Good));
    if EscapeStep(Run(events), event) {
      EscapeLosesTheLock(events, event);
      OnlyThatOne(events, event);
    } else {
      CleanSnoc(events, event);
      GoodIsNoEscape(Run(one));
      CleanSnoc(one, Step(Good));
      CleanQueue(one);
      CleanQueue(two);
    }
  }

  lemma CleanSnoc(events: seq<Event>, event: Event)
    requires Clean(events) && !EscapeStep(Run(events), event)
    ensures Clean(events + [event])
  {
    hide Run, EscapeStep;
    forall m | 0 <= m < |events + [event]|
      ensures !EscapeStep(Run((events + [event])[..m]), (events + [event])[m])
    {
      assert (events + [event])[..m] == events[..m];
      assert m == |events| ==> events[..m] == events;
    }
  }

  lemma GoodIsNoEscape(s: State)
    ensures !EscapeStep(s, Step(Good))
  {
  }

  /** After the escape of one job from a clean run, that job is the only one left behind. */
  lemma OnlyThatOne(events: seq<Event>, event: Event)
    requires Clean(events) && EscapeStep(Run(events), event)
    ensures var i := Run(events).task.value.id;
            && i < |Run(events).db.jobs|
            && RunningOwnLock(Run(events + [event]))
            && (RunningOwnLock(Run(events + [event] + [Step(Good)])) <==> !NeedsLock(Run(events).db.jobs[i].kind))
  {
    hide Escapes, Run, Next, RunningOwnLock, Inv, Clean;
    AlwaysInv(events);
    AlwaysInv(events + [event]);
    AlwaysInv(events + [event] + [Step(Good)]);
    CleanQueue(events);
    var s := Run(events);
    RunSnoc(events, event);
    RunSnoc(events + [event], Step(Good));
    EscapeNotReleasing(s, event);
    TaskEscapes(s, event.choice);
    LetGo(Run(events + [event]), s.task.value.id);
    NoneEscapedOwnLock(Run(events + [event]));
    NoneEscapedOwnLock(Run(events + [event] + [Step(Good)]));
  }

  /** The release after an escape. */
  lemma LetGo(s: State, i: nat)
    requires Inv(s) && OnTheWayOut(s, i) && s.live
    ensures var t := Next(s, Step(Good));
            t.db.jobs == s.db.jobs && t.escaped == s.escaped + {i} && t.task == None
  {
    hide Execute, Sound, DistinctKeys, Escalates, RunningOk, AtPc;
  }
}
