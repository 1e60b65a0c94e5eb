/** What the queue guarantees over every run: any sequence of requests, claims, steps, failures,
    crashes and recoveries. */
module JobGuarantees {
  import opened Common
  import opened JobTable
  import opened JobExecutor
  import opened JobProtocol
  import opened JobEscapes

  // ---- One job of a run ----

  predicate HasJob(events: seq<Event>, i: nat) {
    i < |Run(events).db.jobs| && i < |Run(events).done|
  }

  function Row(events: seq<Event>, i: nat): Job
    requires HasJob(events, i)
  {
    Run(events).db.jobs[i]
  }

  /** What job `i` has done in this run. */
  function Done(events: seq<Event>, i: nat): seq<Effect>
    requires HasJob(events, i)
  {
    Run(events).done[i]
  }

  // ---- The queue ----

  /** Running, and not left behind by an escape step of its executor. */
  ghost predicate Held(events: seq<Event>, i: nat) {
    i < |Run(events).db.jobs| && Run(events).db.jobs[i].status.Running? && !LeftBehind(events, i)
  }

  /** No two active jobs share a key. Of the running jobs all but one at most were left behind by an
      escape step since the last restart; a running job that needs the lock owns it exactly when it
      was not; and the lock is held only while the worker has a job. */
  lemma QueueSafety(events: seq<Event>)
    ensures var s := Run(events);
            && DistinctKeys(s.db.jobs)
            && (forall i, j :: Held(events, i) && Held(events, j) ==> i == j)
            && (forall i :: 0 <= i < |s.db.jobs| && s.db.jobs[i].status.Running? && NeedsLock(s.db.jobs[i].kind) ==>
                  (s.db.lock == Some(i) <==> !LeftBehind(events, i)))
            && (s.db.lock.Some? ==>
                  && s.task.Some? && s.task.value.id == s.db.lock.value && s.db.lock.value < |s.db.jobs|
                  && NeedsLock(s.db.jobs[s.db.lock.value].kind) && !s.db.jobs[s.db.lock.value].status.Pending?)
  {
    hide Sound, RowOk, DistinctKeys, Escalates, Run, LeftBehind;
    AlwaysInv(events);
    LockedIsStarted(Run(events));
    forall i: nat
      ensures i in Run(events).escaped <==> LeftBehind(events, i)
    {
      EscapedIff(events, i);
    }
  }

  /** When the worker starts, whatever happened before, nothing is running, the lock is free, and every
      job it interrupted asks for a manual review. */
  lemma RecoveryIsClean(events: seq<Event>)
    requires !Run(events).live
    ensures var s, next := Run(events), Run(events + [Restarted]);
            && next.db.lock == None && next.live && |next.db.jobs| == |s.db.jobs|
            && (forall i :: 0 <= i < |s.db.jobs| ==> !next.db.jobs[i].status.Running?)
            && (forall i :: 0 <= i < |s.db.jobs| && s.db.jobs[i].status.Running? ==>
                  next.db.jobs[i].status.Interrupted? && next.db.jobs[i].review)
            && (forall i :: 0 <= i < |s.db.jobs| && !s.db.jobs[i].status.Running? ==> next.db.jobs[i] == s.db.jobs[i])
  {
    hide Inv, Recover;
    AlwaysInv(events);
    assert (events + [Restarted])[..|events|] == events;
    LockedIsStarted(Run(events));
    RecoverStopsAll(Run(events).db);
    RecoverLength(Run(events).db);
  }

  lemma RecoverLength(db: Db)
    ensures |Recover(db).jobs| == |db.jobs|
  {
  }

  /** Every escalation in the table: a SIGKILL follows a failed SIGTERM, which follows a failed stop
      or an assisted shutdown that failed to stop. */
  lemma EscalationChain(events: seq<Event>, i: nat)
    requires i < |Run(events).db.jobs| && Run(events).db.jobs[i].kind.ForceKill?
    ensures var jobs := Run(events).db.jobs;
            exists j, k :: 0 <= k < j < i && jobs[i].source == Some(j) && jobs[j].source == Some(k)
              && jobs[j].kind.ForceTerm? && jobs[j].status.Failed? && jobs[k].status.Failed?
              && (jobs[k].kind.Stop? || (jobs[k].kind.Assisted? && jobs[k].failure.StopFailed?))
  {
    hide Sound, RowOk, DistinctKeys, Run;
    AlwaysInv(events);
    var jobs := Run(events).db.jobs;
    assert ValidSource(jobs, jobs[i].kind, jobs[i].source);
    var j := jobs[i].source.value;
    assert ValidSource(jobs, jobs[j].kind, jobs[j].source);
  }

  // ---- What is settled stays settled ----

  predicate Settled(before: Job, after: Job) {
    && after.kind == before.kind && after.source == before.source
    && (!Active(before) ==>
          !Active(after) && (after == before || (before.status.Succeeded? && after.status.Failed? && Logs(before.kind))))
  }

  ghost predicate Grows(s: State, t: State) {
    && |s.done| == |s.db.jobs| <= |t.db.jobs| == |t.done|
    && forall i :: 0 <= i < |s.db.jobs| ==> Settled(s.db.jobs[i], t.db.jobs[i]) && s.done[i] <= t.done[i]
  }

  lemma RowGrows(s: State, t: State, id: nat)
    requires Inv(s) && |t.db.jobs| == |s.db.jobs| == |t.done| && id < |s.db.jobs|
    requires forall i :: 0 <= i < |s.db.jobs| && i != id ==> t.db.jobs[i] == s.db.jobs[i] && t.done[i] == s.done[i]
    requires Settled(s.db.jobs[id], t.db.jobs[id]) && s.done[id] <= t.done[id]
    ensures Grows(s, t)
  {
    hide Sound, DistinctKeys, Escalates, RunningOk, TaskOk;
  }

  lemma EvolvesSettles(before: Job, after: Job)
    requires Evolves(before, after)
    ensures Settled(before, after)
  {
  }

  lemma OwnersGrow(s: State, event: Event)
    requires Inv(s) && !event.Step? && !event.Take?
    ensures Grows(s, Next(s, event))
  {
    hide Sound, DistinctKeys, Escalates, RunningOk, TaskOk, AtPc, RowOk, Evolves, CancelJob, NowJob, Admits;
    match event
    case CancelRequest(id) =>
      if id < |s.db.jobs| {
        SoundRow(s.db.jobs[id], s.done[id]);
        CancelKeeps(s.db.jobs[id], Progress(s.db.jobs[id], s.done[id]));
        EvolvesSettles(s.db.jobs[id], CancelJob(s.db.jobs[id]).0);
        RowGrows(s, Next(s, event), id);
      }
    case NowRequest(id) =>
      if id < |s.db.jobs| {
        SoundRow(s.db.jobs[id], s.done[id]);
        NowKeeps(s.db.jobs[id], Progress(s.db.jobs[id], s.done[id]));
        EvolvesSettles(s.db.jobs[id], NowJob(s.db.jobs[id]).0);
        RowGrows(s, Next(s, event), id);
      }
    case Restarted =>
      if !s.live {
        LockedIsStarted(s);
        RecoverStopsAll(s.db);
      }
    case Request(_, _, _, _, _) =>
    case Crash =>
  }

  lemma WorkerGrows(s: State, event: Event)
    requires Inv(s) && (event.Step? || event.Take?)
    ensures Grows(s, Next(s, event))
  {
    hide Sound, DistinctKeys, Escalates, RunningOk, AtPc, RowOk, Evolves, Claim, Execute;
    if event.Take? {
      TakeGrows(s);
    } else if s.live && s.task.Some? && !s.task.value.pc.Releasing? {
      var task := s.task.value;
      var l := Local(s.db.jobs[task.id], task.pc, task.critical, None);
      SoundRow(l.job, s.done[task.id]);
      ExecuteKeeps(l, Progress(l.job, s.done[task.id]), event.choice);
      EvolvesSettles(l.job, Execute(l, event.choice).job);
      RowGrows(s, Next(s, event), task.id);
    }
  }

  lemma TakeGrows(s: State)
    requires Inv(s)
    ensures Grows(s, Taken(s))
  {
    hide Sound, DistinctKeys, Escalates, RunningOk, TaskOk, RowOk, Claim;
    if s.live && s.task.None? {
      ClaimTakesLeast(s.db, ALL_KINDS);
      var (db, id) := Claim(s.db, ALL_KINDS);
      if id.Some? {
        RowGrows(s, Taken(s), id.value);
      }
    }
  }

  lemma GrowsTrans(r: State, s: State, t: State)
    requires Grows(r, s) && Grows(s, t)
    ensures Grows(r, t)
  {
    forall i | 0 <= i < |r.db.jobs|
      ensures Settled(r.db.jobs[i], t.db.jobs[i]) && r.done[i] <= t.done[i]
    {
      assert Settled(r.db.jobs[i], s.db.jobs[i]) && Settled(s.db.jobs[i], t.db.jobs[i]);
      assert r.done[i] <= s.done[i] <= t.done[i];
    }
  }

  /** Over any continuation of any run, no row is lost, what a job has done is only added to, and a job
      with a final status never becomes active again; its row never changes at all, save that an
      update or a check whose log cannot be written after its success counts as failed. */
  lemma {:induction false} SettledForGood(events: seq<Event>, more: seq<Event>)
    ensures Grows(Run(events), Run(events + more))
  {
    hide Inv, Grows, Run;
    if more == [] {
      assert events + more == events;
      AlwaysInv(events);
      GrowsRefl(Run(events));
    } else {
      var n := |more| - 1;
      SettledForGood(events, more[..n]);
      RunSnoc(events + more[..n], more[n]);
      assert events + more == events + more[..n] + [more[n]];
      AlwaysInv(events + more[..n]);
      var s := Run(events + more[..n]);
      if more[n].Step? || more[n].Take? {
        WorkerGrows(s, more[n]);
      } else {
        OwnersGrow(s, more[n]);
      }
      GrowsTrans(Run(events), s, Run(events + more));
    }
  }

  lemma GrowsRefl(s: State)
    requires Inv(s)
    ensures Grows(s, s)
  {
    hide Sound, DistinctKeys, Escalates, RunningOk, TaskOk;
  }

  /** When a finished row changes, exactly: the worker writes the failure of a job that has already
      succeeded. */
  lemma FinishedChangesIff(events: seq<Event>, event: Event, i: nat)
    requires HasJob(events, i) && !Active(Row(events, i))
    ensures var s := Run(events);
            HasJob(events + [event], i) &&
            (Row(events + [event], i) != Row(events, i) <==>
               event.Step? && !event.choice.Raise? && s.live && s.task.Some? && s.task.value.id == i && s.task.value.pc.Finish?)
  {
    hide Inv, Run, Next, Grows;
    AlwaysInv(events);
    RunSnoc(events, event);
    if event.Step? || event.Take? {
      WorkerGrows(Run(events), event);
    } else {
      OwnersGrow(Run(events), event);
    }
    FinishedRow(Run(events), event, i);
    GrowsLength(Run(events), Next(Run(events), event));
  }

  lemma GrowsLength(s: State, t: State)
    requires Grows(s, t)
    ensures |s.db.jobs| <= |t.db.jobs| == |t.done|
  {
  }

  lemma TakeKeepsFinished(s: State, i: nat)
    requires i < |s.db.jobs| && !Active(s.db.jobs[i])
    ensures i < |Taken(s).db.jobs| && Taken(s).db.jobs[i] == s.db.jobs[i]
  {
    hide Claim;
    if s.live && s.task.None? {
      ClaimTakesLeast(s.db, ALL_KINDS);
      var (db, id) := Claim(s.db, ALL_KINDS);
      if id.Some? {
        assert Eligible(s.db.jobs, ALL_KINDS, ReleaseTerminalLocks(s.db).lock.None?, id.value);
      }
    }
  }

  lemma FinishedRow(s: State, event: Event, i: nat)
    requires Inv(s) && i < |s.db.jobs| && !Active(s.db.jobs[i])
    ensures i < |Next(s, event).db.jobs|
    ensures Next(s, event).db.jobs[i] != s.db.jobs[i] <==>
              event.Step? && !event.choice.Raise? && s.live && s.task.Some? && s.task.value.id == i && s.task.value.pc.Finish?
  {
    hide Sound, DistinctKeys, Escalates, RunningOk, RowOk, Claim, Admits, AtPc, Execute;
    match event
    case Step(choice) =>
      if s.live && s.task.Some? && s.task.value.id == i && !s.task.value.pc.Releasing? {
        var task := s.task.value;
        SoundRow(s.db.jobs[i], s.done[i]);
        LateStep(Local(s.db.jobs[i], task.pc, task.critical, None), Progress(s.db.jobs[i], s.done[i]), choice);
      }
    case Take => TakeKeepsFinished(s, i);
    case Restarted =>
      if !s.live {
        LockedIsStarted(s);
        RecoverStopsAll(s.db);
        RecoverLength(s.db);
      }
    case Request(_, _, _, _, _) =>
    case CancelRequest(id) =>
    case NowRequest(id) =>
    case Crash =>
  }

  // The steps of an executor before its last write do not touch the status.

  lemma BackupKeepsStatus(l: Local, choice: Choice)
    ensures l.pc.Begin? ==> ExecuteBegin(l, choice).job == l.job
    ensures l.pc.Preparing? ==> ExecutePreparing(l, choice).job.status == l.job.status
    ensures l.pc.Copying? || l.pc.Closing? || l.pc.Publishing? || l.pc.Validating? || l.pc.Registering? ==>
              ExecuteBackup(l, choice).job.status == l.job.status
  {
    hide ExecuteCountdown, ExecuteStop, ExecuteApply, ExecuteStart, ExecuteOther;
  }

  lemma StopKeepsStatus(l: Local, choice: Choice)
    ensures l.pc.Contact? || l.pc.Counting? || l.pc.Marking? || l.pc.Announcing? ==>
              ExecuteCountdown(l, choice).job.status == l.job.status
    ensures l.pc.BeforeStop? || l.pc.StopCall? || l.pc.StopWait? ==> ExecuteStop(l, choice).job.status == l.job.status
  {
  }

  lemma ApplyKeepsStatus(l: Local, choice: Choice)
    ensures l.pc.BeforeApply? || l.pc.ApplyCall? || l.pc.ApplyWait? ==> ExecuteApply(l, choice).job.status == l.job.status
  {
  }

  lemma StartKeepsStatus(l: Local, choice: Choice)
    ensures l.pc.BeforeStart? || l.pc.StartCall? || l.pc.StartWait? || l.pc.BeforeVerify? || l.pc.Verifying? ==>
              ExecuteStart(l, choice).job.status == l.job.status
    ensures l.pc.RestartCall? || l.pc.RestartWait? || l.pc.SignalCall? || l.pc.SignalWait? || l.pc.Opaque? ==>
              ExecuteOther(l, choice).job == l.job
  {
  }

  lemma LateEnd(l: Local, k: int, choice: Choice)
    requires LocalOk(l, k) && (l.pc.Finish? || l.pc.Wrapup? || l.pc.LastTry?)
    ensures var next := ExecuteEnd(l, choice);
            && (!Active(l.job) ==> (next.job != l.job <==> l.pc.Finish? && !choice.Raise?))
            && (next.pc.Finish? && next.job.status.Succeeded? <==> l.pc.Wrapup? && !choice.Good?)
  {
    hide RowOk;
  }

  lemma OnlyEndIsLate(l: Local, k: int)
    requires LocalOk(l, k) && !l.pc.Releasing?
    ensures l.pc.Finish? || l.pc.Wrapup? || l.pc.LastTry? || l.job.status.Running?
  {
    hide RowOk;
  }

  lemma LateStep(l: Local, k: int, choice: Choice)
    requires LocalOk(l, k) && !Active(l.job) && !l.pc.Releasing? && l.effect.None?
    ensures Execute(l, choice).job != l.job <==> l.pc.Finish? && !choice.Raise?
  {
    hide LocalOk, ExecuteEnd;
    OnlyEndIsLate(l, k);
    LateEnd(l, k, choice);
  }

  /** A job that has succeeded is about to be marked as failed exactly after the step in which it cannot
      write its log. */
  lemma LateFailureIff(l: Local, k: int, choice: Choice)
    requires LocalOk(l, k) && !l.pc.Releasing?
    ensures var next := Execute(l, choice);
            next.pc.Finish? && next.job.status.Succeeded? <==> l.pc.Wrapup? && !choice.Good?
  {
    hide LocalOk, ExecuteBegin, ExecutePreparing, ExecuteBackup, ExecuteCountdown, ExecuteStop, ExecuteApply, ExecuteStart;
    hide ExecuteOther, ExecuteEnd;
    var plain := l.(effect := None);
    PlainLocal(l, k, plain);
    OnlyEndIsLate(l, k);
    BackupKeepsStatus(plain, choice);
    StopKeepsStatus(plain, choice);
    ApplyKeepsStatus(plain, choice);
    StartKeepsStatus(plain, choice);
    if l.pc.Finish? || l.pc.Wrapup? || l.pc.LastTry? {
      LateEnd(plain, k, choice);
    }
  }

  /** A job whose cancel request was accepted goes on to end as succeeded exactly when it is an update
      that has just found nothing to install. */
  lemma AckedSuccessIff(l: Local, k: int, choice: Choice)
    requires LocalOk(l, k) && l.job.cancelRequested && Between(l.pc)
    ensures var next := Execute(l, choice).pc;
            next.Finish? && next.status.Succeeded? <==>
              l.job.kind.Update? && l.pc == Preparing(0) && choice.Other?
  {
    hide RowOk, ExecuteBegin, ExecutePreparing, ExecuteBackup, ExecuteCountdown, ExecuteStop, ExecuteApply, ExecuteStart, ExecuteOther;
    var plain := l.(effect := None);
    PlainLocal(l, k, plain);
    AckedIsEarly(plain, k);
    EarlySuccess(plain, choice);
  }

  predicate Between(pc: Pc) {
    !pc.Finish? && !pc.Wrapup? && !pc.LastTry? && !pc.Releasing?
  }

  /** With an accepted cancel request the executor has not come to a call that can end in success. */
  lemma AckedIsEarly(l: Local, k: int)
    requires LocalOk(l, k) && l.job.cancelRequested && Between(l.pc)
    ensures l.pc.Begin? || l.pc.Preparing? || l.pc.Copying? || l.pc.Closing? || l.pc.Contact? || l.pc.Counting? || l.pc.Marking?
  {
  }

  lemma EarlySuccess(l: Local, choice: Choice)
    ensures l.pc.Begin? ==> !(ExecuteBegin(l, choice).pc.Finish? && ExecuteBegin(l, choice).pc.status.Succeeded?)
    ensures l.pc.Preparing? ==>
              ((ExecutePreparing(l, choice).pc.Finish? && ExecutePreparing(l, choice).pc.status.Succeeded?) <==>
                 l.job.kind.Update? && l.pc.left == 0 && choice.Other?)
    ensures l.pc.Copying? || l.pc.Closing? ==>
              !(ExecuteBackup(l, choice).pc.Finish? && ExecuteBackup(l, choice).pc.status.Succeeded?)
    ensures l.pc.Contact? || l.pc.Counting? || l.pc.Marking? ==>
              !(ExecuteCountdown(l, choice).pc.Finish? && ExecuteCountdown(l, choice).pc.status.Succeeded?)
  {
  }

  // ---- Cancellation ----

  lemma RowsOfRun(events: seq<Event>, i: nat)
    requires HasJob(events, i)
    ensures Sound(Row(events, i), Done(events, i))
  {
    hide Sound, DistinctKeys, Escalates, RunningOk, TaskOk, Run;
    AlwaysInv(events);
  }

  lemma AckedLast(job: Job, done: seq<Effect>)
    requires Sound(job, done)
    ensures Acked in done <==> job.cancelRequested
    ensures Acked in done ==>
              var k := |done| - 1;
              && k <= Limit(job.kind) && k <= Length(job.kind) && done == Script(job.kind)[..k] + [Acked]
              && (forall e :: e in done && e != Acked ==> e == Published || e == Preserved)
              && (!job.kind.Update? ==> done == [Acked])
  {
    var k := Progress(job, done);
    assert forall j :: 0 <= j < k ==> done[j] == Script(job.kind)[j] && done[j] != Acked;
    if job.cancelRequested {
      assert done[|done| - 1] == Acked;
      forall e | e in done && e != Acked
        ensures e == Published || e == Preserved
      {
        var j :| 0 <= j < |done| && done[j] == e;
        assert j < k && e == EffectAt(job.kind, j);
      }
    }
  }

  /** A job whose cancel request was accepted never stops the server, never installs an update, never
      sends a signal; all an update may have done before is its preventive backup, and a backup job
      publishes nothing. Nothing at all happens once it is accepted. */
  lemma CancelHonoured(events: seq<Event>, more: seq<Event>, i: nat)
    requires HasJob(events, i) && Acked in Done(events, i)
    ensures HasJob(events + more, i) && Done(events + more, i) == Done(events, i)
    ensures var job, done := Row(events, i), Done(events, i);
            && (forall e :: e in done && e != Acked ==> e == Published || e == Preserved)
            && (!job.kind.Update? ==> done == [Acked])
            && (job.status.Succeeded? ==> job.kind.Update?)
  {
    hide Sound, RowOk, Script, Run;
    SettledForGood(events, more);
    RowsOfRun(events, i);
    RowsOfRun(events + more, i);
    var job, done := Row(events, i), Done(events, i);
    var job', done' := Row(events + more, i), Done(events + more, i);
    assert done <= done';
    AckedLast(job, done);
    AckedLast(job', done');
    AckedOnce(done, done', job.kind);
    if job.status.Succeeded? {
      AckedSuccess(job, done);
    }
  }

  lemma AckedOnce(done: seq<Effect>, more: seq<Effect>, kind: Kind)
    requires done <= more && |done| > 0 && done[|done| - 1] == Acked
    requires |more| > 0 && |more| - 1 <= Length(kind) && more == Script(kind)[..|more| - 1] + [Acked]
    ensures more == done
  {
    assert forall j :: 0 <= j < |more| - 1 ==> more[j] == Script(kind)[j] && more[j] != Acked;
    assert more[|done| - 1] == Acked;
  }

  lemma AckedSuccess(job: Job, done: seq<Effect>)
    requires Sound(job, done) && Acked in done && job.status.Succeeded?
    ensures job.kind.Update?
  {
    AckedLast(job, done);
  }

  /** Once `mark_irreversible` has answered CONTINUE, no cancel request is accepted, ever. */
  lemma CommitHonoured(events: seq<Event>, more: seq<Event>, i: nat)
    requires HasJob(events, i) && Committed in Done(events, i)
    ensures HasJob(events + more, i) && !CancelJob(Row(events + more, i)).1
    ensures Acked !in Done(events + more, i)
  {
    hide Sound, RowOk, Script, Run, CancelJob;
    SettledForGood(events, more);
    RowsOfRun(events + more, i);
    RowsOfRun(events, i);
    var job, done := Row(events + more, i), Done(events + more, i);
    assert Done(events, i) <= done;
    AckedLast(job, done);
    CommittedRefuses(job, done);
  }

  lemma CommittedRefuses(job: Job, done: seq<Effect>)
    requires Sound(job, done) && Committed in done
    ensures !CancelJob(job).1
  {
    var j :| 0 <= j < |done| && done[j] == Committed;
    var k := Progress(job, done);
    assert j < k && Committed == EffectAt(job.kind, j);
  }

  // ---- The order of what jobs do ----

  /** Every `b` comes after an `a`. */
  predicate After(done: seq<Effect>, a: Effect, b: Effect) {
    forall j :: 0 <= j < |done| && done[j] == b ==> a in done[..j]
  }

  /** A job that succeeded did everything its kind does; the one exception is an update that found
      nothing to install, which did nothing. */
  lemma SuccessIsComplete(events: seq<Event>, i: nat)
    requires HasJob(events, i) && Row(events, i).status.Succeeded?
    ensures var job, done := Row(events, i), Done(events, i);
            done == Script(job.kind) || (job.kind.Update? && (done == [] || done == [Acked]))
  {
    hide Script, Run;
    RowsOfRun(events, i);
    var job, done := Row(events, i), Done(events, i);
    var k := Progress(job, done);
    assert Script(job.kind)[..|Script(job.kind)|] == Script(job.kind);
    assert job.cancelRequested ==> Cancels(job.kind) && k <= Limit(job.kind);
  }

  lemma ScriptPoint(job: Job, done: seq<Effect>, e: Effect)
    requires Sound(job, done) && e in done && e != Acked
    ensures exists j :: 0 <= j < Progress(job, done) && EffectAt(job.kind, j) == e
    ensures forall j :: 0 <= j < |done| && done[j] == e ==> j < Progress(job, done) && EffectAt(job.kind, j) == e
    ensures forall j :: 0 <= j < Progress(job, done) ==> j < |done| && done[j] == EffectAt(job.kind, j)
  {
    hide EffectAt;
    var k := Progress(job, done);
    assert forall j :: 0 <= j < k ==> done[j] == Script(job.kind)[..k][j];
    assert forall j :: k <= j < |done| ==> done[j] == Acked;
    var j :| 0 <= j < |done| && done[j] == e;
  }

  /** An update installs only after a committed preventive backup, after its own point of no return,
      and after the server stopped; and past that point it never ends as cancelled, and if it fails
      or is interrupted, it asks for a manual review. */
  lemma UpdateOrdered(events: seq<Event>, i: nat)
    requires HasJob(events, i) && Row(events, i).kind.Update?
    ensures var job, done := Row(events, i), Done(events, i);
            && After(done, Preserved, ApplyIssued) && After(done, Committed, StopIssued) && After(done, StopOk, ApplyIssued)
            && After(done, ApplyOk, StartIssued) && After(done, StartOk, Verified)
            && (Committed in done ==> !job.status.Cancelled? && (job.status.Failed? || job.status.Interrupted? ==> job.review))
  {
    hide Sound, Run;
    RowsOfRun(events, i);
    var job, done := Row(events, i), Done(events, i);
    UpdateAfter(job, done);
    if Committed in done {
      UpdateReviewed(job, done);
    }
  }

  lemma UpdateAfter(job: Job, done: seq<Effect>)
    requires Sound(job, done) && job.kind.Update?
    ensures After(done, Preserved, ApplyIssued) && After(done, Committed, StopIssued) && After(done, StopOk, ApplyIssued)
    ensures After(done, ApplyOk, StartIssued) && After(done, StartOk, Verified)
  {
    hide Sound, After;
    LongAfter(job, done, 1, 5);
    LongAfter(job, done, 2, 3);
    LongAfter(job, done, 4, 5);
    LongAfter(job, done, 6, 7);
    LongAfter(job, done, 8, 9);
  }

  /** In a script without repetitions, earlier effects come earlier. */
  lemma LongAfter(job: Job, done: seq<Effect>, a: nat, b: nat)
    requires Sound(job, done) && Long(job.kind) && a < b < 10
    ensures After(done, EffectAt(job.kind, a), EffectAt(job.kind, b))
  {
    hide Sound;
    forall j | 0 <= j < |done| && done[j] == EffectAt(job.kind, b)
      ensures EffectAt(job.kind, a) in done[..j]
    {
      ScriptPoint(job, done, EffectAt(job.kind, b));
      LengthBound(job, done);
      assert j == b && done[..j][a] == EffectAt(job.kind, a);
    }
  }

  lemma LengthBound(job: Job, done: seq<Effect>)
    requires Sound(job, done)
    ensures 0 <= Progress(job, done) <= Length(job.kind)
  {
    hide EffectAt;
  }

  lemma UpdateReviewed(job: Job, done: seq<Effect>)
    requires Sound(job, done) && job.kind.Update? && Committed in done
    ensures !job.status.Cancelled? && (job.status.Failed? || job.status.Interrupted? ==> job.review)
  {
    hide Script;
    ScriptPoint(job, done, Committed);
  }

  /** A restore replaces the world only after its preventive backup is registered, the server has
      stopped, and the row says so; and from then on, at every point, crashed or not, the row says
      so, and a failed or interrupted restore asks for a manual review. */
  lemma RestoreOrdered(events: seq<Event>, i: nat)
    requires HasJob(events, i) && Row(events, i).kind.Restore?
    ensures var job, done := Row(events, i), Done(events, i);
            && After(done, Preserved, ApplyIssued) && After(done, StopOk, ApplyIssued) && After(done, Recorded, ApplyIssued)
            && After(done, ApplyOk, StartIssued) && After(done, StartOk, Verified)
            && (ApplyIssued in done ==> job.destructive && (job.status.Failed? || job.status.Interrupted? ==> job.review))
  {
    hide Sound, Run;
    RowsOfRun(events, i);
    var job, done := Row(events, i), Done(events, i);
    RestoreAfter(job, done);
    if ApplyIssued in done {
      RestoreReviewed(job, done);
    }
  }

  lemma RestoreAfter(job: Job, done: seq<Effect>)
    requires Sound(job, done) && job.kind.Restore?
    ensures After(done, Preserved, ApplyIssued) && After(done, StopOk, ApplyIssued) && After(done, Recorded, ApplyIssued)
    ensures After(done, ApplyOk, StartIssued) && After(done, StartOk, Verified)
  {
    hide Sound, After;
    LongAfter(job, done, 1, 5);
    LongAfter(job, done, 3, 5);
    LongAfter(job, done, 4, 5);
    LongAfter(job, done, 6, 7);
    LongAfter(job, done, 8, 9);
  }

  lemma RestoreReviewed(job: Job, done: seq<Effect>)
    requires Sound(job, done) && job.kind.Restore? && ApplyIssued in done
    ensures job.destructive && (job.status.Failed? || job.status.Interrupted? ==> job.review)
  {
    hide Script;
    ScriptPoint(job, done, ApplyIssued);
  }
}
