/** When a job asks for a manual review, and when its row says that the world was touched, over every
    run. */
module JobReview {
  import opened Common
  import opened JobTable
  import opened JobExecutor
  import opened JobProtocol
  import opened JobGuarantees

  /** A job that has done `k` steps of its script asks for a review with a reason: it was interrupted, or
      it is an update that failed with its preventive backup registered or past the worker's last
      handler, or a restore that has stopped the server. */
  predicate ReviewOk(job: Job, k: int) {
    && (job.review ==>
          || job.status.Interrupted?
          || (job.kind.Update? && job.status.Failed? && (2 <= k || job.failure.Unexpected?))
          || (job.kind.Restore? && (job.status.Failed? || job.status.Running?) && 4 <= k))
    && (job.destructive ==> job.kind.Restore? && 4 <= k)
  }

  predicate CriticalOk(kind: Kind, k: int, critical: bool) {
    critical ==> (kind.Update? && 2 <= k) || (kind.Restore? && 4 <= k)
  }

  predicate ReviewStep(l: Local, k: int, next: Local) {
    var after := if next.effect.Some? then k + 1 else k;
    ReviewOk(next.job, after) && CriticalOk(next.job.kind, after, next.critical)
  }

  lemma EarlyReview(l: Local, k: int, choice: Choice)
    requires AtPc(l.job, k, l.pc, l.critical) && ReviewOk(l.job, k) && CriticalOk(l.job.kind, k, l.critical) && l.effect.None?
    ensures l.pc.Begin? ==> ReviewStep(l, k, ExecuteBegin(l, choice))
    ensures l.pc.Preparing? ==> ReviewStep(l, k, ExecutePreparing(l, choice))
    ensures l.pc.Copying? || l.pc.Closing? || l.pc.Publishing? || l.pc.Validating? || l.pc.Registering? ==>
              ReviewStep(l, k, ExecuteBackup(l, choice))
  {
  }

  lemma CountdownReview(l: Local, k: int, choice: Choice)
    requires AtPc(l.job, k, l.pc, l.critical) && ReviewOk(l.job, k) && CriticalOk(l.job.kind, k, l.critical) && l.effect.None?
    ensures l.pc.Contact? || l.pc.Counting? || l.pc.Marking? || l.pc.Announcing? ==> ReviewStep(l, k, ExecuteCountdown(l, choice))
  {
  }

  lemma StopReview(l: Local, k: int, choice: Choice)
    requires AtPc(l.job, k, l.pc, l.critical) && ReviewOk(l.job, k) && CriticalOk(l.job.kind, k, l.critical) && l.effect.None?
    ensures l.pc.BeforeStop? || l.pc.StopCall? || l.pc.StopWait? ==> ReviewStep(l, k, ExecuteStop(l, choice))
  {
  }

  lemma ApplyReview(l: Local, k: int, choice: Choice)
    requires AtPc(l.job, k, l.pc, l.critical) && ReviewOk(l.job, k) && CriticalOk(l.job.kind, k, l.critical) && l.effect.None?
    ensures l.pc.BeforeApply? || l.pc.ApplyCall? || l.pc.ApplyWait? ==> ReviewStep(l, k, ExecuteApply(l, choice))
  {
  }

  lemma StartReview(l: Local, k: int, choice: Choice)
    requires AtPc(l.job, k, l.pc, l.critical) && ReviewOk(l.job, k) && CriticalOk(l.job.kind, k, l.critical) && l.effect.None?
    ensures l.pc.BeforeStart? || l.pc.StartCall? || l.pc.StartWait? || l.pc.BeforeVerify? || l.pc.Verifying? ==>
              ReviewStep(l, k, ExecuteStart(l, choice))
  {
  }

  lemma OtherReview(l: Local, k: int, choice: Choice)
    requires AtPc(l.job, k, l.pc, l.critical) && ReviewOk(l.job, k) && CriticalOk(l.job.kind, k, l.critical) && l.effect.None?
    ensures l.pc.RestartCall? || l.pc.RestartWait? || l.pc.SignalCall? || l.pc.SignalWait? || l.pc.Opaque? ==>
              ReviewStep(l, k, ExecuteOther(l, choice))
  {
  }

  lemma FinishReview(l: Local, k: int, choice: Choice)
    requires AtPc(l.job, k, l.pc, l.critical) && ReviewOk(l.job, k) && CriticalOk(l.job.kind, k, l.critical) && l.effect.None?
    ensures l.pc.Finish? ==> ReviewStep(l, k, ExecuteEnd(l, choice))
  {
  }

  lemma LastReview(l: Local, k: int, choice: Choice)
    requires AtPc(l.job, k, l.pc, l.critical) && ReviewOk(l.job, k) && CriticalOk(l.job.kind, k, l.critical) && l.effect.None?
    ensures l.pc.Wrapup? || l.pc.LastTry? ==> ReviewStep(l, k, ExecuteEnd(l, choice))
  {
  }

  lemma StepReview(l: Local, k: int, choice: Choice)
    requires AtPc(l.job, k, l.pc, l.critical) && ReviewOk(l.job, k) && CriticalOk(l.job.kind, k, l.critical)
    requires l.effect.None? && !l.pc.Releasing?
    ensures ReviewStep(l, k, Execute(l, choice))
  {
    hide AtPc, ReviewOk, CriticalOk, ReviewStep;
    hide ExecuteBegin, ExecutePreparing, ExecuteBackup, ExecuteCountdown, ExecuteStop, ExecuteApply, ExecuteStart, ExecuteOther, ExecuteEnd;
    EarlyReview(l, k, choice);
    CountdownReview(l, k, choice);
    StopReview(l, k, choice);
    ApplyReview(l, k, choice);
    StartReview(l, k, choice);
    OtherReview(l, k, choice);
    FinishReview(l, k, choice);
    LastReview(l, k, choice);
    assert l.(effect := None) == l;
  }

  // ---- Over runs ----

  ghost predicate ReviewsOk(s: State) {
    && |s.done| == |s.db.jobs|
    && (forall i :: 0 <= i < |s.db.jobs| ==> ReviewOk(s.db.jobs[i], Progress(s.db.jobs[i], s.done[i])))
    && (s.task.Some? && s.task.value.id < |s.db.jobs| ==>
          var id := s.task.value.id;
          CriticalOk(s.db.jobs[id].kind, Progress(s.db.jobs[id], s.done[id]), s.task.value.critical))
  }

  lemma RowReview(s: State, i: nat, job: Job, done: seq<Effect>, task: Option<Task>)
    requires ReviewsOk(s) && i < |s.db.jobs| && ReviewOk(job, Progress(job, done))
    requires task.Some? && task.value.id == i ==> CriticalOk(job.kind, Progress(job, done), task.value.critical)
    requires task.Some? && task.value.id != i ==> task == s.task
    ensures ReviewsOk(WithRow(s, i, job, done).(task := task))
  {
    hide ReviewOk, CriticalOk;
  }

  lemma AskedReview(s: State, i: nat)
    requires ReviewsOk(s)
    ensures ReviewsOk(CancelAsked(s, i)) && ReviewsOk(NowAsked(s, i))
  {
    hide CriticalOk;
    if i < |s.db.jobs| {
      var job, done := s.db.jobs[i], s.done[i];
      var acked := done + if CancelJob(job).1 then [Acked] else [];
      assert Progress(CancelJob(job).0, acked) == Progress(job, done);
      assert Progress(NowJob(job).0, done) == Progress(job, done);
      RowReview(s, i, CancelJob(job).0, acked, s.task);
      RowReview(s, i, NowJob(job).0, done, s.task);
    }
  }

  lemma SteppedReview(s: State, choice: Choice)
    requires Inv(s) && ReviewsOk(s)
    ensures ReviewsOk(Stepped(s, choice))
  {
    hide DistinctKeys, Escalates, RunningOk, RowOk, AtPc, Execute, ReviewOk, CriticalOk, Script;
    if s.live && s.task.Some? && !s.task.value.pc.Releasing? {
      var task := s.task.value;
      var l := Local(s.db.jobs[task.id], task.pc, task.critical, None);
      var done := s.done[task.id];
      var k := Progress(l.job, done);
      StepReview(l, k, choice);
      var next := Execute(l, choice);
      SoundRow(l.job, done);
      SameAnswer(l, k, choice);
      var more := done + if next.effect.Some? then [next.effect.value] else [];
      assert Progress(next.job, more) == if next.effect.Some? then k + 1 else k;
      RowReview(s, task.id, next.job, more, Some(Task(task.id, next.pc, next.critical)));
    }
  }

  lemma SameAnswer(l: Local, k: int, choice: Choice)
    requires RowOk(l.job, k) && AtPc(l.job, k, l.pc, l.critical) && !l.pc.Releasing?
    ensures Execute(l, choice).job.cancelRequested == l.job.cancelRequested
  {
    hide RowOk, AtPc, Execute;
    ExecuteKeeps(l, k, choice);
  }

  lemma TakenReview(s: State)
    requires ReviewsOk(s)
    ensures ReviewsOk(Taken(s))
  {
    hide Claim;
    if s.live && s.task.None? {
      ClaimTakesLeast(s.db, ALL_KINDS);
      var (db, id) := Claim(s.db, ALL_KINDS);
      assert id.None? ==> db.jobs == s.db.jobs;
    }
  }

  lemma RequestedReview(s: State, job: Job)
    requires ReviewsOk(s) && ReviewOk(job, Progress(job, []))
    requires s.task.Some? ==> s.task.value.id < |s.db.jobs|
    ensures ReviewsOk(Requested(s, job))
  {
    hide Admits, ReviewOk, CriticalOk;
    if Enqueue(s.db, job).Some? {
      var next := Requested(s, job);
      assert forall j :: 0 <= j < |s.db.jobs| ==> next.db.jobs[j] == s.db.jobs[j] && next.done[j] == s.done[j];
    }
  }

  lemma RestartedReview(s: State)
    requires ReviewsOk(s)
    ensures ReviewsOk(Next(s, Restarted))
  {
  }

  lemma NextReview(s: State, event: Event)
    requires Inv(s) && ReviewsOk(s)
    ensures ReviewsOk(Next(s, event))
  {
    hide ReviewOk, CriticalOk, Stepped, Taken, CancelAsked, NowAsked, Requested, Recover, RowsOk, DistinctKeys, Escalates, RunningOk;
    match event
    case Request(kind, minutes, source, record, createdAt) =>
      NewReview(NewJob(kind, minutes, source, record, createdAt));
      RequestedReview(s, NewJob(kind, minutes, source, record, createdAt));
    case CancelRequest(id) => AskedReview(s, id);
    case NowRequest(id) => AskedReview(s, id);
    case Take => TakenReview(s);
    case Step(choice) => SteppedReview(s, choice);
    case Crash =>
    case Restarted => RestartedReview(s);
  }

  lemma NewReview(job: Job)
    requires !job.review && !job.destructive
    ensures ReviewOk(job, Progress(job, []))
  {
  }

  lemma {:induction false} AlwaysReviewsOk(events: seq<Event>)
    ensures ReviewsOk(Run(events))
  {
    hide Inv, Next, ReviewOk, CriticalOk;
    if events != [] {
      var n := |events| - 1;
      AlwaysReviewsOk(events[..n]);
      AlwaysInv(events[..n]);
      NextReview(Run(events[..n]), events[n]);
    }
  }

  /** No review is asked for without a reason: a successful or cancelled job never asks for one; a failed
      update only if its preventive backup was registered, or if it ended in the worker's last handler; a
      restore only after the server was stopped for it. No other job says that it touched the world than
      a restore that stopped the server. With `UpdateOrdered` and `RestoreOrdered`, which say when a
      review must be asked for, this bounds the flag from both sides. */
  lemma ReviewHasReason(events: seq<Event>, i: nat)
    requires HasJob(events, i)
    ensures var job, done := Row(events, i), Done(events, i);
            && (job.review ==> job.status.Interrupted? || job.status.Failed? || (job.status.Running? && job.kind.Restore?))
            && (job.review && job.status.Failed? && job.kind.Update? ==> Preserved in done || job.failure.Unexpected?)
            && (job.review && !job.status.Interrupted? ==> job.kind.Update? || (job.kind.Restore? && StopOk in done))
            && (job.destructive ==> job.kind.Restore? && StopOk in done)
  {
    hide Run, Sound;
    AlwaysReviewsOk(events);
    RowsOfRun(events, i);
    var job, done := Row(events, i), Done(events, i);
    HasDone(job, done);
  }

  lemma HasDone(job: Job, done: seq<Effect>)
    requires Sound(job, done)
    ensures Long(job.kind) && 2 <= Progress(job, done) ==> Preserved in done
    ensures job.kind.Restore? && 4 <= Progress(job, done) ==> StopOk in done
  {
    hide RowOk;
    var k := Progress(job, done);
    assert forall j :: 0 <= j < k ==> done[j] == Script(job.kind)[..k][j];
    assert Long(job.kind) && 2 <= k ==> done[1] == EffectAt(job.kind, 1);
    assert job.kind.Restore? && 4 <= k ==> done[3] == EffectAt(job.kind, 3);
  }
}
