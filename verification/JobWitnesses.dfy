/** Concrete runs of the queue in which something happens that its documentation does not lead one to
    expect. */
module JobWitnesses {
  import opened Common
  import opened JobTable
  import opened JobExecutor
  import opened JobProtocol
  import opened JobEscapes

  // ---- Two running jobs that need the lock ----

  const BACKUP_REQUEST: Event := Request(Backup, 0, None, 0, 0)
  const STOP_REQUEST: Event := Request(Stop, 0, None, 0, 1)

  /** A backup whose executor raises outside its own handlers: the worker swallows the exception,
      releases the lock, and claims the next job while the first still counts as running. */
  const ESCAPE_RUN: seq<Event> := [Restarted, BACKUP_REQUEST, Take, Step(Raise), Step(Good), STOP_REQUEST, Take]

  lemma EscapeBreaksTheLock()
    ensures var s := Run(ESCAPE_RUN);
            && |s.db.jobs| == 2 && s.db.jobs[0].status.Running? && s.db.jobs[1].status.Running?
            && NeedsLock(s.db.jobs[0].kind) && NeedsLock(s.db.jobs[1].kind)
            && s.db.lock == Some(1) && LeftBehind(ESCAPE_RUN, 0) && !LeftBehind(ESCAPE_RUN, 1)
  {
    hide Run, Next, Claim, Execute, Admits, LeftBehind;
    EscapedIff(ESCAPE_RUN, 0);
    EscapedIff(ESCAPE_RUN, 1);
    var backup := NewJob(Backup, 0, None, 0, 0);
    var stop := NewJob(Stop, 0, None, 0, 1);
    var running := backup.(status := Running);
    FirstEvents(backup);
    var claimed := State(Db([running], Some(0)), [[]], true, Some(Task(0, Begin, false)), {});
    EscapeSteps(claimed, running);
    var released := State(Db([running], None), [[]], true, None, {0});
    StopAdmitted(released, running, stop);
    var start := [Restarted, BACKUP_REQUEST, Take];
    RunSnoc(start, Step(Raise));
    RunSnoc(start + [Step(Raise)], Step(Good));
    RunSnoc(start + [Step(Raise)] + [Step(Good)], STOP_REQUEST);
    RunSnoc(start + [Step(Raise)] + [Step(Good)] + [STOP_REQUEST], Take);
    assert ESCAPE_RUN == start + [Step(Raise)] + [Step(Good)] + [STOP_REQUEST] + [Take];
  }

  lemma FirstEvents(backup: Job)
    requires backup == NewJob(Backup, 0, None, 0, 0)
    ensures Run([Restarted, BACKUP_REQUEST, Take]) ==
            State(Db([backup.(status := Running)], Some(0)), [[]], true, Some(Task(0, Begin, false)), {})
  {
    hide Run, Claim;
    EmptyRun();
    RunSnoc([], Restarted);
    RunSnoc([] + [Restarted], BACKUP_REQUEST);
    RunSnoc([] + [Restarted] + [BACKUP_REQUEST], Take);
    assert [Restarted, BACKUP_REQUEST, Take] == [] + [Restarted] + [BACKUP_REQUEST] + [Take];
    assert Run([] + [Restarted]) == State(Db([], None), [], true, None, {});
    assert Enqueue(Db([], None), backup) == Some(Db([backup], None)) by {
      assert [] + [backup] == [backup];
    }
    assert Run([] + [Restarted] + [BACKUP_REQUEST]) == State(Db([backup], None), [[]], true, None, {});
    FirstClaim(backup);
  }

  lemma EmptyRun()
    ensures Run([]) == INITIAL
  {
  }

  lemma FirstClaim(job: Job)
    requires job.status.Pending? && NeedsLock(job.kind)
    ensures Claim(Db([job], None), ALL_KINDS) == (Db([job.(status := Running)], Some(0)), Some(0))
  {
    hide Pick;
    PickIsLeast([job], ALL_KINDS, true, 1);
    assert Eligible([job], ALL_KINDS, true, 0);
    assert [job][0 := job.(status := Running)] == [job.(status := Running)];
  }

  lemma EscapeSteps(claimed: State, running: Job)
    requires running.kind.Backup? && running.status.Running?
    requires claimed == State(Db([running], Some(0)), [[]], true, Some(Task(0, Begin, false)), {})
    ensures Next(Next(claimed, Step(Raise)), Step(Good)) == State(Db([running], None), [[]], true, None, {0})
  {
    var l := Local(running, Begin, false, None);
    assert Execute(l, Raise) == l.(pc := Releasing(false));
    var nothing: seq<Effect> := [];
    assert [running][0 := running] == [running];
    assert nothing + nothing == nothing;
    assert [nothing][0 := nothing] == [nothing];
    assert Next(claimed, Step(Raise)) == State(Db([running], Some(0)), [[]], true, Some(Task(0, Releasing(false), false)), {});
  }

  lemma StopAdmitted(released: State, running: Job, stop: Job)
    requires running.kind.Backup? && running.status.Running? && stop == NewJob(Stop, 0, None, 0, 1)
    requires released == State(Db([running], None), [[]], true, None, {0})
    ensures Next(Next(released, STOP_REQUEST), Take)
         == State(Db([running, stop.(status := Running)], Some(1)), [[], []], true, Some(Task(1, Begin, false)), {0})
  {
    hide Claim;
    assert Admits([running], stop) && NoActiveKey([running], LifecycleKey);
    assert [running] + [stop] == [running, stop];
    var nothing: seq<Effect> := [];
    assert [nothing] + [nothing] == [nothing, nothing];
    assert Enqueue(released.db, stop) == Some(Db([running, stop], None));
    SecondClaim(running, stop);
  }

  lemma SecondClaim(running: Job, stop: Job)
    requires running.status.Running? && stop.status.Pending? && NeedsLock(stop.kind)
    ensures Claim(Db([running, stop], None), ALL_KINDS) == (Db([running, stop.(status := Running)], Some(1)), Some(1))
  {
    hide Pick;
    var jobs := [running, stop];
    PickIsLeast(jobs, ALL_KINDS, true, 2);
    assert Eligible(jobs, ALL_KINDS, true, 1) && !Eligible(jobs, ALL_KINDS, true, 0);
    assert jobs[1 := stop.(status := Running)] == [running, stop.(status := Running)];
  }

  // ---- A completed check that ends as failed ----

  const CHECK_REQUEST: Event := Request(UpdateCheck, 0, None, 0, 0)

  /** One more event. */
  lemma Advance(events: seq<Event>, event: Event, t: State)
    requires Next(Run(events), event) == t
    ensures Run(events + [event]) == t
  {
    hide Run, Next;
    RunSnoc(events, event);
  }

  /** One step of the executor without an effect. */
  lemma StepTo(events: seq<Event>, choice: Choice, l: Local, next: Local)
    requires var s := Run(events);
             && s.live && s.task.Some? && s.task.value.id < |s.db.jobs| == |s.done|
             && l == Local(s.db.jobs[s.task.value.id], s.task.value.pc, s.task.value.critical, None)
    requires !l.pc.Releasing? && Execute(l, choice) == next && next.effect.None?
    ensures var s := Run(events);
            Run(events + [Step(choice)]) ==
            State(Db(s.db.jobs[s.task.value.id := next.job], s.db.lock), s.done, true,
                  Some(Task(s.task.value.id, next.pc, next.critical)), s.escaped)
  {
    hide Run, Execute;
    var s := Run(events);
    var id := s.task.value.id;
    assert s.done[id] + [] == s.done[id] && s.done[id := s.done[id]] == s.done;
    RunSnoc(events, Step(choice));
  }

  function CheckState(job: Job, pc: Pc): State {
    State(Db([job], None), [[]], true, Some(Task(0, pc, false)), {})
  }

  const CHECK_CLAIMED: seq<Event> := [Restarted] + [CHECK_REQUEST] + [Take]

  /** Claimed, executed, and its success written. */
  const CHECK_DONE: seq<Event> := CHECK_CLAIMED + [Step(Good)] + [Step(Good)] + [Step(Good)]

  function CheckJob(status: Status): Job {
    NewJob(UpdateCheck, 0, None, 0, 0).(status := status)
  }

  lemma FirstCheck()
    ensures Run(CHECK_CLAIMED) == CheckState(CheckJob(Running), Begin)
  {
    hide Run, Claim;
    var job := CheckJob(Pending);
    EmptyRun();
    assert [Restarted] == [] + [Restarted];
    Advance([], Restarted, State(Db([], None), [], true, None, {}));
    assert Enqueue(Db([], None), job) == Some(Db([job], None)) by {
      assert [] + [job] == [job];
    }
    Advance([Restarted], CHECK_REQUEST, State(Db([job], None), [[]], true, None, {}));
    OnlyClaim(job);
    Advance([Restarted] + [CHECK_REQUEST], Take, CheckState(CheckJob(Running), Begin));
  }

  lemma OnlyClaim(job: Job)
    requires job.status.Pending? && !NeedsLock(job.kind)
    ensures Claim(Db([job], None), ALL_KINDS) == (Db([job.(status := Running)], None), Some(0))
  {
    hide Pick;
    PickIsLeast([job], ALL_KINDS, true, 1);
    assert Eligible([job], ALL_KINDS, true, 0);
    assert [job][0 := job.(status := Running)] == [job.(status := Running)];
  }

  lemma CheckStep(events: seq<Event>, choice: Choice, job: Job, pc: Pc, next: Job, nextPc: Pc)
    requires Run(events) == CheckState(job, pc) && !pc.Releasing?
    requires Execute(Local(job, pc, false, None), choice) == Local(next, nextPc, false, None)
    ensures Run(events + [Step(choice)]) == CheckState(next, nextPc)
  {
    hide Run, Execute;
    StepTo(events, choice, Local(job, pc, false, None), Local(next, nextPc, false, None));
    assert [job][0 := next] == [next];
  }

  lemma CheckSucceeds()
    ensures Run(CHECK_DONE) == CheckState(CheckJob(Succeeded), Wrapup)
  {
    hide Run;
    FirstCheck();
    var job := CheckJob(Running);
    CheckStep(CHECK_CLAIMED, Good, job, Begin, job, Opaque);
    CheckStep(CHECK_CLAIMED + [Step(Good)], Good, job, Opaque, job, Finish(Succeeded, NoFailure));
    CheckStep(CHECK_CLAIMED + [Step(Good)] + [Step(Good)], Good, job, Finish(Succeeded, NoFailure), CheckJob(Succeeded), Wrapup);
  }

  /** An update check whose success is in the table fails when its log cannot be written. */
  lemma SuccessIsLost()
    ensures Run(CHECK_DONE).db.jobs == [CheckJob(Succeeded)]
    ensures Run(CHECK_DONE + [Step(Raise)] + [Step(Good)]).db.jobs == [CheckJob(Failed)]
  {
    hide Run;
    CheckSucceeds();
    CheckStep(CHECK_DONE, Raise, CheckJob(Succeeded), Wrapup, CheckJob(Succeeded), Finish(Failed, NoFailure));
    CheckStep(CHECK_DONE + [Step(Raise)], Good, CheckJob(Succeeded), Finish(Failed, NoFailure), CheckJob(Failed), Releasing(false));
  }

  // ---- An accepted cancel request, and success ----

  const UPDATE_REQUEST: Event := Request(Update, 0, None, 0, 1)

  /** The check is over, and an update is claimed. */
  const UPDATE_CLAIMED: seq<Event> := CHECK_DONE + [Step(Good)] + [Step(Good)] + [UPDATE_REQUEST] + [Take]

  /** The update compares versions when a cancel request comes; there is nothing to install. */
  const CANCEL_RUN: seq<Event> :=
    UPDATE_CLAIMED + [Step(Good)] + [Step(Good)] + [Step(Good)] + [CancelRequest(1)] + [Step(Other)] + [Step(Good)]

  function UpdateJob(status: Status): Job {
    NewJob(Update, 0, None, 0, 1).(status := status)
  }

  function UpdateState(job: Job, done: seq<Effect>, pc: Pc): State {
    State(Db([CheckJob(Succeeded), job], Some(1)), [[], done], true, Some(Task(1, pc, false)), {})
  }

  lemma UpdateBegins()
    ensures Run(UPDATE_CLAIMED) == UpdateState(UpdateJob(Running), [], Begin)
  {
    hide Run, Claim, Admits;
    var check, job := CheckJob(Succeeded), UpdateJob(Pending);
    CheckSucceeds();
    CheckStep(CHECK_DONE, Good, check, Wrapup, check, Releasing(false));
    var idle := State(Db([check], None), [[]], true, None, {});
    Advance(CHECK_DONE + [Step(Good)], Step(Good), idle);
    UpdateAdmitted(check, job);
    var nothing: seq<Effect> := [];
    assert [nothing] + [nothing] == [nothing, nothing];
    var waiting := State(Db([check, job], None), [nothing, nothing], true, None, {});
    Advance(CHECK_DONE + [Step(Good)] + [Step(Good)], UPDATE_REQUEST, waiting);
    SecondIsClaimed(check, job);
    Advance(CHECK_DONE + [Step(Good)] + [Step(Good)] + [UPDATE_REQUEST], Take, UpdateState(UpdateJob(Running), [], Begin));
  }

  lemma UpdateAdmitted(check: Job, job: Job)
    requires check == CheckJob(Succeeded) && job == UpdateJob(Pending)
    ensures Enqueue(Db([check], None), job) == Some(Db([check, job], None))
  {
    assert LatestCheck([check]) == Some(check);
    assert NoActiveKey([check], LifecycleKey) && NoActiveKey([check], UpdateCheckKey);
    assert [check] + [job] == [check, job];
  }

  lemma SecondIsClaimed(first: Job, second: Job)
    requires !Active(first) && second.status.Pending? && NeedsLock(second.kind)
    ensures Claim(Db([first, second], None), ALL_KINDS) == (Db([first, second.(status := Running)], Some(1)), Some(1))
  {
    hide Pick;
    var jobs := [first, second];
    PickIsLeast(jobs, ALL_KINDS, true, 2);
    assert Eligible(jobs, ALL_KINDS, true, 1) && !Eligible(jobs, ALL_KINDS, true, 0);
    assert jobs[1 := second.(status := Running)] == [first, second.(status := Running)];
  }

  lemma UpdateStep(events: seq<Event>, choice: Choice, job: Job, done: seq<Effect>, pc: Pc, next: Job, nextPc: Pc)
    requires Run(events) == UpdateState(job, done, pc) && !pc.Releasing?
    requires Execute(Local(job, pc, false, None), choice) == Local(next, nextPc, false, None)
    ensures Run(events + [Step(choice)]) == UpdateState(next, done, nextPc)
  {
    hide Run, Execute;
    StepTo(events, choice, Local(job, pc, false, None), Local(next, nextPc, false, None));
    assert [CheckJob(Succeeded), job][1 := next] == [CheckJob(Succeeded), next];
  }

  /** An update whose cancel request was accepted, and that ends as succeeded, having done nothing. */
  lemma CancelledSucceeds()
    ensures var s := Run(CANCEL_RUN);
            && |s.db.jobs| == 2 == |s.done| && s.db.jobs[1].status.Succeeded? && s.db.jobs[1].cancelRequested && s.done[1] == [Acked]
  {
    hide Run;
    UpdateBegins();
    var job, acked := UpdateJob(Running), UpdateJob(Running).(cancelRequested := true);
    UpdateStep(UPDATE_CLAIMED, Good, job, [], Begin, job, Preparing(2));
    UpdateStep(UPDATE_CLAIMED + [Step(Good)], Good, job, [], Preparing(2), job, Preparing(1));
    var events := UPDATE_CLAIMED + [Step(Good)] + [Step(Good)];
    UpdateStep(events, Good, job, [], Preparing(1), job, Preparing(0));
    events := events + [Step(Good)];
    CancelComes(events, job, acked);
    events := events + [CancelRequest(1)];
    UpdateStep(events, Other, acked, [Acked], Preparing(0), acked, Finish(Succeeded, NoFailure));
    UpdateStep(events + [Step(Other)], Good, acked, [Acked], Finish(Succeeded, NoFailure),
               acked.(status := Succeeded, cancellable := false), Releasing(false));
  }

  lemma CancelComes(events: seq<Event>, job: Job, acked: Job)
    requires Run(events) == UpdateState(job, [], Preparing(0)) && job == UpdateJob(Running) && acked == job.(cancelRequested := true)
    ensures Run(events + [CancelRequest(1)]) == UpdateState(acked, [Acked], Preparing(0))
  {
    hide Run;
    var nothing: seq<Effect> := [];
    assert [CheckJob(Succeeded), job][1 := acked] == [CheckJob(Succeeded), acked];
    assert [nothing, nothing][1 := [Acked]] == [nothing, [Acked]];
    assert nothing + [Acked] == [Acked];
    Advance(events, CancelRequest(1), UpdateState(acked, [Acked], Preparing(0)));
  }

  // ---- A review that nothing calls for ----

  function Goods(n: nat): seq<Event> {
    if n == 0 then [] else Goods(n - 1) + [Step(Good)]
  }

  /** The archive of the preventive backup cannot be published, then the failure cannot be written, and
      the worker's last handler takes over. */
  const REVIEW_RUN: seq<Event> := UPDATE_CLAIMED + Goods(13) + [Step(Bad)] + [Step(Raise)] + [Step(Good)]

  /** Where an update is after `n` good steps. */
  function UpdateAfter(n: nat): Pc {
    if n == 0 then Begin
    else if n <= 3 then Preparing(3 - n)
    else if n <= 11 then Copying(12 - n)
    else if n == 12 then Closing
    else Publishing
  }

  lemma {:induction false} UpdateCopies(n: nat)
    requires n <= 12
    ensures Run(UPDATE_CLAIMED + Goods(n)) == UpdateState(UpdateJob(Running), [], UpdateAfter(n))
  {
    hide Run;
    if n == 0 {
      UpdateBegins();
      assert UPDATE_CLAIMED + Goods(0) == UPDATE_CLAIMED;
    } else {
      UpdateCopies(n - 1);
      var job := UpdateJob(Running);
      CopyStep(job, n);
      UpdateStep(UPDATE_CLAIMED + Goods(n - 1), Good, job, [], UpdateAfter(n - 1), job, UpdateAfter(n));
      assert UPDATE_CLAIMED + Goods(n) == UPDATE_CLAIMED + Goods(n - 1) + [Step(Good)];
    }
  }

  lemma CopyStep(job: Job, n: nat)
    requires 0 < n <= 12 && job == UpdateJob(Running)
    ensures Execute(Local(job, UpdateAfter(n - 1), false, None), Good) == Local(job, UpdateAfter(n), false, None)
  {
  }

  lemma LastSteps(job: Job, closed: Job)
    requires job == UpdateJob(Running) && closed == job.(cancellable := false)
    ensures Execute(Local(job, Closing, false, None), Good) == Local(closed, Publishing, false, None)
    ensures Execute(Local(closed, Publishing, false, None), Bad) == Local(closed, Finish(Failed, NoFailure), false, None)
    ensures Execute(Local(closed, Finish(Failed, NoFailure), false, None), Raise) == Local(closed, LastTry, false, None)
    ensures Execute(Local(closed, LastTry, false, None), Good) == Local(LastResort(closed), Releasing(false), false, None)
  {
  }

  /** A failed update that has done nothing and yet asks for a manual review. */
  lemma NeedlessReview()
    ensures var s := Run(REVIEW_RUN);
            && |s.db.jobs| == 2 == |s.done| && s.db.jobs[1].kind.Update? && s.db.jobs[1].status.Failed?
            && s.db.jobs[1].review && s.done[1] == []
  {
    hide Run, Execute, Goods;
    var job := UpdateJob(Running);
    var closed := job.(cancellable := false);
    LastSteps(job, closed);
    OneMoreGood(12);
    UpdateCopies(12);
    UpdateStep(UPDATE_CLAIMED + Goods(12), Good, job, [], Closing, closed, Publishing);
    var events := UPDATE_CLAIMED + Goods(13);
    UpdateStep(events, Bad, closed, [], Publishing, closed, Finish(Failed, NoFailure));
    UpdateStep(events + [Step(Bad)], Raise, closed, [], Finish(Failed, NoFailure), closed, LastTry);
    UpdateStep(events + [Step(Bad)] + [Step(Raise)], Good, closed, [], LastTry, LastResort(closed), Releasing(false));
  }

  lemma OneMoreGood(n: nat)
    ensures UPDATE_CLAIMED + Goods(n + 1) == UPDATE_CLAIMED + Goods(n) + [Step(Good)]
  {
  }
}
