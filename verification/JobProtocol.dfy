/** The job queue at work: web requests, one worker that may die at any point, and its recovery, in
    every interleaving of their transactions. */
module JobProtocol {
  import opened Common
  import opened JobTable
  import opened JobExecutor

  const ALL_KINDS: set<Kind> := {
    Start, Stop, Restart, Assisted, ForceTerm, ForceKill, Backup, Restore, UpdateCheck, Update, DriveCheck, DriveTransfer, HostPower
  }

  datatype Task = Task(id: nat, pc: Pc, critical: bool)

  /** `done[i]` is what job `i` has done so far. `task` is the job in the worker's hands; it survives
      the worker's death as a trace. `escaped` are the jobs whose executor could not write an end. */
  datatype State = State(db: Db, done: seq<seq<Effect>>, live: bool, task: Option<Task>, escaped: set<nat>)

  datatype Event =
    | Request(kind: Kind, minutes: nat, source: Option<nat>, record: nat, createdAt: int)
    | CancelRequest(id: nat)
    | NowRequest(id: nat)
    | Take
    | Step(choice: Choice)
    | Crash
    | Restarted

  const INITIAL: State := State(Db([], None), [], false, None, {})

  function Requested(s: State, job: Job): State {
    match Enqueue(s.db, job)
    case None => s
    case Some(db) => s.(db := db, done := s.done + [[]])
  }

  function WithRow(s: State, id: nat, job: Job, done: seq<Effect>): State
    requires id < |s.db.jobs| && id < |s.done|
  {
    s.(db := Db(s.db.jobs[id := job], s.db.lock), done := s.done[id := done])
  }

  function CancelAsked(s: State, id: nat): State {
    if id < |s.db.jobs| && id < |s.done| then
      var (job, accepted) := CancelJob(s.db.jobs[id]);
      WithRow(s, id, job, s.done[id] + if accepted then [Acked] else [])
    else s
  }

  function NowAsked(s: State, id: nat): State {
    if id < |s.db.jobs| && id < |s.done| then WithRow(s, id, NowJob(s.db.jobs[id]).0, s.done[id]) else s
  }

  function Taken(s: State): State {
    if !s.live || s.task.Some? then s
    else
      var (db, id) := Claim(s.db, ALL_KINDS);
      s.(db := db, task := if id.Some? then Some(Task(id.value, Begin, false)) else None)
  }

  /** The `finally` of the worker: the lock is released whatever the job's status. A transaction that
      fails here ends the process. */
  function Left(s: State, task: Task, choice: Choice): State
    requires task.pc.Releasing? && task.id < |s.db.jobs|
  {
    if choice.Raise? then s.(live := false)
    else
      State(Release(s.db, task.id), s.done, !task.pc.dying, None,
            if s.db.jobs[task.id].status.Running? then s.escaped + {task.id} else s.escaped)
  }

  function Stepped(s: State, choice: Choice): State {
    if !s.live || s.task.None? || s.task.value.id >= |s.db.jobs| || s.task.value.id >= |s.done| then s
    else
      var task := s.task.value;
      if task.pc.Releasing? then Left(s, task, choice)
      else
        var next := Execute(Local(s.db.jobs[task.id], task.pc, task.critical, None), choice);
        var done := s.done[task.id] + if next.effect.Some? then [next.effect.value] else [];
        WithRow(s, task.id, next.job, done).(task := Some(Task(task.id, next.pc, next.critical)))
  }

  function Next(s: State, event: Event): State {
    match event
    case Request(kind, minutes, source, record, createdAt) => Requested(s, NewJob(kind, minutes, source, record, createdAt))
    case CancelRequest(id) => CancelAsked(s, id)
    case NowRequest(id) => NowAsked(s, id)
    case Take => Taken(s)
    case Step(choice) => Stepped(s, choice)
    case Crash => s.(live := false)
    case Restarted => if s.live then s else State(Recover(s.db), s.done, true, None, {})
  }

  /** The state after any sequence of events. */
  function Run(events: seq<Event>): State {
    if events == [] then INITIAL else Next(Run(events[..|events| - 1]), events[|events| - 1])
  }

  lemma RunSnoc(events: seq<Event>, event: Event)
    ensures Run(events + [event]) == Next(Run(events), event)
  {
    hide Next;
    assert (events + [event])[..|events|] == events;
  }

  // ---- The invariant ----

  ghost predicate RowsOk(jobs: seq<Job>, done: seq<seq<Effect>>) {
    |done| == |jobs| && forall i :: 0 <= i < |jobs| ==> Sound(jobs[i], done[i])
  }

  /** No two active jobs share a coordination key. */
  ghost predicate DistinctKeys(jobs: seq<Job>) {
    forall i, j :: 0 <= i < j < |jobs| && Active(jobs[i]) && Active(jobs[j]) ==> KeyOf(jobs[i]) != KeyOf(jobs[j])
  }

  /** Each SIGKILL job points back to a failed SIGTERM, and that to a failed stop. */
  ghost predicate Escalates(jobs: seq<Job>) {
    forall i :: 0 <= i < |jobs| && Forced(jobs[i].kind) ==>
      ValidSource(jobs, jobs[i].kind, jobs[i].source) && jobs[i].source.value < i
  }

  ghost predicate TaskOk(s: State) {
    match s.task
    case None => s.db.lock.None?
    case Some(task) =>
      && task.id < |s.db.jobs| == |s.done| && task.id !in s.escaped
      && AtPc(s.db.jobs[task.id], Progress(s.db.jobs[task.id], s.done[task.id]), task.pc, task.critical)
      && s.db.lock == if NeedsLock(s.db.jobs[task.id].kind) then Some(task.id) else None
  }

  /** The running jobs are the one in the worker's hands, unless it has a final status, and the escaped ones. */
  ghost predicate RunningOk(s: State) {
    && (forall i :: 0 <= i < |s.db.jobs| && s.db.jobs[i].status.Running? ==>
          i in s.escaped || (s.task.Some? && s.task.value.id == i))
    && forall i :: i in s.escaped ==> i < |s.db.jobs| && s.db.jobs[i].status.Running?
  }

  ghost predicate Inv(s: State) {
    RowsOk(s.db.jobs, s.done) && DistinctKeys(s.db.jobs) && Escalates(s.db.jobs) && TaskOk(s) && RunningOk(s)
  }

  // ---- One row changes ----

  /** What a transaction on one row must respect for the table to stay as it is. */
  predicate RowEvolves(before: Job, after: Job) {
    Evolves(before, after) && (Active(after) ==> Active(before)) && (before.status.Failed? ==> after == before)
  }

  lemma EvolvesRow(before: Job, after: Job)
    requires Evolves(before, after)
    ensures RowEvolves(before, after)
  {
  }

  lemma RowChange(s: State, id: nat, job: Job, done: seq<Effect>)
    requires RowsOk(s.db.jobs, s.done) && DistinctKeys(s.db.jobs) && Escalates(s.db.jobs)
    requires id < |s.db.jobs| && Sound(job, done) && RowEvolves(s.db.jobs[id], job)
    ensures id < |s.done|
    ensures var next := WithRow(s, id, job, done); RowsOk(next.db.jobs, next.done) && DistinctKeys(next.db.jobs) && Escalates(next.db.jobs)
  {
    hide Sound, Evolves;
    var next := WithRow(s, id, job, done);
    EvolvesKey(s.db.jobs[id], job);
    assert forall i :: 0 <= i < |next.db.jobs| && i != id ==> next.db.jobs[i] == s.db.jobs[i];
    forall i | 0 <= i < |next.db.jobs| && Forced(next.db.jobs[i].kind)
      ensures ValidSource(next.db.jobs, next.db.jobs[i].kind, next.db.jobs[i].source) && next.db.jobs[i].source.value < i
    {
      assert next.db.jobs[i].kind == s.db.jobs[i].kind && next.db.jobs[i].source == s.db.jobs[i].source;
      assert ValidSource(s.db.jobs, s.db.jobs[i].kind, s.db.jobs[i].source);
    }
  }

  lemma EvolvesKey(before: Job, after: Job)
    requires Evolves(before, after)
    ensures KeyOf(after) == KeyOf(before) && after.kind == before.kind && after.source == before.source
  {
  }

  lemma SoundStep(job: Job, done: seq<Effect>, after: Job, effect: Option<Effect>)
    requires Sound(job, done) && after.kind == job.kind && after.cancelRequested == job.cancelRequested
    requires var k := Progress(job, done);
             if effect.None? then RowOk(after, k)
             else !job.cancelRequested && 0 <= k < Length(job.kind) && effect.value == EffectAt(job.kind, k) && RowOk(after, k + 1)
    ensures var done' := done + if effect.Some? then [effect.value] else [];
            Sound(after, done') && Progress(after, done') == Progress(job, done) + if effect.Some? then 1 else 0
  {
    hide RowOk, EffectAt, Length;
    if effect.Some? {
      var k := Progress(job, done);
      assert Script(job.kind)[..k] + [effect.value] == Script(job.kind)[..k + 1];
    } else {
      assert done + [] == done;
    }
  }

  lemma SoundAck(job: Job, done: seq<Effect>)
    requires Sound(job, done)
    ensures var (after, accepted) := CancelJob(job);
            var done' := done + if accepted then [Acked] else [];
            Sound(after, done') && Progress(after, done') == Progress(job, done)
  {
    hide RowOk, Length, CancelJob;
    CancelKeeps(job, Progress(job, done));
    assert done + [] == done;
  }

  // ---- Every event keeps the invariant ----

  lemma RequestKeeps(s: State, job: Job)
    requires Inv(s) && job.status.Pending? && RowOk(job, 0) && !job.cancelRequested
    ensures Inv(Requested(s, job))
  {
    hide Sound, NoActivePalworld, LatestCheck, AtPc, RowOk;
    if Enqueue(s.db, job).Some? {
      var next := Requested(s, job);
      NewRowSound(job);
      assert forall i :: 0 <= i < |s.db.jobs| ==> next.db.jobs[i] == s.db.jobs[i] && next.done[i] == s.done[i];
      NewRowEscalates(s.db.jobs, job);
      forall i, j | 0 <= i < j < |next.db.jobs| && Active(next.db.jobs[i]) && Active(next.db.jobs[j])
        ensures KeyOf(next.db.jobs[i]) != KeyOf(next.db.jobs[j])
      {
        if j == |s.db.jobs| {
          assert NoActiveKey(s.db.jobs, KeyOf(job));
        }
      }
    }
  }

  lemma NewRowSound(job: Job)
    requires RowOk(job, 0) && !job.cancelRequested
    ensures Sound(job, [])
  {
    hide RowOk;
    assert Script(job.kind)[..0] + Acks(job) == [];
  }

  lemma NewRowEscalates(jobs: seq<Job>, job: Job)
    requires Escalates(jobs) && Admits(jobs, job)
    ensures Escalates(jobs + [job])
  {
    hide NoActivePalworld, NoActiveKey, LatestCheck;
    forall i | 0 <= i < |jobs + [job]| && Forced((jobs + [job])[i].kind)
      ensures ValidSource(jobs + [job], (jobs + [job])[i].kind, (jobs + [job])[i].source) && (jobs + [job])[i].source.value < i
    {
      assert i < |jobs| ==> (jobs + [job])[i] == jobs[i];
      assert ValidSource(jobs, (jobs + [job])[i].kind, (jobs + [job])[i].source);
    }
  }

  /** A transaction on one row from outside the worker. */
  lemma OutsideKeeps(s: State, id: nat, job: Job, done: seq<Effect>)
    requires Inv(s) && id < |s.db.jobs| && Sound(job, done) && RowEvolves(s.db.jobs[id], job)
    requires job.status == s.db.jobs[id].status || (s.db.jobs[id].status.Pending? && !Active(job))
    requires s.task.Some? && s.task.value.id == id ==>
               AtPc(job, Progress(job, done), s.task.value.pc, s.task.value.critical)
    ensures Inv(WithRow(s, id, job, done))
  {
    hide Sound, AtPc, Evolves, Escalates, DistinctKeys, RowsOk;
    RowChange(s, id, job, done);
    EvolvesKey(s.db.jobs[id], job);
    RowsLength(s);
  }

  lemma RowsLength(s: State)
    requires RowsOk(s.db.jobs, s.done)
    ensures |s.done| == |s.db.jobs| && forall i :: 0 <= i < |s.db.jobs| ==> Sound(s.db.jobs[i], s.done[i])
  {
  }

  lemma CancelRequestKeeps(s: State, id: nat)
    requires Inv(s)
    ensures Inv(CancelAsked(s, id))
  {
    hide Sound, AtPc, Evolves, Escalates, DistinctKeys, RowOk, RunningOk, RowEvolves, CancelJob;
    if id < |s.db.jobs| && id < |s.done| {
      var before, done := s.db.jobs[id], s.done[id];
      var k := Progress(before, done);
      var (job, accepted) := CancelJob(before);
      SoundRow(before, done);
      CancelKeeps(before, k);
      SoundAck(before, done);
      EvolvesRow(before, job);
      CancelStatus(before);
      if s.task.Some? && s.task.value.id == id {
        CancelKeepsPc(before, k, s.task.value.pc, s.task.value.critical);
      }
      OutsideKeeps(s, id, job, done + if accepted then [Acked] else []);
    }
  }

  lemma SoundRow(job: Job, done: seq<Effect>)
    requires Sound(job, done)
    ensures RowOk(job, Progress(job, done))
  {
  }

  lemma CancelStatus(job: Job)
    ensures CancelJob(job).0.status == job.status || (job.status.Pending? && CancelJob(job).0.status.Cancelled?)
    ensures NowJob(job).0.status == job.status && NowJob(job).0.cancelRequested == job.cancelRequested
  {
  }

  lemma NowRequestKeeps(s: State, id: nat)
    requires Inv(s)
    ensures Inv(NowAsked(s, id))
  {
    hide Sound, AtPc, Evolves, Escalates, DistinctKeys, RowOk, RunningOk, RowEvolves, NowJob;
    if id < |s.db.jobs| && id < |s.done| {
      var before, done := s.db.jobs[id], s.done[id];
      var k := Progress(before, done);
      var job := NowJob(before).0;
      SoundRow(before, done);
      NowKeeps(before, k);
      EvolvesRow(before, job);
      CancelStatus(before);
      EvolvesKey(before, job);
      SoundStep(before, done, job, None);
      assert done + [] == done;
      if s.task.Some? && s.task.value.id == id {
        NowKeepsPc(before, k, s.task.value.pc, s.task.value.critical);
      }
      OutsideKeeps(s, id, job, done);
    }
  }

  /** Inside the worker: one step of the executor. */
  lemma ExecutionKeeps(s: State, choice: Choice)
    requires Inv(s) && s.live && s.task.Some? && !s.task.value.pc.Releasing?
    ensures Inv(Stepped(s, choice))
  {
    hide Sound, AtPc, Evolves, Escalates, DistinctKeys, RowOk, RowEvolves, Execute, RowsOk;
    var task := s.task.value;
    RowsLength(s);
    var before, done := s.db.jobs[task.id], s.done[task.id];
    var k := Progress(before, done);
    var l := Local(before, task.pc, task.critical, None);
    var next := Execute(l, choice);
    SoundRow(before, done);
    ExecuteKeeps(l, k, choice);
    EvolvesRow(before, next.job);
    EvolvesKey(before, next.job);
    SoundStep(before, done, next.job, next.effect);
    RowChange(s, task.id, next.job, done + if next.effect.Some? then [next.effect.value] else []);
  }

  lemma LeavingKeeps(s: State, choice: Choice)
    requires Inv(s) && s.live && s.task.Some? && s.task.value.pc.Releasing?
    ensures Inv(Stepped(s, choice))
  {
    hide Sound, Escalates, DistinctKeys, RowOk, RowsOk;
    RowsLength(s);
  }

  lemma TakeKeeps(s: State)
    requires Inv(s)
    ensures Inv(Taken(s))
  {
    hide Sound, Evolves, Escalates, DistinctKeys, RowOk, RowEvolves, RowsOk, Claim;
    if s.live && s.task.None? {
      RowsLength(s);
      ClaimTakesLeast(s.db, ALL_KINDS);
      var (db, picked) := Claim(s.db, ALL_KINDS);
      if picked.Some? {
        var id := picked.value;
        var before := s.db.jobs[id];
        var job := before.(status := Running);
        ClaimedRow(before, s.done[id]);
        RowChange(s, id, job, s.done[id]);
        assert s.done[id := s.done[id]] == s.done;
      }
    }
  }

  lemma ClaimedRow(before: Job, done: seq<Effect>)
    requires Sound(before, done) && before.status.Pending?
    ensures var job := before.(status := Running);
            && Sound(job, done) && RowEvolves(before, job) && AtPc(job, Progress(job, done), Begin, false)
  {
    hide Script;
  }

  lemma RecoveryKeeps(s: State)
    requires Inv(s)
    ensures Inv(Next(s, Restarted))
  {
    hide Sound, AtPc, RowOk, DistinctKeys, Escalates;
    if !s.live {
      var jobs := Recover(s.db).jobs;
      LockedIsStarted(s);
      RecoverStopsAll(s.db);
      assert jobs == InterruptAll(s.db.jobs);
      forall i | 0 <= i < |jobs|
        ensures Sound(jobs[i], s.done[i])
      {
        InterruptedRow(s.db.jobs[i], s.done[i]);
      }
      InterruptedTable(s.db.jobs);
    }
  }

  lemma LockedIsStarted(s: State)
    requires Inv(s)
    ensures s.db.lock.Some? ==> s.db.lock.value < |s.db.jobs| && !s.db.jobs[s.db.lock.value].status.Pending?
  {
    hide Sound, RowOk, DistinctKeys, Escalates;
  }

  lemma InterruptedRow(job: Job, done: seq<Effect>)
    requires Sound(job, done)
    ensures Sound(InterruptJob(job), done)
  {
    hide Script, EffectAt;
  }

  lemma InterruptedTable(jobs: seq<Job>)
    requires DistinctKeys(jobs) && Escalates(jobs)
    ensures DistinctKeys(InterruptAll(jobs)) && Escalates(InterruptAll(jobs))
  {
    var next := InterruptAll(jobs);
    forall i | 0 <= i < |next| && Forced(next[i].kind)
      ensures ValidSource(next, next[i].kind, next[i].source) && next[i].source.value < i
    {
      assert ValidSource(jobs, jobs[i].kind, jobs[i].source);
    }
  }

  lemma NewJobOk(kind: Kind, minutes: nat, source: Option<nat>, record: nat, createdAt: int)
    ensures var job := NewJob(kind, minutes, source, record, createdAt);
            job.status.Pending? && RowOk(job, 0) && !job.cancelRequested
  {
  }

  lemma NextKeeps(s: State, event: Event)
    requires Inv(s)
    ensures Inv(Next(s, event))
  {
    hide RowsOk, DistinctKeys, Escalates, RunningOk, Taken, CancelAsked, NowAsked, Requested, AtPc;
    match event
    case Request(kind, minutes, source, record, createdAt) =>
      NewJobOk(kind, minutes, source, record, createdAt);
      RequestKeeps(s, NewJob(kind, minutes, source, record, createdAt));
    case CancelRequest(id) => CancelRequestKeeps(s, id);
    case NowRequest(id) => NowRequestKeeps(s, id);
    case Take => TakeKeeps(s);
    case Step(choice) =>
      if s.live && s.task.Some? {
        if s.task.value.pc.Releasing? {
          LeavingKeeps(s, choice);
        } else {
          ExecutionKeeps(s, choice);
        }
      }
    case Crash => CrashKeeps(s);
    case Restarted => RecoveryKeeps(s);
  }

  lemma CrashKeeps(s: State)
    requires Inv(s)
    ensures Inv(s.(live := false))
  {
  }

  /** The invariant holds after every sequence of events. */
  lemma {:induction false} AlwaysInv(events: seq<Event>)
    ensures Inv(Run(events))
  {
    if events != [] {
      AlwaysInv(events[..|events| - 1]);
      NextKeeps(Run(events[..|events| - 1]), events[|events| - 1]);
    }
  }
}
