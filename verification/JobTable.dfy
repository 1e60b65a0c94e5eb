/** The job table and the maintenance lock: each function is one database transaction. The class at
    the end is the table as it is updated in place, every method proved to be its function. */
module JobTable {
  import opened Common

  datatype Kind =
    | Start | Stop | Restart | Assisted | ForceTerm | ForceKill
    | Backup | Restore | UpdateCheck | Update | DriveCheck | DriveTransfer | HostPower

  datatype Status = Pending | Running | Succeeded | Failed | Cancelled | Interrupted

  /** The `failure` a shutdown leaves in its result. */
  datatype Failure = NoFailure | CommunicationFailed | StopFailed | SignalFailed | Unexpected

  datatype Key = LifecycleKey | BackupKey | RestoreKey | UpdateCheckKey | HostPowerKey | DriveKey(record: nat)

  /** A row. `minutes` is the countdown, `source` the job an escalation starts from, and `destructive`
      and `review` are the results `destructive_started` and `requires_manual_review`. */
  datatype Job = Job(kind: Kind, status: Status, cancellable: bool, cancelRequested: bool, nowRequested: bool,
                     minutes: nat, source: Option<nat>, record: nat, createdAt: int,
                     failure: Failure, destructive: bool, review: bool)

  /** Rows are never deleted, and a row's id is its position. */
  datatype Db = Db(jobs: seq<Job>, lock: Option<nat>)

  datatype Directive = Continue | Cancel | ExecuteNow

  predicate Active(job: Job) {
    job.status.Pending? || job.status.Running?
  }

  predicate NeedsLock(kind: Kind) {
    !kind.UpdateCheck? && !kind.DriveCheck?
  }

  function KeyOf(job: Job): Key {
    match job.kind
    case Backup => BackupKey
    case Restore => RestoreKey
    case UpdateCheck => UpdateCheckKey
    case HostPower => HostPowerKey
    case DriveCheck => DriveKey(0)
    case DriveTransfer => DriveKey(job.record + 1)
    case _ => LifecycleKey
  }

  /** Kinds whose name starts with `PALWORLD_`. */
  predicate PalworldKind(kind: Kind) {
    || kind.Start? || kind.Stop? || kind.Restart? || kind.Assisted? || kind.ForceTerm? || kind.ForceKill?
    || kind.UpdateCheck? || kind.Update?
  }

  // ---- One row ----

  /** `request_shutdown_cancel`, `request_update_cancel` and `request_backup_cancel`: a waiting
      shutdown or update ends at once, a waiting backup when it first looks. */
  function CancelJob(job: Job): (r: (Job, bool))
    ensures r.1 <==> Cancels(job.kind) && Active(job) && job.cancellable && !job.cancelRequested
    ensures !r.1 ==> r.0 == job
    ensures r.1 ==> r.0.cancelRequested && r.0.kind == job.kind
                    && r.0.status == if job.status.Pending? && (job.kind.Assisted? || job.kind.Update?) then Cancelled else job.status
  {
    if !Cancels(job.kind) || !Active(job) || !job.cancellable || job.cancelRequested then (job, false)
    else if job.status.Pending? && !job.kind.Backup? then
      (job.(cancelRequested := true, status := Cancelled, cancellable := false), true)
    else (job.(cancelRequested := true), true)
  }

  predicate Cancels(kind: Kind) {
    kind.Assisted? || kind.Update? || kind.Backup?
  }

  /** `request_shutdown_now`. */
  function NowJob(job: Job): (r: (Job, bool))
    ensures r.1 <==> job.kind.Assisted? && Active(job) && job.cancellable && !job.cancelRequested && !job.nowRequested
    ensures r.0 == job.(nowRequested := job.nowRequested || r.1)
  {
    if !job.kind.Assisted? || !Active(job) || !job.cancellable || job.cancelRequested || job.nowRequested then (job, false)
    else (job.(nowRequested := true), true)
  }

  /** `mark_irreversible`: from here on the job can no longer be cancelled. */
  function MarkJob(job: Job): (r: (Job, Directive))
    ensures r.1.Cancel? <==> job.cancelRequested
    ensures !r.1.Cancel? ==> r.1.Continue? && !r.0.cancellable && !CancelJob(r.0).1
  {
    if (!job.cancellable || job.cancelRequested) && job.cancelRequested then (job, Cancel)
    else (job.(cancellable := false), Continue)
  }

  /** The countdown's `update`; only a shutdown job can be told to go ahead at once. */
  function TickJob(job: Job): (r: Directive)
    ensures r.Cancel? <==> job.cancelRequested
    ensures r.ExecuteNow? <==> job.kind.Assisted? && job.nowRequested && !job.cancelRequested
  {
    if job.cancelRequested then Cancel
    else if job.kind.Assisted? && job.nowRequested then ExecuteNow
    else Continue
  }

  /** `_checkpoint` of updates and backups: `None` when the job is to be cancelled here. */
  function CheckpointJob(job: Job, cancellable: bool): Option<Job> {
    if job.cancelRequested && job.cancellable then None else Some(job.(cancellable := cancellable))
  }

  /** `_checkpoint` of restores. */
  function RestoreCheckpoint(job: Job, destructive: bool): Job {
    job.(cancellable := false, destructive := destructive, review := destructive)
  }

  /** The last write of an executor. `critical` is its local flag: the update's countdown is over, or
      the restore is about to apply. */
  function FinishJob(job: Job, status: Status, failure: Failure, critical: bool): Job {
    var done := job.(status := status, cancellable := false, failure := failure);
    match job.kind
    case Update => done.(review := status.Failed? && critical)
    case Restore => done.(destructive := critical, review := status.Failed? && critical)
    case _ => done
  }

  /** `fail_unexpected`, `fail_shutdown_job` and `fail_lifecycle_job`: the worker's last resort. */
  function LastResort(job: Job): Job {
    if (job.kind.Update? || job.kind.UpdateCheck?) && !Active(job) then job
    else job.(status := Failed, cancellable := false, failure := Unexpected, review := job.kind.Update? && !job.cancellable)
  }

  function InterruptJob(job: Job): Job {
    if job.status.Running? then job.(status := Interrupted, cancellable := false, review := true) else job
  }

  // ---- The table ----

  predicate NoActiveKey(jobs: seq<Job>, key: Key) {
    forall i :: 0 <= i < |jobs| && Active(jobs[i]) ==> KeyOf(jobs[i]) != key
  }

  predicate NoActivePalworld(jobs: seq<Job>) {
    forall i :: 0 <= i < |jobs| && Active(jobs[i]) ==> !PalworldKind(jobs[i].kind)
  }

  /** A failed stop, or an assisted shutdown that failed to stop, may be followed by SIGTERM; a failed
      SIGTERM by SIGKILL. */
  predicate ValidSource(jobs: seq<Job>, kind: Kind, source: Option<nat>) {
    && source.Some? && source.value < |jobs| && jobs[source.value].status.Failed?
    && var from := jobs[source.value];
       if kind.ForceTerm? then from.kind.Stop? || (from.kind.Assisted? && from.failure.StopFailed?)
       else from.kind.ForceTerm?
  }

  function LatestCheck(jobs: seq<Job>): Option<Job> {
    if jobs == [] then None
    else if jobs[|jobs| - 1].kind.UpdateCheck? then Some(jobs[|jobs| - 1])
    else LatestCheck(jobs[..|jobs| - 1])
  }

  function NewJob(kind: Kind, minutes: nat, source: Option<nat>, record: nat, createdAt: int): Job {
    Job(kind, Pending, if kind.Assisted? then minutes > 0 else kind.Backup? || kind.Update?, false, false,
        minutes, source, record, createdAt, NoFailure, false, false)
  }

  predicate Admits(jobs: seq<Job>, job: Job) {
    match job.kind
    case Start => NoActivePalworld(jobs)
    case Stop => NoActivePalworld(jobs)
    case Restart => NoActivePalworld(jobs)
    case Assisted => job.minutes in {0, 1, 5, 10} && NoActiveKey(jobs, LifecycleKey)
    case ForceTerm => ValidSource(jobs, job.kind, job.source) && NoActiveKey(jobs, LifecycleKey)
    case ForceKill => ValidSource(jobs, job.kind, job.source) && NoActiveKey(jobs, LifecycleKey)
    case UpdateCheck => NoActiveKey(jobs, UpdateCheckKey) && NoActiveKey(jobs, LifecycleKey)
    case Update =>
      && job.minutes in {0, 1, 5, 10}
      && NoActiveKey(jobs, UpdateCheckKey) && NoActiveKey(jobs, LifecycleKey)
      && LatestCheck(jobs).Some? && LatestCheck(jobs).value.status.Succeeded?
    case _ => NoActiveKey(jobs, KeyOf(job))
  }

  function Enqueue(db: Db, job: Job): Option<Db> {
    if Admits(db.jobs, job) && NoActiveKey(db.jobs, KeyOf(job)) then Some(Db(db.jobs + [job], db.lock)) else None
  }

  /** The kinds of which one job at a time may be waiting or running. */
  predicate Lifecycle(kind: Kind) {
    kind in {Start, Stop, Restart, Assisted, ForceTerm, ForceKill, Update}
  }

  /** Two jobs of which only one may be active: both act on the server, or both do the same. */
  predicate Rivals(a: Job, b: Job) {
    if Lifecycle(a.kind) then Lifecycle(b.kind) else a.kind == b.kind && (a.kind.DriveTransfer? ==> a.record == b.record)
  }

  lemma RivalsShareKeys(a: Job, b: Job)
    ensures Rivals(a, b) <==> KeyOf(a) == KeyOf(b)
  {
  }

  /** When a request is accepted, kind by kind, in terms of the rows. */
  ghost predicate Acceptable(jobs: seq<Job>, job: Job) {
    && (forall i :: 0 <= i < |jobs| && Active(jobs[i]) ==> !Rivals(jobs[i], job))
    && match job.kind
       case Start => !exists i :: 0 <= i < |jobs| && Active(jobs[i]) && jobs[i].kind.UpdateCheck?
       case Stop => !exists i :: 0 <= i < |jobs| && Active(jobs[i]) && jobs[i].kind.UpdateCheck?
       case Restart => !exists i :: 0 <= i < |jobs| && Active(jobs[i]) && jobs[i].kind.UpdateCheck?
       case Assisted => job.minutes == 0 || job.minutes == 1 || job.minutes == 5 || job.minutes == 10
       case ForceTerm =>
         && job.source.Some? && job.source.value < |jobs| && jobs[job.source.value].status.Failed?
         && (jobs[job.source.value].kind.Stop? || (jobs[job.source.value].kind.Assisted? && jobs[job.source.value].failure.StopFailed?))
       case ForceKill =>
         && job.source.Some? && job.source.value < |jobs| && jobs[job.source.value].status.Failed?
         && jobs[job.source.value].kind.ForceTerm?
       case UpdateCheck => !exists i :: 0 <= i < |jobs| && Active(jobs[i]) && Lifecycle(jobs[i].kind)
       case Update =>
         && (job.minutes == 0 || job.minutes == 1 || job.minutes == 5 || job.minutes == 10)
         && (!exists i :: 0 <= i < |jobs| && Active(jobs[i]) && jobs[i].kind.UpdateCheck?)
         && (exists i :: 0 <= i < |jobs| && jobs[i].kind.UpdateCheck? && jobs[i].status.Succeeded?
               && forall j :: i < j < |jobs| ==> !jobs[j].kind.UpdateCheck?)
       case _ => true
  }

  lemma {:induction false} LatestCheckIs(jobs: seq<Job>)
    ensures LatestCheck(jobs).None? ==> forall i :: 0 <= i < |jobs| ==> !jobs[i].kind.UpdateCheck?
    ensures LatestCheck(jobs).Some? ==>
              exists i :: 0 <= i < |jobs| && jobs[i] == LatestCheck(jobs).value && jobs[i].kind.UpdateCheck?
                && forall j :: i < j < |jobs| ==> !jobs[j].kind.UpdateCheck?
  {
    if jobs != [] {
      var n := |jobs| - 1;
      if jobs[n].kind.UpdateCheck? {
        assert jobs[n] == LatestCheck(jobs).value;
      } else {
        LatestCheckIs(jobs[..n]);
        assert forall i :: 0 <= i < n ==> jobs[..n][i] == jobs[i];
        if LatestCheck(jobs).Some? {
          var i :| 0 <= i < n && jobs[..n][i] == LatestCheck(jobs).value && jobs[..n][i].kind.UpdateCheck?
            && forall j :: i < j < n ==> !jobs[..n][j].kind.UpdateCheck?;
          assert jobs[i] == LatestCheck(jobs).value;
        }
      }
    }
  }

  /** A request appends a waiting row, of which nothing has been asked yet, exactly when it is
      acceptable; only a backup, an update and a shutdown with a countdown can be cancelled. */
  lemma EnqueueIff(db: Db, kind: Kind, minutes: nat, source: Option<nat>, record: nat, createdAt: int)
    ensures var job := NewJob(kind, minutes, source, record, createdAt);
            && job.kind == kind && job.minutes == minutes && job.source == source && job.record == record
            && job.createdAt == createdAt && job.status.Pending? && !job.cancelRequested && !job.nowRequested
            && (job.cancellable <==> kind.Backup? || kind.Update? || (kind.Assisted? && minutes > 0))
            && Enqueue(db, job) == if Acceptable(db.jobs, job) then Some(Db(db.jobs + [job], db.lock)) else None
  {
    hide KeyOf, Rivals, LatestCheck;
    var job, jobs := NewJob(kind, minutes, source, record, createdAt), db.jobs;
    forall i | 0 <= i < |jobs|
      ensures Rivals(jobs[i], job) <==> KeyOf(jobs[i]) == KeyOf(job)
      ensures KeyOf(jobs[i]) == LifecycleKey <==> Lifecycle(jobs[i].kind)
      ensures KeyOf(jobs[i]) == UpdateCheckKey <==> jobs[i].kind.UpdateCheck?
    {
      RivalsShareKeys(jobs[i], job);
      KeysOfKinds(jobs[i]);
    }
    KeysOfKinds(job);
    LatestCheckIs(jobs);
  }

  lemma KeysOfKinds(job: Job)
    ensures KeyOf(job) == LifecycleKey <==> Lifecycle(job.kind)
    ensures KeyOf(job) == UpdateCheckKey <==> job.kind.UpdateCheck?
    ensures PalworldKind(job.kind) <==> Lifecycle(job.kind) || job.kind.UpdateCheck?
  {
  }

  function ReleaseTerminalLocks(db: Db): Db {
    if db.lock.Some? && db.lock.value < |db.jobs| && !Active(db.jobs[db.lock.value]) then Db(db.jobs, None) else db
  }

  predicate Eligible(jobs: seq<Job>, supported: set<Kind>, lockFree: bool, i: nat) {
    i < |jobs| && jobs[i].kind in supported && jobs[i].status.Pending? && (!NeedsLock(jobs[i].kind) || lockFree)
  }

  /** The order of the queue: creation time, then id. */
  predicate Before(jobs: seq<Job>, i: nat, j: nat)
    requires i < |jobs| && j < |jobs|
  {
    jobs[i].createdAt < jobs[j].createdAt || (jobs[i].createdAt == jobs[j].createdAt && i <= j)
  }

  /** The first of the first `n` rows that can be claimed. */
  function Pick(jobs: seq<Job>, supported: set<Kind>, lockFree: bool, n: nat): (r: Option<nat>)
    requires n <= |jobs|
    ensures r.Some? ==> r.value < n && Eligible(jobs, supported, lockFree, r.value)
  {
    if n == 0 then None
    else
      var best := Pick(jobs, supported, lockFree, n - 1);
      if !Eligible(jobs, supported, lockFree, n - 1) then best
      else if best.Some? && Before(jobs, best.value, n - 1) then best
      else Some(n - 1)
  }

  lemma {:induction false} PickIsLeast(jobs: seq<Job>, supported: set<Kind>, lockFree: bool, n: nat)
    requires n <= |jobs|
    ensures var r := Pick(jobs, supported, lockFree, n);
            && (r.None? <==> forall i :: 0 <= i < n ==> !Eligible(jobs, supported, lockFree, i))
            && (r.Some? ==> forall i :: 0 <= i < n && Eligible(jobs, supported, lockFree, i) ==> Before(jobs, r.value, i))
  {
    if n > 0 {
      PickIsLeast(jobs, supported, lockFree, n - 1);
    }
  }

  /** `claim_next_job`, with the branch that puts the job back when the lock is taken after all. */
  function Claim(db: Db, supported: set<Kind>): (Db, Option<nat>) {
    var free := ReleaseTerminalLocks(db);
    var picked := Pick(free.jobs, supported, free.lock.None?, |free.jobs|);
    if picked.None? then (free, None)
    else
      var id := picked.value;
      var running := Db(free.jobs[id := free.jobs[id].(status := Running)], free.lock);
      if !NeedsLock(free.jobs[id].kind) then (running, Some(id))
      else if free.lock.None? then (running.(lock := Some(id)), Some(id))
      else (PutBack(running, id), None)
  }

  function PutBack(db: Db, id: nat): Db {
    if id < |db.jobs| then Db(db.jobs[id := db.jobs[id].(status := Pending)], db.lock) else db
  }

  /** The same in the terms of the rows: a claim takes a waiting job of a supported kind, one that needs
      the lock only if the lock is free, and no such job is older, or as old with a lower id. */
  lemma ClaimIsOldest(db: Db, supported: set<Kind>)
    ensures var (after, id) := Claim(db, supported);
            var free := db.lock.None? || (db.lock.value < |db.jobs| && !Active(db.jobs[db.lock.value]));
            && (id.None? ==> forall i :: 0 <= i < |db.jobs| ==> !Waits(db.jobs[i], supported, free))
            && (id.Some? ==>
                  && id.value < |db.jobs| && Waits(db.jobs[id.value], supported, free)
                  && forall i :: 0 <= i < |db.jobs| && Waits(db.jobs[i], supported, free) ==>
                       || db.jobs[id.value].createdAt < db.jobs[i].createdAt
                       || (db.jobs[id.value].createdAt == db.jobs[i].createdAt && id.value <= i))
  {
    hide Claim;
    ClaimTakesLeast(db, supported);
    assert forall i :: 0 <= i < |db.jobs| ==>
        (Eligible(db.jobs, supported, ReleaseTerminalLocks(db).lock.None?, i) <==>
           Waits(db.jobs[i], supported, ReleaseTerminalLocks(db).lock.None?));
  }

  predicate Waits(job: Job, supported: set<Kind>, lockFree: bool) {
    job.status.Pending? && job.kind in supported && (lockFree || job.kind.UpdateCheck? || job.kind.DriveCheck?)
  }

  /** A claim takes the least eligible job in the order of the queue, and a job that needs the lock
      leaves with it: the put-back branch is never taken. */
  lemma ClaimTakesLeast(db: Db, supported: set<Kind>)
    ensures var (after, id) := Claim(db, supported);
            var free := ReleaseTerminalLocks(db);
            && (id.None? ==> after == free && forall i :: 0 <= i < |db.jobs| ==> !Eligible(db.jobs, supported, free.lock.None?, i))
            && (id.Some? ==>
                  && Eligible(db.jobs, supported, free.lock.None?, id.value)
                  && (forall i :: 0 <= i < |db.jobs| && Eligible(db.jobs, supported, free.lock.None?, i) ==> Before(db.jobs, id.value, i))
                  && after.jobs == db.jobs[id.value := db.jobs[id.value].(status := Running)]
                  && after.lock == if NeedsLock(db.jobs[id.value].kind) then Some(id.value) else free.lock)
  {
    PickIsLeast(db.jobs, supported, ReleaseTerminalLocks(db).lock.None?, |db.jobs|);
  }

  function Release(db: Db, id: nat): Db {
    if db.lock == Some(id) then Db(db.jobs, None) else db
  }

  function InterruptAll(jobs: seq<Job>): (r: seq<Job>)
    ensures |r| == |jobs| && forall i :: 0 <= i < |r| ==> r[i] == InterruptJob(jobs[i])
  {
    seq(|jobs|, i requires 0 <= i < |jobs| => InterruptJob(jobs[i]))
  }

  function Recover(db: Db): Db {
    var held := db.lock.Some? && db.lock.value < |db.jobs| && db.jobs[db.lock.value].status.Running?;
    ReleaseTerminalLocks(Db(InterruptAll(db.jobs), if held then None else db.lock))
  }

  /** After a recovery nothing is running, and a lock that some job not waiting held is free. */
  lemma RecoverStopsAll(db: Db)
    requires db.lock.Some? ==> db.lock.value < |db.jobs| && !db.jobs[db.lock.value].status.Pending?
    ensures Recover(db).lock == None
    ensures forall i :: 0 <= i < |db.jobs| ==> !Recover(db).jobs[i].status.Running?
    ensures forall i :: 0 <= i < |db.jobs| && !db.jobs[i].status.Running? ==> Recover(db).jobs[i] == db.jobs[i]
    ensures forall i :: 0 <= i < |db.jobs| && db.jobs[i].status.Running? ==>
              Recover(db).jobs[i].status.Interrupted? && Recover(db).jobs[i].review
  {
  }

  // ---- The table in place ----

  class JobStore {
    var jobs: seq<Job>
    var lock: Option<nat>

    constructor ()
      ensures Contents() == Db([], None)
    {
      jobs, lock := [], None;
    }

    function Contents(): Db
      reads this
    {
      Db(jobs, lock)
    }

    method EnqueueJob(job: Job) returns (id: Option<nat>)
      modifies this
      ensures var after := Enqueue(old(Contents()), job);
              && Contents() == (if after.Some? then after.value else old(Contents()))
              && id == (if after.Some? then Some(|old(jobs)|) else None)
    {
      if !Admits(jobs, job) || !NoActiveKey(jobs, KeyOf(job)) {
        return None;
      }
      jobs := jobs + [job];
      return Some(|jobs| - 1);
    }

    method FreeTerminalLock()
      modifies this`lock
      ensures Contents() == ReleaseTerminalLocks(old(Contents()))
    {
      if lock.Some? && lock.value < |jobs| && !Active(jobs[lock.value]) {
        lock := None;
      }
    }

    method ClaimNext(supported: set<Kind>) returns (id: Option<nat>)
      modifies this
      ensures Contents() == Claim(old(Contents()), supported).0 && id == Claim(old(Contents()), supported).1
    {
      FreeTerminalLock();
      id := None;
      for i := 0 to |jobs|
        invariant id == Pick(jobs, supported, lock.None?, i)
        invariant Contents() == ReleaseTerminalLocks(old(Contents()))
      {
        if Eligible(jobs, supported, lock.None?, i) && (id.None? || !Before(jobs, id.value, i)) {
          id := Some(i);
        }
      }
      if id.Some? {
        jobs := jobs[id.value := jobs[id.value].(status := Running)];
        if NeedsLock(jobs[id.value].kind) {
          if lock.None? {
            lock := id;
          } else {
            assert false;
          }
        }
      }
    }

    method ReleaseLock(id: nat)
      modifies this`lock
      ensures Contents() == Release(old(Contents()), id)
    {
      if lock == Some(id) {
        lock := None;
      }
    }

    method RecoverInterrupted() returns (interrupted: seq<nat>)
      modifies this
      ensures Contents() == Recover(old(Contents()))
      ensures forall i :: i in interrupted <==> 0 <= i < |old(jobs)| && old(jobs)[i].status.Running?
    {
      interrupted := [];
      ghost var before := jobs;
      for i := 0 to |jobs|
        invariant |jobs| == |before| && lock == old(lock)
        invariant forall j :: 0 <= j < i ==> jobs[j] == InterruptJob(before[j])
        invariant forall j :: i <= j < |jobs| ==> jobs[j] == before[j]
        invariant forall j :: j in interrupted <==> 0 <= j < i && before[j].status.Running?
      {
        if jobs[i].status.Running? {
          jobs := jobs[i := InterruptJob(jobs[i])];
          interrupted := interrupted + [i];
        }
      }
      assert jobs == InterruptAll(before);
      if lock.Some? && lock.value in interrupted {
        lock := None;
      }
      FreeTerminalLock();
    }

    /** A request for a job that does not exist is refused. */
    method RequestCancel(id: nat) returns (accepted: bool)
      modifies this`jobs
      ensures id >= |old(jobs)| ==> !accepted && jobs == old(jobs)
      ensures id < |old(jobs)| ==> jobs == old(jobs)[id := CancelJob(old(jobs)[id]).0] && accepted == CancelJob(old(jobs)[id]).1
    {
      if id >= |jobs| {
        return false;
      }
      var job := jobs[id];
      accepted := Cancels(job.kind) && Active(job) && job.cancellable && !job.cancelRequested;
      if accepted {
        jobs := jobs[id := job.(cancelRequested := true)];
        if job.status.Pending? && !job.kind.Backup? {
          jobs := jobs[id := jobs[id].(status := Cancelled, cancellable := false)];
        }
      }
    }

    method RequestNow(id: nat) returns (accepted: bool)
      modifies this`jobs
      ensures id >= |old(jobs)| ==> !accepted && jobs == old(jobs)
      ensures id < |old(jobs)| ==> jobs == old(jobs)[id := NowJob(old(jobs)[id]).0] && accepted == NowJob(old(jobs)[id]).1
    {
      if id >= |jobs| {
        return false;
      }
      var job := jobs[id];
      accepted := job.kind.Assisted? && Active(job) && job.cancellable && !job.cancelRequested && !job.nowRequested;
      if accepted {
        jobs := jobs[id := job.(nowRequested := true)];
      }
    }

    method MarkIrreversible(id: nat) returns (directive: Directive)
      requires id < |jobs|
      modifies this`jobs
      ensures jobs == old(jobs)[id := MarkJob(old(jobs)[id]).0] && directive == MarkJob(old(jobs)[id]).1
    {
      var changed := jobs[id].cancellable && !jobs[id].cancelRequested;
      if changed {
        jobs := jobs[id := jobs[id].(cancellable := false)];
      }
      if !changed && jobs[id].cancelRequested {
        return Cancel;
      }
      jobs := jobs[id := jobs[id].(cancellable := false)];
      return Continue;
    }

    method Checkpoint(id: nat, cancellable: bool) returns (goOn: bool)
      requires id < |jobs|
      modifies this`jobs
      ensures var after := CheckpointJob(old(jobs)[id], cancellable);
              goOn == after.Some? && jobs == if goOn then old(jobs)[id := after.value] else old(jobs)
    {
      if jobs[id].cancelRequested && jobs[id].cancellable {
        return false;
      }
      jobs := jobs[id := jobs[id].(cancellable := cancellable)];
      return true;
    }

    method Complete(id: nat, status: Status, failure: Failure, critical: bool)
      requires id < |jobs|
      modifies this`jobs
      ensures jobs == old(jobs)[id := FinishJob(old(jobs)[id], status, failure, critical)]
    {
      var done := jobs[id].(status := status, cancellable := false, failure := failure);
      if done.kind.Update? {
        done := done.(review := status.Failed? && critical);
      } else if done.kind.Restore? {
        done := done.(destructive := critical, review := status.Failed? && critical);
      }
      jobs := jobs[id := done];
    }
  }
}
