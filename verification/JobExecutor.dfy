/** What the worker does with one claimed job, one atomic step at a time: the executors of the
    lifecycle, shutdown, backup, restore and update jobs, from the claim to the release of the lock. */
module JobExecutor {
  import opened Common
  import opened JobTable

  /** What a job has done to the world, and the two points at which its cancellation is settled. */
  datatype Effect =
    | Acked          // a cancel request was answered with success
    | Committed      // `mark_irreversible` answered CONTINUE
    | Published      // a backup archive was moved to its final name
    | Preserved      // the preventive backup was registered
    | StopIssued | StopOk
    | Recorded       // `destructive_started` was persisted
    | ApplyIssued | ApplyOk
    | StartIssued | StartOk
    | RestartIssued | RestartOk
    | SignalIssued
    | Verified       // the version matches and the log shows nothing critical

  /** How a call outside the database ends: well, with the error the code expects, with a second
      expected outcome, or with any other exception. */
  datatype Choice = Good | Other | Bad | Raise

  datatype Pc =
    | Begin
    | Opaque                        // drive, check and host power jobs: no step of theirs is modelled
    | Preparing(left: nat)          // checks before the preventive backup
    | Copying(left: nat)            // the cancellable part of a backup
    | Closing                       // the checkpoint after which a backup can no longer be cancelled
    | Publishing | Validating | Registering
    | BeforeStop                    // the checkpoint after the preventive backup
    | Contact | Counting(remaining: nat) | Marking | Announcing
    | StopCall | StopWait
    | BeforeApply | ApplyCall | ApplyWait
    | BeforeStart | StartCall | StartWait
    | RestartCall | RestartWait
    | SignalCall | SignalWait
    | BeforeVerify | Verifying
    | Finish(status: Status, failure: Failure)
    | Wrapup                        // an update or a check is complete and appends to its log
    | LastTry                       // the worker's handler of an exception
    | Releasing(dying: bool)

  /** A job in execution: `critical` is the local flag of updates and restores, and `effect` what the
      last step did. */
  datatype Local = Local(job: Job, pc: Pc, critical: bool, effect: Option<Effect>)

  const CHECKPOINTS_BEFORE_BACKUP: nat := 2
  const CHECKPOINTS_OF_BACKUP: nat := 7

  // ---- Exits ----

  /** The executor ends with an expected failure. */
  function Fail(l: Local, failure: Failure): Local {
    l.(pc := Finish(Failed, failure))
  }

  /** An exception the executor does not expect. Backups, restores, updates and checks handle it
      themselves; the others leave it to the worker. */
  function Unforeseen(l: Local): Local {
    match l.job.kind
    case Backup => Fail(l, NoFailure)
    case Restore => Fail(l, NoFailure)
    case Update => Fail(l, NoFailure)
    case UpdateCheck => Fail(l, NoFailure)
    case DriveCheck => Fail(l, NoFailure)
    case DriveTransfer => Fail(l, NoFailure)
    case _ => l.(pc := LastTry)
  }

  /** An exception that leaves the executor: for some kinds the worker swallows it, and the job keeps
      its status. */
  function Escape(l: Local): Local {
    if Swallowed(l.job.kind) then l.(pc := Releasing(false)) else l.(pc := LastTry)
  }

  predicate Swallowed(kind: Kind) {
    kind.Backup? || kind.Restore? || kind.DriveCheck? || kind.DriveTransfer?
  }

  // ---- Steps ----

  /** `_checkpoint`, where a restore is never cancelled. */
  function Check(l: Local, cancellable: bool, next: Pc): Local {
    if l.job.kind.Restore? then l.(job := RestoreCheckpoint(l.job, l.critical), pc := next)
    else
      match CheckpointJob(l.job, cancellable)
      case None => l.(pc := Finish(Cancelled, NoFailure))
      case Some(job) => l.(job := job, pc := next)
  }

  function ExecuteBegin(l: Local, choice: Choice): Local {
    if !choice.Good? then if l.job.kind.Update? then Fail(l, NoFailure) else Escape(l)
    else
      match l.job.kind
      case Start => l.(pc := StartCall)
      case Stop => l.(pc := StopCall)
      case Restart => l.(pc := RestartCall)
      case Assisted => l.(pc := Contact)
      case ForceTerm => l.(pc := SignalCall)
      case ForceKill => l.(pc := SignalCall)
      case Backup => l.(pc := Copying(CHECKPOINTS_OF_BACKUP))
      case Restore => l.(pc := Preparing(CHECKPOINTS_BEFORE_BACKUP))
      case Update => l.(pc := Preparing(CHECKPOINTS_BEFORE_BACKUP))
      case _ => l.(pc := Opaque)
  }

  /** The checks of an update (disk space, versions) or of a restore (the archive). */
  function ExecutePreparing(l: Local, choice: Choice): Local
    requires l.pc.Preparing?
  {
    if l.pc.left == 0 then
      if l.job.kind.Update? && choice.Other? then l.(pc := Finish(Succeeded, NoFailure))
      else if !choice.Good? then Fail(l, NoFailure)
      else l.(pc := Copying(1 + CHECKPOINTS_OF_BACKUP))
    else
      var next := Check(l, true, Preparing(l.pc.left - 1));
      if next.pc.Finish? || choice.Good? then next else Fail(next, NoFailure)
  }

  function ExecuteBackup(l: Local, choice: Choice): Local
    requires l.pc.Copying? || l.pc.Closing? || l.pc.Publishing? || l.pc.Validating? || l.pc.Registering?
  {
    match l.pc
    case Copying(left) =>
      var next := Check(l, true, if left <= 1 then Closing else Copying(left - 1));
      if next.pc.Finish? || choice.Good? then next else Fail(next, NoFailure)
    case Closing => Check(l, false, Publishing)
    case Publishing => if choice.Good? then l.(effect := Some(Published), pc := Validating) else Fail(l, NoFailure)
    case Validating =>
      if !choice.Good? then Fail(l, NoFailure)
      else if l.job.kind.Backup? then l.(pc := Finish(Succeeded, NoFailure))
      else l.(pc := Registering)
    case Registering => if choice.Good? then l.(effect := Some(Preserved), pc := BeforeStop) else Fail(l, NoFailure)
  }

  /** The assisted shutdown, by itself or inside an update. */
  function ExecuteCountdown(l: Local, choice: Choice): Local
    requires l.pc.Contact? || l.pc.Counting? || l.pc.Marking? || l.pc.Announcing?
  {
    match l.pc
    case Contact =>
      if choice.Good? then l.(pc := if l.job.minutes == 0 then Marking else Counting(60 * l.job.minutes))
      else if choice.Bad? then Fail(l, CommunicationFailed)
      else Unforeseen(l)
    case Counting(remaining) =>
      if choice.Raise? then Unforeseen(l)
      else
        (match TickJob(l.job)
         case Cancel => l.(pc := Finish(Cancelled, NoFailure))
         case ExecuteNow => l.(pc := Marking)
         case Continue => l.(pc := if remaining <= 1 then Marking else Counting(remaining - 1)))
    case Marking =>
      if choice.Raise? then Unforeseen(l)
      else if choice.Bad? then Unforeseen(l.(critical := l.job.kind.Update?))
      else
        var (job, directive) := MarkJob(l.job);
        if directive.Cancel? then l.(pc := Finish(Cancelled, NoFailure))
        else Local(job, Announcing, l.job.kind.Update?, Some(Committed))
    case Announcing =>
      if choice.Good? then l.(pc := StopCall)
      else if choice.Bad? then Fail(l, CommunicationFailed)
      else Unforeseen(l)
  }

  function ExecuteStop(l: Local, choice: Choice): Local
    requires l.pc.BeforeStop? || l.pc.StopCall? || l.pc.StopWait?
  {
    match l.pc
    case BeforeStop =>
      if !choice.Good? then Fail(l, NoFailure)
      else Check(l, true, if l.job.kind.Update? then Contact else StopCall)
    case StopCall => l.(effect := Some(StopIssued), pc := StopWait)
    case StopWait =>
      if choice.Good? then
        var next := l.(effect := Some(StopOk));
        if l.job.kind.Stop? || l.job.kind.Assisted? then next.(pc := Finish(Succeeded, NoFailure))
        else next.(pc := BeforeApply)
      else if choice.Raise? then Unforeseen(l)
      else Fail(l, if l.job.kind.Assisted? then StopFailed else NoFailure)
  }

  /** Installing the update, or replacing the world by the restored one. */
  function ExecuteApply(l: Local, choice: Choice): Local
    requires l.pc.BeforeApply? || l.pc.ApplyCall? || l.pc.ApplyWait?
  {
    match l.pc
    case BeforeApply =>
      if l.job.kind.Restore? then
        var next := l.(critical := true);
        if !choice.Good? then Fail(next, NoFailure)
        else Check(next, false, ApplyCall).(effect := Some(Recorded))
      else if !choice.Good? then Fail(l, NoFailure)
      else Check(l, false, ApplyCall)
    case ApplyCall => l.(effect := Some(ApplyIssued), pc := ApplyWait)
    case ApplyWait => if choice.Good? then l.(effect := Some(ApplyOk), pc := BeforeStart) else Fail(l, NoFailure)
  }

  function ExecuteStart(l: Local, choice: Choice): Local
    requires l.pc.BeforeStart? || l.pc.StartCall? || l.pc.StartWait? || l.pc.BeforeVerify? || l.pc.Verifying?
  {
    match l.pc
    case BeforeStart => if choice.Good? then Check(l, false, StartCall) else Fail(l, NoFailure)
    case StartCall => l.(effect := Some(StartIssued), pc := StartWait)
    case StartWait =>
      if choice.Good? then
        l.(effect := Some(StartOk), pc := if l.job.kind.Start? then Finish(Succeeded, NoFailure) else BeforeVerify)
      else if choice.Raise? then Unforeseen(l)
      else Fail(l, NoFailure)
    case BeforeVerify => if choice.Good? then Check(l, false, Verifying) else Fail(l, NoFailure)
    case Verifying =>
      if choice.Good? then l.(effect := Some(Verified), pc := Finish(Succeeded, NoFailure)) else Fail(l, NoFailure)
  }

  function ExecuteOther(l: Local, choice: Choice): Local
    requires l.pc.RestartCall? || l.pc.RestartWait? || l.pc.SignalCall? || l.pc.SignalWait? || l.pc.Opaque?
  {
    match l.pc
    case RestartCall => l.(effect := Some(RestartIssued), pc := RestartWait)
    case RestartWait =>
      if choice.Good? then l.(effect := Some(RestartOk), pc := Finish(Succeeded, NoFailure))
      else if choice.Raise? then Unforeseen(l)
      else Fail(l, NoFailure)
    case SignalCall => l.(effect := Some(SignalIssued), pc := SignalWait)
    case SignalWait =>
      if choice.Good? then l.(pc := Finish(Succeeded, NoFailure))
      else if choice.Raise? then Unforeseen(l)
      else Fail(l, SignalFailed)
    case Opaque =>
      if choice.Good? then l.(pc := Finish(Succeeded, NoFailure))
      else if choice.Raise? then Unforeseen(l)
      else Fail(l, NoFailure)
  }

  /** The writes that end a job; `Raise` is a transaction that fails. */
  function ExecuteEnd(l: Local, choice: Choice): Local
    requires l.pc.Finish? || l.pc.Wrapup? || l.pc.LastTry?
  {
    match l.pc
    case Finish(status, failure) =>
      if !choice.Raise? then
        l.(job := FinishJob(l.job, status, failure, l.critical),
           pc := if status.Succeeded? && ((l.job.kind.Update? && l.critical) || l.job.kind.UpdateCheck?) then Wrapup else Releasing(false))
      else if status.Succeeded? then Unforeseen(l)
      else Escape(l)
    case Wrapup => if choice.Good? then l.(pc := Releasing(false)) else Fail(l, NoFailure)
    case LastTry => if choice.Raise? then l.(pc := Releasing(true)) else l.(job := LastResort(l.job), pc := Releasing(false))
  }

  function Execute(local: Local, choice: Choice): Local {
    var l := local.(effect := None);
    match l.pc
    case Begin => ExecuteBegin(l, choice)
    case Preparing(_) => ExecutePreparing(l, choice)
    case Copying(_) => ExecuteBackup(l, choice)
    case Closing => ExecuteBackup(l, choice)
    case Publishing => ExecuteBackup(l, choice)
    case Validating => ExecuteBackup(l, choice)
    case Registering => ExecuteBackup(l, choice)
    case Contact => ExecuteCountdown(l, choice)
    case Counting(_) => ExecuteCountdown(l, choice)
    case Marking => ExecuteCountdown(l, choice)
    case Announcing => ExecuteCountdown(l, choice)
    case BeforeStop => ExecuteStop(l, choice)
    case StopCall => ExecuteStop(l, choice)
    case StopWait => ExecuteStop(l, choice)
    case BeforeApply => ExecuteApply(l, choice)
    case ApplyCall => ExecuteApply(l, choice)
    case ApplyWait => ExecuteApply(l, choice)
    case BeforeStart => ExecuteStart(l, choice)
    case StartCall => ExecuteStart(l, choice)
    case StartWait => ExecuteStart(l, choice)
    case BeforeVerify => ExecuteStart(l, choice)
    case Verifying => ExecuteStart(l, choice)
    case Finish(_, _) => ExecuteEnd(l, choice)
    case Wrapup => ExecuteEnd(l, choice)
    case LastTry => ExecuteEnd(l, choice)
    case Releasing(_) => l
    case _ => ExecuteOther(l, choice)
  }

  // ---- What a job has done, at every point ----

  predicate Long(kind: Kind) {
    kind.Update? || kind.Restore?
  }

  predicate Forced(kind: Kind) {
    kind.ForceTerm? || kind.ForceKill?
  }

  /** The effect that comes after `k` others when all goes well. Updates and restores differ in the
      third to fifth: an update commits and stops, a restore stops and records that it will apply. */
  function EffectAt(kind: Kind, k: nat): Effect {
    if Long(kind) then
      if k == 0 then Published
      else if k == 1 then Preserved
      else if k == 2 then if kind.Update? then Committed else StopIssued
      else if k == 3 then if kind.Update? then StopIssued else StopOk
      else if k == 4 then if kind.Update? then StopOk else Recorded
      else if k == 5 then ApplyIssued
      else if k == 6 then ApplyOk
      else if k == 7 then StartIssued
      else if k == 8 then StartOk
      else Verified
    else if kind.Assisted? then if k == 0 then Committed else if k == 1 then StopIssued else StopOk
    else if kind.Stop? then if k == 0 then StopIssued else StopOk
    else if kind.Start? then if k == 0 then StartIssued else StartOk
    else if kind.Restart? then if k == 0 then RestartIssued else RestartOk
    else if kind.Backup? then Published
    else SignalIssued
  }

  function Length(kind: Kind): nat {
    if Long(kind) then 10
    else if kind.Assisted? then 3
    else if kind.Start? || kind.Stop? || kind.Restart? then 2
    else if kind.Backup? || Forced(kind) then 1
    else 0
  }

  /** Everything a job of this kind does when all goes well, in order. */
  function Script(kind: Kind): (r: seq<Effect>)
    ensures |r| == Length(kind) && forall k :: 0 <= k < |r| ==> r[k] == EffectAt(kind, k)
  {
    seq(Length(kind), k requires 0 <= k => EffectAt(kind, k))
  }

  /** How much of its script a job can have done and still be cancelled. */
  function Limit(kind: Kind): nat {
    if kind.Update? then 2 else 0
  }

  function Acks(job: Job): seq<Effect> {
    if job.cancelRequested then [Acked] else []
  }

  /** How much of the script is done, not counting the answer to a cancel request. */
  function Progress(job: Job, done: seq<Effect>): int {
    |done| - |Acks(job)|
  }

  /** What a job has done is a prefix of its script, followed by `Acked` if and only if a cancel
      request was accepted. */
  ghost predicate DoneInOrder(job: Job, done: seq<Effect>) {
    var k := Progress(job, done);
    0 <= k <= |Script(job.kind)| && done == Script(job.kind)[..k] + Acks(job)
  }

  /** How the row of a job that has done `k` steps of its script must look. */
  predicate RowOk(job: Job, k: int) {
    && 0 <= k <= Length(job.kind)
    && (job.cancelRequested || (Active(job) && job.cancellable) ==> Cancels(job.kind) && k <= Limit(job.kind))
    && (Active(job) && job.cancelRequested ==> job.cancellable)
    && (job.status.Pending? ==> k == 0)
    && (job.status.Succeeded? ==> k == Length(job.kind) || (job.kind.Update? && k == 0))
    && (job.status.Cancelled? ==> job.cancelRequested)
    && (job.status.Interrupted? ==> job.review)
    && (job.kind.Update? && job.status.Failed? && 3 <= k ==> job.review)
    && (job.kind.Restore? && 5 <= k ==> job.destructive && (job.status.Failed? ==> job.review))
  }

  /** What is true of every job at every point, running or not. */
  ghost predicate Sound(job: Job, done: seq<Effect>) {
    DoneInOrder(job, done) && RowOk(job, Progress(job, done))
  }

  /** What is true of a job that has done `k` steps of its script when its executor stands at `pc`. */
  predicate AtPc(job: Job, k: int, pc: Pc, critical: bool) {
    var kind := job.kind;
    match pc
    case Begin => k == 0 && Reversible(job, critical)
    case Opaque => k == 0 && Reversible(job, critical) && Length(kind) == 0
    case Preparing(_) => k == 0 && Reversible(job, critical) && Long(kind)
    case Copying(_) => k == 0 && Reversible(job, critical) && (Long(kind) || kind.Backup?)
    case Closing => k == 0 && Reversible(job, critical) && (Long(kind) || kind.Backup?)
    case Publishing => k == 0 && Reversible(job, critical) && (Long(kind) || kind.Backup?) && !job.cancellable
    case Validating => k == 1 && Reversible(job, critical) && (Long(kind) || kind.Backup?) && !job.cancellable
    case Registering => k == 1 && Reversible(job, critical) && Long(kind) && !job.cancellable
    case BeforeStop => k == 2 && Reversible(job, critical) && Long(kind) && !job.cancellable
    case Contact => k == Limit(kind) && Reversible(job, critical) && (kind.Update? || kind.Assisted?)
    case Counting(_) => k == Limit(kind) && Reversible(job, critical) && (kind.Update? || kind.Assisted?)
    case Marking => k == Limit(kind) && Reversible(job, critical) && (kind.Update? || kind.Assisted?)
    case Announcing => k == Limit(kind) + 1 && Past(job, critical) && (kind.Update? || kind.Assisted?)
    case StopCall =>
      && (if kind.Restore? then k == 2 && Reversible(job, critical)
          else if kind.Stop? then k == 0 && Reversible(job, critical)
          else (kind.Update? || kind.Assisted?) && k == Limit(kind) + 1 && Past(job, critical))
    case StopWait =>
      && (if kind.Restore? then k == 3 && Reversible(job, critical)
          else if kind.Stop? then k == 1 && Reversible(job, critical)
          else (kind.Update? || kind.Assisted?) && k == Limit(kind) + 2 && Past(job, critical))
    case BeforeApply =>
      if kind.Restore? then k == 4 && Reversible(job, critical) else kind.Update? && k == 5 && Past(job, critical)
    case ApplyCall => k == 5 && Past(job, critical) && Long(kind)
    case ApplyWait => k == 6 && Past(job, critical) && Long(kind)
    case BeforeStart => k == 7 && Past(job, critical) && Long(kind)
    case StartCall => if kind.Start? then k == 0 && Reversible(job, critical) else k == 7 && Past(job, critical) && Long(kind)
    case StartWait => if kind.Start? then k == 1 && Reversible(job, critical) else k == 8 && Past(job, critical) && Long(kind)
    case BeforeVerify => k == 9 && Past(job, critical) && Long(kind)
    case Verifying => k == 9 && Past(job, critical) && Long(kind)
    case RestartCall => k == 0 && Reversible(job, critical) && kind.Restart?
    case RestartWait => k == 1 && Reversible(job, critical) && kind.Restart?
    case SignalCall => k == 0 && Reversible(job, critical) && Forced(kind)
    case SignalWait => k == 1 && Reversible(job, critical) && Forced(kind)
    case Finish(status, _) =>
      && (job.status.Running? || (job.status.Succeeded? && status.Failed? && Logs(kind)))
      && (status.Succeeded? || status.Failed? || status.Cancelled?)
      && (status.Succeeded? ==> k == Length(kind) || (kind.Update? && k == 0))
      && (status.Cancelled? ==> job.cancelRequested)
      && ((kind.Update? && 3 <= k) || (kind.Restore? && 5 <= k) ==> critical)
    case Wrapup => job.status.Succeeded? && Logs(kind) && (kind.Update? ==> critical)
    case LastTry => !Swallowed(kind) && (job.status.Running? || (job.status.Succeeded? && Logs(kind)))
    case Releasing(dying) => !job.status.Pending? && (job.status.Running? ==> dying || Swallowed(kind))
  }

  /** Running, with nothing behind it that could call for a manual review. */
  predicate Reversible(job: Job, critical: bool) {
    job.status.Running? && !critical
  }

  /** Running, and past the point where an update or a shutdown can be cancelled, or where a restore
      begins to write. */
  predicate Past(job: Job, critical: bool) {
    job.status.Running? && !job.cancellable && (Long(job.kind) ==> critical) && (job.kind.Restore? ==> job.destructive)
  }

  /** The kinds that write their log after the last transaction. */
  predicate Logs(kind: Kind) {
    kind.Update? || kind.UpdateCheck?
  }

  predicate LocalOk(l: Local, k: int) {
    RowOk(l.job, k) && AtPc(l.job, k, l.pc, l.critical)
  }

  /** What no step changes: the identity of the job, the answer to a cancel request, and a final
      status, save that a completed update or check whose log cannot be written counts as failed. */
  predicate Evolves(before: Job, after: Job) {
    && after.kind == before.kind && after.minutes == before.minutes && after.source == before.source
    && after.record == before.record && after.createdAt == before.createdAt
    && (!Active(before) ==>
          after == before ||
          (before.status.Succeeded? && after.status.Failed? && (before.kind.Update? || before.kind.UpdateCheck?)))
  }

  /** One step of an executor: the row stays as it must, and the effect, if any, is the next one of
      the script, done only while no cancel request was accepted. */
  ghost predicate Keeps(l: Local, k: int, next: Local) {
    && Evolves(l.job, next.job) && next.job.cancelRequested == l.job.cancelRequested
    && (next.effect.None? ==> LocalOk(next, k))
    && (next.effect.Some? ==>
          !l.job.cancelRequested && 0 <= k < Length(l.job.kind) && next.effect.value == EffectAt(l.job.kind, k) && LocalOk(next, k + 1))
  }

  lemma EvolvesSame(job: Job)
    ensures Evolves(job, job)
  {
  }

  lemma BeginKeeps(l: Local, k: int, choice: Choice)
    requires LocalOk(l, k) && l.effect.None? && l.pc.Begin?
    ensures Keeps(l, k, ExecuteBegin(l, choice))
  {
    hide Evolves, EffectAt;
    EvolvesSame(l.job);
  }

  lemma PreparingKeeps(l: Local, k: int, choice: Choice)
    requires LocalOk(l, k) && l.effect.None? && l.pc.Preparing?
    ensures Keeps(l, k, ExecutePreparing(l, choice))
  {
    hide EffectAt;
  }

  lemma CopyingKeeps(l: Local, k: int, choice: Choice)
    requires LocalOk(l, k) && l.effect.None? && (l.pc.Copying? || l.pc.Closing?)
    ensures Keeps(l, k, ExecuteBackup(l, choice))
  {
    hide EffectAt;
  }

  lemma PublishingKeeps(l: Local, k: int, choice: Choice)
    requires LocalOk(l, k) && l.effect.None? && (l.pc.Publishing? || l.pc.Validating? || l.pc.Registering?)
    ensures Keeps(l, k, ExecuteBackup(l, choice))
  {
    hide Evolves;
    EvolvesSame(l.job);
  }

  lemma ContactKeeps(l: Local, k: int, choice: Choice)
    requires LocalOk(l, k) && l.effect.None? && l.pc.Contact?
    ensures Keeps(l, k, ExecuteCountdown(l, choice))
  {
    hide Evolves, EffectAt;
    EvolvesSame(l.job);
  }

  lemma CountingKeeps(l: Local, k: int, choice: Choice)
    requires LocalOk(l, k) && l.effect.None? && l.pc.Counting?
    ensures Keeps(l, k, ExecuteCountdown(l, choice))
  {
    hide Evolves, EffectAt;
    EvolvesSame(l.job);
  }

  lemma MarkingKeeps(l: Local, k: int, choice: Choice)
    requires LocalOk(l, k) && l.effect.None? && l.pc.Marking? && (choice.Good? || choice.Other?)
    ensures Keeps(l, k, ExecuteCountdown(l, choice))
  {
  }

  lemma MarkingFails(l: Local, k: int, choice: Choice)
    requires LocalOk(l, k) && l.effect.None? && l.pc.Marking? && (choice.Bad? || choice.Raise?)
    ensures Keeps(l, k, ExecuteCountdown(l, choice))
  {
    hide Evolves, EffectAt, MarkJob;
    EvolvesSame(l.job);
  }

  lemma AnnouncingKeeps(l: Local, k: int, choice: Choice)
    requires LocalOk(l, k) && l.effect.None? && l.pc.Announcing?
    ensures Keeps(l, k, ExecuteCountdown(l, choice))
  {
    hide EffectAt;
  }

  lemma BeforeStopKeeps(l: Local, k: int, choice: Choice)
    requires LocalOk(l, k) && l.effect.None? && l.pc.BeforeStop?
    ensures Keeps(l, k, ExecuteStop(l, choice))
  {
    hide EffectAt;
  }

  lemma StopCallKeeps(l: Local, k: int, choice: Choice)
    requires LocalOk(l, k) && l.effect.None? && l.pc.StopCall?
    ensures Keeps(l, k, ExecuteStop(l, choice))
  {
    hide Evolves;
    EvolvesSame(l.job);
  }

  lemma StopWaitKeeps(l: Local, k: int, choice: Choice)
    requires LocalOk(l, k) && l.effect.None? && l.pc.StopWait?
    ensures Keeps(l, k, ExecuteStop(l, choice))
  {
    hide Evolves;
    EvolvesSame(l.job);
  }

  lemma BeforeApplyKeeps(l: Local, k: int, choice: Choice)
    requires LocalOk(l, k) && l.effect.None? && l.pc.BeforeApply?
    ensures Keeps(l, k, ExecuteApply(l, choice))
  {
  }

  lemma ApplyKeeps(l: Local, k: int, choice: Choice)
    requires LocalOk(l, k) && l.effect.None? && (l.pc.ApplyCall? || l.pc.ApplyWait?)
    ensures Keeps(l, k, ExecuteApply(l, choice))
  {
    hide Evolves;
    EvolvesSame(l.job);
  }

  lemma BeforeStartKeeps(l: Local, k: int, choice: Choice)
    requires LocalOk(l, k) && l.effect.None? && l.pc.BeforeStart?
    ensures Keeps(l, k, ExecuteStart(l, choice))
  {
    hide EffectAt;
  }

  lemma StartCallKeeps(l: Local, k: int, choice: Choice)
    requires LocalOk(l, k) && l.effect.None? && l.pc.StartCall?
    ensures Keeps(l, k, ExecuteStart(l, choice))
  {
    hide Evolves;
    EvolvesSame(l.job);
  }

  lemma StartWaitKeeps(l: Local, k: int, choice: Choice)
    requires LocalOk(l, k) && l.effect.None? && l.pc.StartWait?
    ensures Keeps(l, k, ExecuteStart(l, choice))
  {
    hide Evolves;
    EvolvesSame(l.job);
  }

  lemma BeforeVerifyKeeps(l: Local, k: int, choice: Choice)
    requires LocalOk(l, k) && l.effect.None? && l.pc.BeforeVerify?
    ensures Keeps(l, k, ExecuteStart(l, choice))
  {
    hide EffectAt;
  }

  lemma VerifyKeeps(l: Local, k: int, choice: Choice)
    requires LocalOk(l, k) && l.effect.None? && l.pc.Verifying?
    ensures Keeps(l, k, ExecuteStart(l, choice))
  {
    hide Evolves;
    EvolvesSame(l.job);
  }

  lemma RestartActionKeeps(l: Local, k: int, choice: Choice)
    requires LocalOk(l, k) && l.effect.None? && (l.pc.RestartCall? || l.pc.RestartWait?)
    ensures Keeps(l, k, ExecuteOther(l, choice))
  {
    hide Evolves;
    EvolvesSame(l.job);
  }

  lemma SignalKeeps(l: Local, k: int, choice: Choice)
    requires LocalOk(l, k) && l.effect.None? && (l.pc.SignalCall? || l.pc.SignalWait?)
    ensures Keeps(l, k, ExecuteOther(l, choice))
  {
    hide Evolves;
    EvolvesSame(l.job);
  }

  lemma OpaqueKeeps(l: Local, k: int, choice: Choice)
    requires LocalOk(l, k) && l.effect.None? && l.pc.Opaque?
    ensures Keeps(l, k, ExecuteOther(l, choice))
  {
    hide Evolves, EffectAt;
    EvolvesSame(l.job);
  }

  lemma FinishKeeps(l: Local, k: int, choice: Choice)
    requires LocalOk(l, k) && l.effect.None? && l.pc.Finish? && !choice.Raise?
    ensures Keeps(l, k, ExecuteEnd(l, choice))
  {
    hide EffectAt;
  }

  lemma FinishFails(l: Local, k: int, choice: Choice)
    requires LocalOk(l, k) && l.effect.None? && l.pc.Finish? && choice.Raise?
    ensures Keeps(l, k, ExecuteEnd(l, choice))
  {
    hide EffectAt;
  }

  lemma WrapupKeeps(l: Local, k: int, choice: Choice)
    requires LocalOk(l, k) && l.effect.None? && l.pc.Wrapup?
    ensures Keeps(l, k, ExecuteEnd(l, choice))
  {
    hide EffectAt;
  }

  lemma LastTryKeeps(l: Local, k: int, choice: Choice)
    requires LocalOk(l, k) && l.effect.None? && l.pc.LastTry?
    ensures Keeps(l, k, ExecuteEnd(l, choice))
  {
    hide EffectAt;
  }

  /** Every step of every executor. */
  lemma ExecuteKeeps(l: Local, k: int, choice: Choice)
    requires LocalOk(l, k) && !l.pc.Releasing?
    ensures Keeps(l, k, Execute(l, choice))
  {
    hide LocalOk, Keeps, ExecuteBegin, ExecutePreparing, ExecuteBackup, ExecuteCountdown;
    hide ExecuteStop, ExecuteApply, ExecuteStart, ExecuteOther, ExecuteEnd;
    var plain := l.(effect := None);
    PlainLocal(l, k, plain);
    PlainKeeps(l, k, plain, Execute(l, choice));
    match l.pc
    case Begin => BeginKeeps(plain, k, choice);
    case Preparing(_) => PreparingKeeps(plain, k, choice);
    case Copying(_) => CopyingKeeps(plain, k, choice);
    case Closing => CopyingKeeps(plain, k, choice);
    case Publishing => PublishingKeeps(plain, k, choice);
    case Validating => PublishingKeeps(plain, k, choice);
    case Registering => PublishingKeeps(plain, k, choice);
    case Contact => ContactKeeps(plain, k, choice);
    case Counting(_) => CountingKeeps(plain, k, choice);
    case Marking =>
      if choice.Bad? || choice.Raise? {
        MarkingFails(plain, k, choice);
      } else {
        MarkingKeeps(plain, k, choice);
      }
    case Announcing => AnnouncingKeeps(plain, k, choice);
    case BeforeStop => BeforeStopKeeps(plain, k, choice);
    case StopCall => StopCallKeeps(plain, k, choice);
    case StopWait => StopWaitKeeps(plain, k, choice);
    case BeforeApply => BeforeApplyKeeps(plain, k, choice);
    case ApplyCall => ApplyKeeps(plain, k, choice);
    case ApplyWait => ApplyKeeps(plain, k, choice);
    case BeforeStart => BeforeStartKeeps(plain, k, choice);
    case StartCall => StartCallKeeps(plain, k, choice);
    case StartWait => StartWaitKeeps(plain, k, choice);
    case BeforeVerify => BeforeVerifyKeeps(plain, k, choice);
    case Verifying => VerifyKeeps(plain, k, choice);
    case RestartCall => RestartActionKeeps(plain, k, choice);
    case RestartWait => RestartActionKeeps(plain, k, choice);
    case SignalCall => SignalKeeps(plain, k, choice);
    case SignalWait => SignalKeeps(plain, k, choice);
    case Opaque => OpaqueKeeps(plain, k, choice);
    case Wrapup => WrapupKeeps(plain, k, choice);
    case LastTry => LastTryKeeps(plain, k, choice);
    case Finish(_, _) =>
      if choice.Raise? {
        FinishFails(plain, k, choice);
      } else {
        FinishKeeps(plain, k, choice);
      }
  }

  lemma PlainLocal(l: Local, k: int, plain: Local)
    requires plain == l.(effect := None)
    ensures LocalOk(l, k) <==> LocalOk(plain, k)
  {
  }

  lemma PlainKeeps(l: Local, k: int, plain: Local, next: Local)
    requires plain == l.(effect := None)
    ensures Keeps(plain, k, next) ==> Keeps(l, k, next)
  {
    hide LocalOk;
  }

  /** A cancel request, whether or not the job is in execution: if it is accepted, the job has not
      passed its point of no return, and wherever its executor stands, that is still right. */
  lemma CancelKeeps(job: Job, k: int)
    requires RowOk(job, k)
    ensures var (after, accepted) := CancelJob(job);
            && RowOk(after, k) && Evolves(job, after) && (accepted ==> !job.cancelRequested && after.cancelRequested && k <= Limit(job.kind))
            && after.kind == job.kind && (!accepted ==> after == job)
  {
  }

  lemma CancelKeepsPc(job: Job, k: int, pc: Pc, critical: bool)
    requires RowOk(job, k) && AtPc(job, k, pc, critical)
    ensures AtPc(CancelJob(job).0, k, pc, critical)
  {
  }

  lemma NowKeeps(job: Job, k: int)
    requires RowOk(job, k)
    ensures RowOk(NowJob(job).0, k) && Evolves(job, NowJob(job).0) && NowJob(job).0.cancelRequested == job.cancelRequested
  {
  }

  lemma NowKeepsPc(job: Job, k: int, pc: Pc, critical: bool)
    requires RowOk(job, k) && AtPc(job, k, pc, critical)
    ensures AtPc(NowJob(job).0, k, pc, critical)
  {
  }
}
