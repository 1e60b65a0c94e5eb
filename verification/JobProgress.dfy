/** What becomes of a job when all goes well, when its cancel request is accepted, and what a recorded
    failure means: the converse of the guarantees, over every run. */
module JobProgress {
  import opened Common
  import opened JobTable
  import opened JobExecutor
  import opened JobProtocol
  import opened JobGuarantees

  // ---- The way to success ----

  /** Nothing has gone wrong so far, and nobody has cancelled. */
  predicate OnTrack(l: Local, k: int) {
    && LocalOk(l, k) && !l.job.cancelRequested
    && match l.pc
       case Finish(status, _) => status.Succeeded? && k == Length(l.job.kind)
       case Wrapup => l.job.status.Succeeded? && k == Length(l.job.kind)
       case LastTry => false
       case Releasing(dying) => !dying && l.job.status.Succeeded? && k == Length(l.job.kind)
       case _ => true
  }

  /** How many steps it takes from the stop of the server to the recorded success. */
  function AfterStop(kind: Kind): nat {
    if kind.Stop? || kind.Assisted? then 2 else 10
  }

  /** From the registered preventive backup on. */
  function AfterBackup(kind: Kind, minutes: nat): nat {
    if kind.Update? then 15 + 60 * minutes else 12
  }

  /** How many more steps it takes to record the success, when every call goes well. */
  function Remaining(kind: Kind, minutes: nat, pc: Pc): nat {
    match pc
    case Begin => Needed(kind, minutes)
    case Opaque => 2
    case Preparing(left) => left + 1 + 8 + 4 + AfterBackup(kind, minutes)
    case Copying(left) => (if left == 0 then 1 else left) + 4 + if kind.Backup? then 0 else AfterBackup(kind, minutes)
    case Closing => 4 + if kind.Backup? then 0 else AfterBackup(kind, minutes)
    case Publishing => 3 + if kind.Backup? then 0 else AfterBackup(kind, minutes)
    case Validating => 2 + if kind.Backup? then 0 else AfterBackup(kind, minutes)
    case Registering => 1 + AfterBackup(kind, minutes)
    case BeforeStop => AfterBackup(kind, minutes)
    case Contact => 1 + 60 * minutes + 3 + AfterStop(kind)
    case Counting(remaining) => (if remaining == 0 then 1 else remaining) + 3 + AfterStop(kind)
    case Marking => 3 + AfterStop(kind)
    case Announcing => 2 + AfterStop(kind)
    case StopCall => 1 + AfterStop(kind)
    case StopWait => AfterStop(kind)
    case BeforeApply => 9
    case ApplyCall => 8
    case ApplyWait => 7
    case BeforeStart => 6
    case StartCall => if kind.Start? then 3 else 5
    case StartWait => if kind.Start? then 2 else 4
    case RestartCall => 3
    case RestartWait => 2
    case SignalCall => 3
    case SignalWait => 2
    case BeforeVerify => 3
    case Verifying => 2
    case Finish(_, _) => 1
    case Wrapup => 0
    case LastTry => 0
    case Releasing(_) => 0
  }

  /** How many steps a job of this kind takes in all; a countdown takes one for each of its seconds. */
  function Needed(kind: Kind, minutes: nat): nat {
    match kind
    case Assisted => 7 + 60 * minutes
    case Backup => 12
    case Restore => 28
    case Update => 31 + 60 * minutes
    case UpdateCheck => 3
    case DriveCheck => 3
    case DriveTransfer => 3
    case HostPower => 3
    case _ => 4
  }

  /** Told to go ahead at once, an assisted shutdown skips the rest of its countdown. */
  predicate Skips(l: Local) {
    l.pc.Counting? && l.job.kind.Assisted? && l.job.nowRequested
  }

  function ToGo(l: Local): nat {
    Remaining(l.job.kind, l.job.minutes, l.pc)
  }

  /** One step nearer to the recorded success, and still nothing wrong. */
  predicate Nearer(l: Local, k: int, next: Local) {
    && OnTrack(next, if next.effect.Some? then k + 1 else k)
    && next.job.kind == l.job.kind && next.job.minutes == l.job.minutes && next.job.nowRequested == l.job.nowRequested
    && (ToGo(l) > 0 ==> ToGo(next) < ToGo(l) && (!Skips(l) ==> ToGo(next) == ToGo(l) - 1))
    && (ToGo(l) == 0 ==> ToGo(next) == 0)
    && (ToGo(next) == 0 <==> next.job.status.Succeeded?)
  }

  lemma BeginNearer(l: Local, k: int)
    requires OnTrack(l, k) && l.effect.None? && (l.pc.Begin?)
    requires var next := ExecuteBegin(l, Good); LocalOk(next, if next.effect.Some? then k + 1 else k)
    ensures Nearer(l, k, ExecuteBegin(l, Good))
  {
    hide RowOk;
  }

  lemma PreparingNearer(l: Local, k: int)
    requires OnTrack(l, k) && l.effect.None? && (l.pc.Preparing?)
    requires var next := ExecutePreparing(l, Good); LocalOk(next, if next.effect.Some? then k + 1 else k)
    ensures Nearer(l, k, ExecutePreparing(l, Good))
  {
    hide RowOk;
  }

  lemma BackupNearer(l: Local, k: int)
    requires OnTrack(l, k) && l.effect.None? && (l.pc.Copying? || l.pc.Closing? || l.pc.Publishing? || l.pc.Validating? || l.pc.Registering?)
    requires var next := ExecuteBackup(l, Good); LocalOk(next, if next.effect.Some? then k + 1 else k)
    ensures Nearer(l, k, ExecuteBackup(l, Good))
  {
    hide RowOk;
  }

  lemma CountdownNearer(l: Local, k: int)
    requires OnTrack(l, k) && l.effect.None? && (l.pc.Contact? || l.pc.Counting? || l.pc.Marking? || l.pc.Announcing?)
    requires var next := ExecuteCountdown(l, Good); LocalOk(next, if next.effect.Some? then k + 1 else k)
    ensures Nearer(l, k, ExecuteCountdown(l, Good))
  {
    hide RowOk;
  }

  lemma BeforeStopNearer(l: Local, k: int)
    requires OnTrack(l, k) && l.effect.None? && (l.pc.BeforeStop? || l.pc.StopCall?)
    requires var next := ExecuteStop(l, Good); LocalOk(next, if next.effect.Some? then k + 1 else k)
    ensures Nearer(l, k, ExecuteStop(l, Good))
  {
    hide RowOk;
  }

  lemma StopWaitNearer(l: Local, k: int)
    requires OnTrack(l, k) && l.effect.None? && (l.pc.StopWait?)
    requires var next := ExecuteStop(l, Good); LocalOk(next, if next.effect.Some? then k + 1 else k)
    ensures Nearer(l, k, ExecuteStop(l, Good))
  {
    hide RowOk;
  }

  lemma ApplyNearer(l: Local, k: int)
    requires OnTrack(l, k) && l.effect.None? && (l.pc.BeforeApply? || l.pc.ApplyCall? || l.pc.ApplyWait?)
    requires var next := ExecuteApply(l, Good); LocalOk(next, if next.effect.Some? then k + 1 else k)
    ensures Nearer(l, k, ExecuteApply(l, Good))
  {
    hide RowOk;
  }

  lemma StartNearer(l: Local, k: int)
    requires OnTrack(l, k) && l.effect.None? && (l.pc.BeforeStart? || l.pc.StartCall?)
    requires var next := ExecuteStart(l, Good); LocalOk(next, if next.effect.Some? then k + 1 else k)
    ensures Nearer(l, k, ExecuteStart(l, Good))
  {
    hide RowOk;
  }

  lemma StartWaitNearer(l: Local, k: int)
    requires OnTrack(l, k) && l.effect.None? && (l.pc.StartWait?)
    requires var next := ExecuteStart(l, Good); LocalOk(next, if next.effect.Some? then k + 1 else k)
    ensures Nearer(l, k, ExecuteStart(l, Good))
  {
    hide RowOk;
  }

  lemma VerifyNearer(l: Local, k: int)
    requires OnTrack(l, k) && l.effect.None? && (l.pc.BeforeVerify? || l.pc.Verifying?)
    requires var next := ExecuteStart(l, Good); LocalOk(next, if next.effect.Some? then k + 1 else k)
    ensures Nearer(l, k, ExecuteStart(l, Good))
  {
    hide RowOk;
  }

  lemma OtherNearer(l: Local, k: int)
    requires OnTrack(l, k) && l.effect.None? && (l.pc.RestartCall? || l.pc.RestartWait? || l.pc.SignalCall? || l.pc.SignalWait? || l.pc.Opaque?)
    requires var next := ExecuteOther(l, Good); LocalOk(next, if next.effect.Some? then k + 1 else k)
    ensures Nearer(l, k, ExecuteOther(l, Good))
  {
    hide RowOk;
  }

  lemma EndNearer(l: Local, k: int)
    requires OnTrack(l, k) && l.effect.None? && (l.pc.Finish? || l.pc.Wrapup?)
    requires var next := ExecuteEnd(l, Good); LocalOk(next, if next.effect.Some? then k + 1 else k)
    ensures Nearer(l, k, ExecuteEnd(l, Good))
  {
    hide RowOk;
  }

  /** A step that goes well. */
  lemma GoodStep(l: Local, k: int)
    requires OnTrack(l, k) && !l.pc.Releasing?
    ensures Nearer(l, k, Execute(l, Good))
  {
    hide LocalOk, ToGo, Nearer, ExecuteBegin, ExecutePreparing, ExecuteBackup, ExecuteCountdown;
    hide ExecuteStop, ExecuteApply, ExecuteStart, ExecuteOther, ExecuteEnd, Evolves, EffectAt;
    var plain := l.(effect := None);
    PlainLocal(l, k, plain);
    ExecuteKeeps(l, k, Good);
    PlainNearer(l, k, plain, Execute(l, Good));
    match l.pc
    case Begin => BeginNearer(plain, k);
    case Preparing(_) => PreparingNearer(plain, k);
    case Copying(_) => BackupNearer(plain, k);
    case Closing => BackupNearer(plain, k);
    case Publishing => BackupNearer(plain, k);
    case Validating => BackupNearer(plain, k);
    case Registering => BackupNearer(plain, k);
    case Contact => CountdownNearer(plain, k);
    case Counting(_) => CountdownNearer(plain, k);
    case Marking => CountdownNearer(plain, k);
    case Announcing => CountdownNearer(plain, k);
    case BeforeStop => BeforeStopNearer(plain, k);
    case StopCall => BeforeStopNearer(plain, k);
    case StopWait => StopWaitNearer(plain, k);
    case BeforeApply => ApplyNearer(plain, k);
    case ApplyCall => ApplyNearer(plain, k);
    case ApplyWait => ApplyNearer(plain, k);
    case BeforeStart => StartNearer(plain, k);
    case StartCall => StartNearer(plain, k);
    case StartWait => StartWaitNearer(plain, k);
    case BeforeVerify => VerifyNearer(plain, k);
    case Verifying => VerifyNearer(plain, k);
    case Finish(_, _) => EndNearer(plain, k);
    case Wrapup => EndNearer(plain, k);
    case RestartCall => OtherNearer(plain, k);
    case RestartWait => OtherNearer(plain, k);
    case SignalCall => OtherNearer(plain, k);
    case SignalWait => OtherNearer(plain, k);
    case Opaque => OtherNearer(plain, k);
  }

  lemma PlainNearer(l: Local, k: int, plain: Local, next: Local)
    requires plain == l.(effect := None)
    ensures Nearer(plain, k, next) ==> Nearer(l, k, next)
  {
    hide OnTrack, Remaining;
  }

  // ---- Runs in which all goes well ----

  /** The worker has job `i` in its hands. */
  predicate InHand(s: State, i: nat) {
    s.live && s.task.Some? && s.task.value.id == i < |s.db.jobs| && i < |s.done|
  }

  function LocalOf(s: State, i: nat): Local
    requires InHand(s, i)
  {
    Local(s.db.jobs[i], s.task.value.pc, s.task.value.critical, None)
  }

  /** Job `i` is on its way to success with this many steps to go. */
  predicate Going(s: State, i: nat, left: nat) {
    && InHand(s, i) && OnTrack(LocalOf(s, i), Progress(s.db.jobs[i], s.done[i]))
    && ToGo(LocalOf(s, i)) == left && left > 0
  }

  /** Job `i` has its success in the table, after everything its kind does. */
  predicate Arrived(s: State, i: nat) {
    && i < |s.db.jobs| && i < |s.done| && s.db.jobs[i].status.Succeeded? && s.done[i] == Script(s.db.jobs[i].kind)
    && (s.task.Some? && s.task.value.id == i ==>
          s.task.value.pc.Releasing? || (s.task.value.pc.Wrapup? && !s.db.jobs[i].cancelRequested))
  }

  /** Nothing that goes wrong: no crash, no failing call, no cancel request for this job. */
  predicate Smooth(event: Event, i: nat) {
    !event.Crash? && event != CancelRequest(i) && (event.Step? ==> event.choice.Good?)
  }

  function Steps(events: seq<Event>): nat {
    if events == [] then 0 else Steps(events[..|events| - 1]) + if events[|events| - 1].Step? then 1 else 0
  }

  /** Job `i` has arrived, or has at most this many steps to go. */
  ghost predicate Near(s: State, i: nat, most: nat) {
    Arrived(s, i) || exists n: nat :: Going(s, i, n) && n <= most
  }

  lemma StepArrives(s: State, i: nat, left: nat)
    requires Inv(s) && Going(s, i, left)
    ensures var t := Next(s, Step(Good));
            && (Arrived(t, i) || exists n: nat :: Going(t, i, n) && n < left)
            && (!s.db.jobs[i].nowRequested ==> if left == 1 then Arrived(t, i) else Going(t, i, left - 1))
            && i < |t.db.jobs| && t.db.jobs[i].nowRequested == s.db.jobs[i].nowRequested
  {
    hide Execute, RowOk, Remaining, Evolves, DistinctKeys, Escalates, RunningOk, AtPc, Script, EffectAt;
    var l := LocalOf(s, i);
    var k := Progress(l.job, s.done[i]);
    NotLeaving(l, k);
    GoodStep(l, k);
    var next := Execute(l, Good);
    RowsLength(s);
    SoundRow(l.job, s.done[i]);
    ExecuteKeeps(l, k, Good);
    SoundStep(l.job, s.done[i], next.job, next.effect);
    var t := Next(s, Step(Good));
    assert t.db.jobs[i] == next.job;
    if ToGo(next) == 0 {
      ArrivedFacts(next, Progress(next.job, t.done[i]));
      WholeScript(next.job, t.done[i]);
    } else {
      PlainTrack(next, LocalOf(t, i), Progress(next.job, t.done[i]));
      assert Going(t, i, ToGo(next));
    }
  }

  lemma PlainTrack(l: Local, plain: Local, k: int)
    requires plain == l.(effect := None)
    ensures OnTrack(plain, k) == OnTrack(l, k) && ToGo(plain) == ToGo(l)
  {
    hide RowOk, AtPc, Remaining;
  }

  lemma NotLeaving(l: Local, k: int)
    requires OnTrack(l, k) && ToGo(l) > 0
    ensures !l.pc.Releasing? && !l.pc.Wrapup? && l.job.status.Running?
  {
    hide RowOk, Needed, AfterBackup, AfterStop;
  }

  lemma WholeScript(job: Job, done: seq<Effect>)
    requires Sound(job, done) && !job.cancelRequested && Progress(job, done) == Length(job.kind)
    ensures done == Script(job.kind)
  {
    hide RowOk, Script;
    assert Script(job.kind)[..|Script(job.kind)|] == Script(job.kind);
  }

  lemma ArrivedFacts(l: Local, k: int)
    requires OnTrack(l, k) && ToGo(l) == 0
    ensures l.job.status.Succeeded? && k == Length(l.job.kind) && (l.pc.Releasing? || l.pc.Wrapup?)
  {
    hide RowOk;
  }

  /** Nothing smooth takes a recorded success back. */
  lemma ArrivedStays(s: State, event: Event, i: nat)
    requires Inv(s) && Arrived(s, i) && Smooth(event, i)
    ensures Arrived(Next(s, event), i)
  {
    hide Sound, DistinctKeys, Escalates, RunningOk, RowOk, Claim, Admits, AtPc, CancelJob, NowJob, Recover, Script;
    FinishedRow(s, event, i);
    match event
    case Take => ArrivedNotTaken(s, i);
    case Step(choice) =>
      if s.live && s.task.Some? && s.task.value.id == i && s.task.value.pc.Wrapup? {
        var l := Local(s.db.jobs[i], s.task.value.pc, s.task.value.critical, None);
        assert Execute(l, Good) == l.(pc := Releasing(false));
        assert s.done[i] + [] == s.done[i];
      }
    case Restarted =>
    case Request(_, _, _, _, _) =>
    case CancelRequest(id) =>
    case NowRequest(id) =>
  }

  lemma ArrivedNotTaken(s: State, i: nat)
    requires Arrived(s, i)
    ensures Arrived(Taken(s), i)
  {
    hide Claim, Script;
    TakeKeepsFinished(s, i);
    if s.live && s.task.None? {
      ClaimTakesLeast(s.db, ALL_KINDS);
    }
  }

  /** An event that is not a step leaves a job that is on its way where it is. */
  lemma GoingStays(s: State, event: Event, i: nat, left: nat)
    requires Inv(s) && Going(s, i, left) && Smooth(event, i) && !event.Step?
    ensures Going(Next(s, event), i, left)
    ensures event != NowRequest(i) ==> Next(s, event).db.jobs[i].nowRequested == s.db.jobs[i].nowRequested
  {
    hide DistinctKeys, Escalates, RunningOk, RowOk, Claim, Admits, AtPc, CancelJob, Remaining, Script;
    if event == NowRequest(i) {
      NowStays(s, i, left);
    }
  }

  lemma NowStays(s: State, i: nat, left: nat)
    requires Inv(s) && Going(s, i, left)
    ensures Going(Next(s, NowRequest(i)), i, left)
  {
    hide DistinctKeys, Escalates, RunningOk, RowOk, AtPc, NowJob, Remaining, Script, Evolves;
    var job, k := s.db.jobs[i], Progress(s.db.jobs[i], s.done[i]);
    NowKeeps(job, k);
    NowKeepsPc(job, k, s.task.value.pc, s.task.value.critical);
    NowChanges(job);
  }

  lemma NowChanges(job: Job)
    ensures var next := NowJob(job).0;
            && next.kind == job.kind && next.minutes == job.minutes && next.status == job.status
            && next.cancelRequested == job.cancelRequested
  {
  }

  lemma BeginsOnTrack(s: State, i: nat)
    requires Inv(s) && InHand(s, i) && s.task == Some(Task(i, Begin, false)) && !s.db.jobs[i].cancelRequested
    ensures Going(s, i, Needed(s.db.jobs[i].kind, s.db.jobs[i].minutes))
  {
    hide DistinctKeys, Escalates, RunningOk, RowOk, Script;
    SoundRow(s.db.jobs[i], s.done[i]);
  }

  lemma NearNext(s: State, event: Event, i: nat, most: nat)
    requires Inv(s) && Near(s, i, most) && Smooth(event, i)
    ensures Near(Next(s, event), i, if event.Step? && most > 0 then most - 1 else most)
    ensures event.Step? && most <= 1 ==> Arrived(Next(s, event), i)
  {
    hide Inv, Next, Arrived, Going;
    if Arrived(s, i) {
      ArrivedStays(s, event, i);
    } else {
      var n: nat :| Going(s, i, n) && n <= most;
      if event.Step? {
        GoingIsPositive(s, i, n);
        StepArrives(s, i, n);
        forall m: nat | Going(Next(s, event), i, m)
          ensures m > 0
        {
          GoingIsPositive(Next(s, event), i, m);
        }
      } else {
        GoingStays(s, event, i, n);
      }
    }
  }

  lemma GoingIsPositive(s: State, i: nat, n: nat)
    requires Going(s, i, n)
    ensures n > 0 && InHand(s, i)
    ensures forall m: nat :: Going(s, i, m) ==> m == n
  {
    hide OnTrack, ToGo;
  }

  lemma {:induction false} RunsNear(events: seq<Event>, more: seq<Event>, i: nat, needed: nat)
    requires needed > 0 && Near(Run(events), i, needed) && forall e :: e in more ==> Smooth(e, i)
    ensures if Steps(more) < needed then Near(Run(events + more), i, needed - Steps(more))
            else Steps(more) > 0 ==> Arrived(Run(events + more), i)
  {
    hide Run, Near, Arrived, Next, Inv, Smooth;
    if more == [] {
      assert events + more == events;
    } else {
      var n := |more| - 1;
      assert forall e :: e in more[..n] ==> e in more;
      RunsNear(events, more[..n], i, needed);
      RunSnoc(events + more[..n], more[n]);
      assert events + more == events + more[..n] + [more[n]];
      AlwaysInv(events + more[..n]);
      var before := Steps(more[..n]);
      if before < needed {
        NearNext(Run(events + more[..n]), more[n], i, needed - before);
      } else if before > 0 {
        ArrivedStays(Run(events + more[..n]), more[n], i);
      }
    }
  }

  /** Without being told to go ahead at once, the job is exactly as many steps nearer as were taken. */
  lemma {:induction false} RunsExactly(events: seq<Event>, more: seq<Event>, i: nat, needed: nat)
    requires Going(Run(events), i, needed) && !Run(events).db.jobs[i].nowRequested
    requires forall e :: e in more ==> Smooth(e, i) && e != NowRequest(i)
    requires Steps(more) < needed
    ensures Going(Run(events + more), i, needed - Steps(more)) && !Run(events + more).db.jobs[i].nowRequested
  {
    hide Run, Next, Inv, Smooth, OnTrack, ToGo;
    if more == [] {
      assert events + more == events;
    } else {
      var n := |more| - 1;
      assert forall e :: e in more[..n] ==> e in more;
      assert Steps(more[..n]) <= Steps(more);
      RunsExactly(events, more[..n], i, needed);
      RunSnoc(events + more[..n], more[n]);
      assert events + more == events + more[..n] + [more[n]];
      AlwaysInv(events + more[..n]);
      assert more[n] in more && Smooth(more[n], i);
      ExactNext(Run(events + more[..n]), more[n], i, needed - Steps(more[..n]));
    }
  }

  lemma ExactNext(s: State, event: Event, i: nat, left: nat)
    requires Inv(s) && Going(s, i, left) && !s.db.jobs[i].nowRequested && Smooth(event, i) && event != NowRequest(i)
    requires event.Step? ==> left > 1
    ensures var t := Next(s, event);
            Going(t, i, if event.Step? then left - 1 else left) && !t.db.jobs[i].nowRequested
  {
    hide Inv, Next, OnTrack, ToGo;
    if event.Step? {
      StepArrives(s, i, left);
    } else {
      GoingStays(s, event, i, left);
    }
  }

  /** The main result. A job that the worker has just claimed, with no cancel request, succeeds, having
      done everything its kind does, once the worker has taken as many steps as the kind needs, if none
      of them goes wrong and nobody cancels it; and unless it is told to go ahead at once, it takes
      exactly that many. Requests, other cancel requests and claims may come at any time. */
  lemma GoodRunSucceeds(events: seq<Event>, more: seq<Event>, i: nat)
    requires HasJob(events, i) && Run(events).live && Run(events).task == Some(Task(i, Begin, false))
    requires !Row(events, i).cancelRequested && !Row(events, i).nowRequested
    requires forall e :: e in more ==> Smooth(e, i)
    ensures HasJob(events + more, i)
    ensures var needed := Needed(Row(events, i).kind, Row(events, i).minutes);
            && (Steps(more) >= needed ==>
                  Row(events + more, i).status.Succeeded? && Done(events + more, i) == Script(Row(events, i).kind))
            && (Steps(more) < needed && NowRequest(i) !in more ==> Row(events + more, i).status.Running?)
  {
    hide Run, Inv, Smooth, OnTrack, ToGo, Script, Needed;
    AlwaysInv(events);
    var needed := Needed(Row(events, i).kind, Row(events, i).minutes);
    BeginsOnTrack(Run(events), i);
    GoingIsPositive(Run(events), i, needed);
    SettledForGood(events, more);
    RunsNear(events, more, i, needed);
    if Steps(more) < needed && NowRequest(i) !in more {
      RunsExactly(events, more, i, needed);
      StillRunning(Run(events + more), i, needed - Steps(more));
    }
  }

  lemma StillRunning(s: State, i: nat, left: nat)
    requires Going(s, i, left)
    ensures s.db.jobs[i].status.Running?
  {
    hide OnTrack, ToGo;
    NotLeaving(LocalOf(s, i), Progress(s.db.jobs[i], s.done[i]));
  }

  // ---- The countdown ----

  lemma CountdownPlace(l: Local, k: int, n: nat)
    requires OnTrack(l, k) && (l.job.kind.Assisted? || l.job.kind.Update?)
    requires n <= 60 * l.job.minutes + 1 && ToGo(l) == 1 + 60 * l.job.minutes + 3 + AfterStop(l.job.kind) - n
    ensures n == 0 ==> l.pc.Contact?  || l.pc.Counting?
    ensures 1 <= n <= 60 * l.job.minutes ==> l.pc.Counting?
    ensures n == 60 * l.job.minutes + 1 ==> l.pc.Marking?
  {
    hide RowOk;
  }

  /** A countdown that nobody cancels or cuts short lasts as many ticks as it has seconds: from the first
      contact on, the worker stands at a tick after each of the next `60 * minutes` steps, and at the
      point of no return after the one that follows. */
  lemma CountdownIsExact(events: seq<Event>, more: seq<Event>, i: nat)
    requires InHand(Run(events), i) && Run(events).task.value.pc.Contact?
    requires var job := Run(events).db.jobs[i]; !job.cancelRequested && !job.nowRequested
    requires forall e :: e in more ==> Smooth(e, i) && e != NowRequest(i)
    ensures var minutes := Run(events).db.jobs[i].minutes;
            Steps(more) <= 60 * minutes + 1 ==>
              && InHand(Run(events + more), i)
              && (1 <= Steps(more) <= 60 * minutes ==> Run(events + more).task.value.pc.Counting?)
              && (Steps(more) == 60 * minutes + 1 ==> Run(events + more).task.value.pc.Marking?)
  {
    hide Run, Inv, Smooth, OnTrack, LocalOk;
    var s, t := Run(events), Run(events + more);
    var job := s.db.jobs[i];
    AlwaysInv(events);
    ContactOnTrack(s, i);
    var left := 1 + 60 * job.minutes + 3 + AfterStop(job.kind);
    if Steps(more) <= 60 * job.minutes + 1 {
      RunsExactly(events, more, i, left);
      SettledForGood(events, more);
      RowsSettled(events, more, i);
      CountdownPlace(LocalOf(t, i), Progress(t.db.jobs[i], t.done[i]), Steps(more));
    }
  }

  lemma ContactOnTrack(s: State, i: nat)
    requires Inv(s) && InHand(s, i) && s.task.value.pc.Contact? && !s.db.jobs[i].cancelRequested
    ensures var job := s.db.jobs[i];
            && (job.kind.Assisted? || job.kind.Update?)
            && Going(s, i, 1 + 60 * job.minutes + 3 + AfterStop(job.kind))
  {
    hide DistinctKeys, Escalates, RunningOk, RowOk, Script;
    SoundRow(s.db.jobs[i], s.done[i]);
  }

  /** A kind and a countdown never change. */
  lemma {:induction false} RowsSettled(events: seq<Event>, more: seq<Event>, i: nat)
    requires HasJob(events, i)
    ensures HasJob(events + more, i) && Row(events + more, i).kind == Row(events, i).kind
    ensures Row(events + more, i).minutes == Row(events, i).minutes
  {
    hide Run, Inv, Next;
    if more == [] {
      assert events + more == events;
    } else {
      var n := |more| - 1;
      RowsSettled(events, more[..n], i);
      RunSnoc(events + more[..n], more[n]);
      assert events + more == events + more[..n] + [more[n]];
      AlwaysInv(events + more[..n]);
      RowFixed(Run(events + more[..n]), more[n], i);
    }
  }

  lemma RowFixed(s: State, event: Event, i: nat)
    requires Inv(s) && i < |s.db.jobs| && i < |s.done|
    ensures var t := Next(s, event);
            && i < |t.db.jobs| && i < |t.done| && t.db.jobs[i].kind == s.db.jobs[i].kind
            && t.db.jobs[i].minutes == s.db.jobs[i].minutes
  {
    hide Inv, Stepped, Taken, Requested, CancelAsked, NowAsked, Recover;
    match event
    case Step(choice) => StepFixed(s, choice, i);
    case Take => TakeFixed(s, i);
    case Restarted =>
      RecoverFixed(s.db, i);
    case Request(kind, minutes, source, record, createdAt) =>
      RequestFixed(s, NewJob(kind, minutes, source, record, createdAt), i);
    case CancelRequest(id) => AskedFixed(s, id, i);
    case NowRequest(id) => AskedFixed(s, id, i);
    case Crash =>
  }

  lemma RecoverFixed(db: Db, i: nat)
    requires i < |db.jobs|
    ensures var jobs := Recover(db).jobs;
            i < |jobs| && jobs[i].kind == db.jobs[i].kind && jobs[i].minutes == db.jobs[i].minutes
  {
  }

  lemma RequestFixed(s: State, job: Job, i: nat)
    requires i < |s.db.jobs| && i < |s.done|
    ensures var t := Requested(s, job);
            i < |t.db.jobs| && i < |t.done| && t.db.jobs[i] == s.db.jobs[i]
  {
    hide Admits;
  }

  lemma AskedFixed(s: State, id: nat, i: nat)
    requires i < |s.db.jobs| && i < |s.done|
    ensures var t := CancelAsked(s, id);
            i < |t.db.jobs| && i < |t.done| && t.db.jobs[i].kind == s.db.jobs[i].kind && t.db.jobs[i].minutes == s.db.jobs[i].minutes
    ensures var t := NowAsked(s, id);
            i < |t.db.jobs| && i < |t.done| && t.db.jobs[i].kind == s.db.jobs[i].kind && t.db.jobs[i].minutes == s.db.jobs[i].minutes
  {
  }

  lemma StepFixed(s: State, choice: Choice, i: nat)
    requires Inv(s) && i < |s.db.jobs| && i < |s.done|
    ensures var t := Stepped(s, choice);
            && i < |t.db.jobs| && i < |t.done| && t.db.jobs[i].kind == s.db.jobs[i].kind
            && t.db.jobs[i].minutes == s.db.jobs[i].minutes
  {
    hide DistinctKeys, Escalates, RunningOk, RowOk, AtPc, Script, Execute;
    if s.live && s.task.Some? && !s.task.value.pc.Releasing? {
      var task := s.task.value;
      var l := Local(s.db.jobs[task.id], task.pc, task.critical, None);
      SoundRow(l.job, s.done[task.id]);
      FixedStep(l, Progress(l.job, s.done[task.id]), choice);
    }
  }

  lemma TakeFixed(s: State, i: nat)
    requires i < |s.db.jobs|
    ensures var jobs := Taken(s).db.jobs;
            i < |jobs| && jobs[i].kind == s.db.jobs[i].kind && jobs[i].minutes == s.db.jobs[i].minutes && Taken(s).done == s.done
  {
    hide Claim;
    if s.live && s.task.None? {
      ClaimTakesLeast(s.db, ALL_KINDS);
      var (db, id) := Claim(s.db, ALL_KINDS);
      assert id.None? ==> db.jobs == s.db.jobs;
    }
  }

  lemma FixedStep(l: Local, k: int, choice: Choice)
    requires RowOk(l.job, k) && AtPc(l.job, k, l.pc, l.critical) && !l.pc.Releasing?
    ensures Execute(l, choice).job.kind == l.job.kind && Execute(l, choice).job.minutes == l.job.minutes
  {
    hide RowOk, AtPc, Execute;
    ExecuteKeeps(l, k, choice);
  }

  /** Told to go ahead at once, an assisted shutdown leaves its countdown at the next tick. */
  lemma GoesAhead(l: Local, choice: Choice)
    requires Skips(l) && !l.job.cancelRequested && !choice.Raise?
    ensures Execute(l, choice) == l.(pc := Marking, effect := None)
  {
  }

  // ---- Runs after an accepted cancel request ----

  /** A cancel request was accepted, and the executor will come to see it. */
  predicate GivingUp(l: Local, k: int) {
    && LocalOk(l, k) && l.job.cancelRequested && !l.pc.Wrapup? && !l.pc.LastTry? && !l.pc.Releasing?
    && (l.pc.Finish? ==> l.pc.status.Cancelled? && l.job.status.Running?)
  }

  /** At most how many more steps it takes to record the cancellation. */
  function GivingLeft(pc: Pc): nat {
    match pc
    case Begin => 4
    case Contact => 3
    case Preparing(left) => if left == 0 then 3 else 2
    case Finish(_, _) => 1
    case _ => 2
  }

  predicate GivesUp(l: Local, k: int, next: Local) {
    && next.effect.None? && next.job.cancelRequested
    && (if l.pc.Finish? then next.job.status.Cancelled? && next.pc == Releasing(false)
        else GivingUp(next, k) && GivingLeft(next.pc) < GivingLeft(l.pc))
  }

  lemma EarlyGivesUp(l: Local, k: int)
    requires GivingUp(l, k) && l.effect.None?
    ensures l.pc.Begin? ==> LocalOk(ExecuteBegin(l, Good), k) ==> GivesUp(l, k, ExecuteBegin(l, Good))
    ensures l.pc.Preparing? ==> LocalOk(ExecutePreparing(l, Good), k) ==> GivesUp(l, k, ExecutePreparing(l, Good))
    ensures l.pc.Copying? || l.pc.Closing? ==> LocalOk(ExecuteBackup(l, Good), k) ==> GivesUp(l, k, ExecuteBackup(l, Good))
  {
  }

  lemma LaterGivesUp(l: Local, k: int)
    requires GivingUp(l, k) && l.effect.None?
    ensures l.pc.Contact? || l.pc.Counting? || l.pc.Marking? ==>
              LocalOk(ExecuteCountdown(l, Good), k) ==> GivesUp(l, k, ExecuteCountdown(l, Good))
    ensures l.pc.Finish? ==> GivesUp(l, k, ExecuteEnd(l, Good))
  {
  }

  lemma GivingStep(l: Local, k: int)
    requires GivingUp(l, k)
    ensures GivesUp(l, k, Execute(l, Good))
  {
    hide RowOk, AtPc, GivesUp, GivingUp, Evolves, EffectAt, ExecuteBegin, ExecutePreparing, ExecuteBackup, ExecuteCountdown;
    hide ExecuteStop, ExecuteApply, ExecuteStart, ExecuteOther, ExecuteEnd;
    var plain := l.(effect := None);
    GivingPlain(l, k, plain);
    GivingIsEarly(plain, k);
    GivesPlain(l, k, plain, Execute(l, Good));
    ExecuteKeeps(l, k, Good);
    EarlyGivesUp(plain, k);
    LaterGivesUp(plain, k);
  }

  lemma GivingPlain(l: Local, k: int, plain: Local)
    requires plain == l.(effect := None)
    ensures GivingUp(plain, k) == GivingUp(l, k) && (GivingUp(l, k) ==> LocalOk(l, k) && !l.pc.Releasing? && l.job.cancelRequested)
  {
    hide RowOk, AtPc;
  }

  lemma GivesPlain(l: Local, k: int, plain: Local, next: Local)
    requires plain == l.(effect := None)
    ensures GivesUp(plain, k, next) == GivesUp(l, k, next)
  {
    hide GivingUp;
  }

  lemma GivingIsEarly(l: Local, k: int)
    requires GivingUp(l, k)
    ensures l.pc.Begin? || l.pc.Preparing? || l.pc.Copying? || l.pc.Closing? || l.pc.Contact? || l.pc.Counting?
            || l.pc.Marking? || l.pc.Finish?
  {
  }

  /** Job `i` is cancelled, or the worker is about to see that it must be. */
  predicate Cancelling(s: State, i: nat, left: nat) {
    && InHand(s, i) && GivingUp(LocalOf(s, i), Progress(s.db.jobs[i], s.done[i])) && GivingLeft(s.task.value.pc) <= left
  }

  predicate IsCancelled(s: State, i: nat) {
    i < |s.db.jobs| && s.db.jobs[i].status.Cancelled?
  }

  predicate Undisturbed(event: Event) {
    !event.Crash? && (event.Step? ==> event.choice.Good?)
  }

  lemma CancellingNext(s: State, event: Event, i: nat, left: nat)
    requires Inv(s) && Cancelling(s, i, left) && Undisturbed(event)
    ensures if event.Step? then IsCancelled(Next(s, event), i) || (left > 1 && Cancelling(Next(s, event), i, left - 1))
            else Cancelling(Next(s, event), i, left)
  {
    hide DistinctKeys, Escalates, RunningOk, RowOk, Claim, Admits, AtPc, CancelJob, NowJob, Script, Execute;
    var job, done := s.db.jobs[i], s.done[i];
    if event.Step? {
      var l := LocalOf(s, i);
      var k := Progress(job, done);
      GivingPlain(l, k, l);
      GivingStep(l, k);
      var t := Next(s, event);
      assert done + [] == done;
      assert t.db.jobs[i] == Execute(l, Good).job;
      if !l.pc.Finish? {
        GivingPlain(Execute(l, Good), k, LocalOf(t, i));
      }
    } else if event == CancelRequest(i) || event == NowRequest(i) {
      RefusedAgain(job);
      assert done + [] == done;
      assert s.db.jobs[i := job] == s.db.jobs && s.done[i := done] == s.done;
    }
  }

  lemma RefusedAgain(job: Job)
    requires job.cancelRequested
    ensures CancelJob(job) == (job, false) && NowJob(job) == (job, false)
  {
  }

  /** The other end. A job in execution whose cancel request was accepted ends as cancelled within four
      steps, if none of them goes wrong; what it may have done before is said by `CancelHonoured`. */
  lemma {:induction false} CancelledRunEnds(events: seq<Event>, more: seq<Event>, i: nat)
    requires InHand(Run(events), i) && Row(events, i).cancelRequested && Between(Run(events).task.value.pc)
    requires forall e :: e in more ==> Undisturbed(e)
    ensures HasJob(events + more, i)
    ensures Steps(more) >= 4 ==> Row(events + more, i).status.Cancelled?
    ensures IsCancelled(Run(events + more), i) || (Steps(more) < 4 && Cancelling(Run(events + more), i, 4 - Steps(more)))
  {
    hide Run, Next, Inv, Undisturbed, Cancelling;
    SettledForGood(events, more);
    if more == [] {
      assert events + more == events;
      AlwaysInv(events);
      BeginsCancelling(Run(events), i);
    } else {
      var n := |more| - 1;
      assert forall e :: e in more[..n] ==> e in more;
      CancelledRunEnds(events, more[..n], i);
      RunSnoc(events + more[..n], more[n]);
      assert events + more == events + more[..n] + [more[n]];
      AlwaysInv(events + more[..n]);
      assert more[n] in more && Undisturbed(more[n]);
      if IsCancelled(Run(events + more[..n]), i) {
        SettledForGood(events + more[..n], [more[n]]);
      } else {
        CancellingNext(Run(events + more[..n]), more[n], i, 4 - Steps(more[..n]));
      }
    }
  }

  lemma BeginsCancelling(s: State, i: nat)
    requires Inv(s) && InHand(s, i) && s.db.jobs[i].cancelRequested && Between(s.task.value.pc)
    ensures Cancelling(s, i, 4)
  {
    hide DistinctKeys, Escalates, RunningOk, RowOk, Script, AtPc;
    SoundRow(s.db.jobs[i], s.done[i]);
  }

  // ---- What a recorded failure means ----

  predicate Fails(pc: Pc, failure: Failure) {
    pc.Finish? && pc.failure == failure
  }

  /** The kinds whose executor turns any exception into a failure of its own; the others leave it to the
      worker's last handler. */
  predicate HandlesItself(kind: Kind) {
    kind in {Backup, Restore, Update, UpdateCheck, DriveCheck, DriveTransfer}
  }

  /** The places of a shutdown or lifecycle job where something outside the database is asked. */
  predicate Calls(pc: Pc) {
    || pc.Begin? || pc.Contact? || pc.Counting? || pc.Marking? || pc.Announcing?
    || pc.StopWait? || pc.StartWait? || pc.RestartWait? || pc.SignalWait? || pc.Opaque?
  }

  /** Where a step before the last writes may lead: no failure without a call that did not go well, and
      each reason only from its own place. */
  predicate Caused(l: Local, choice: Choice, next: Local) {
    && (next.pc.LastTry? || next.pc.Releasing? || (next.pc.Finish? && next.pc.status.Failed?) ==> !choice.Good?)
    && (Fails(next.pc, StopFailed) <==> l.pc.StopWait? && l.job.kind.Assisted? && (choice.Bad? || choice.Other?))
    && (Fails(next.pc, SignalFailed) <==> l.pc.SignalWait? && (choice.Bad? || choice.Other?))
    && (Fails(next.pc, CommunicationFailed) <==> (l.pc.Contact? || l.pc.Announcing?) && choice.Bad?)
    && (next.pc.LastTry? ==> !HandlesItself(l.job.kind) || (l.pc.Begin? && l.job.kind.UpdateCheck?))
    && (Calls(l.pc) && choice.Raise? && !HandlesItself(l.job.kind) ==> next.pc.LastTry?)
    && (next.pc.Finish? ==> next.pc.failure != Unexpected && (next.pc.failure != NoFailure ==> next.pc.status.Failed?))
    && next.job.failure == l.job.failure
  }

  lemma EarlyCaused(l: Local, choice: Choice)
    ensures l.pc.Begin? ==> Caused(l, choice, ExecuteBegin(l, choice))
    ensures l.pc.Preparing? ==> Caused(l, choice, ExecutePreparing(l, choice))
  {
  }

  lemma BackupCaused(l: Local, choice: Choice)
    ensures l.pc.Copying? || l.pc.Closing? || l.pc.Publishing? || l.pc.Validating? || l.pc.Registering? ==>
              Caused(l, choice, ExecuteBackup(l, choice))
  {
  }

  lemma CountdownCaused(l: Local, choice: Choice)
    ensures l.pc.Contact? || l.pc.Counting? || l.pc.Marking? || l.pc.Announcing? ==> Caused(l, choice, ExecuteCountdown(l, choice))
  {
  }

  lemma StopCaused(l: Local, choice: Choice)
    ensures l.pc.BeforeStop? || l.pc.StopCall? || l.pc.StopWait? ==> Caused(l, choice, ExecuteStop(l, choice))
  {
  }

  lemma ApplyCaused(l: Local, choice: Choice)
    ensures l.pc.BeforeApply? || l.pc.ApplyCall? || l.pc.ApplyWait? ==> Caused(l, choice, ExecuteApply(l, choice))
  {
  }

  lemma StartCaused(l: Local, choice: Choice)
    ensures l.pc.BeforeStart? || l.pc.StartCall? || l.pc.StartWait? || l.pc.BeforeVerify? || l.pc.Verifying? ==>
              Caused(l, choice, ExecuteStart(l, choice))
  {
  }

  lemma OtherCaused(l: Local, choice: Choice)
    ensures l.pc.RestartCall? || l.pc.RestartWait? || l.pc.SignalCall? || l.pc.SignalWait? || l.pc.Opaque? ==>
              Caused(l, choice, ExecuteOther(l, choice))
  {
  }

  /** The log is written after the success of an update and of a check, and of nothing else. */
  lemma LogFollowsSuccess(l: Local, k: int)
    requires OnTrack(l, k) && l.pc.Finish?
    ensures Execute(l, Good).pc.Wrapup? <==> l.job.kind.Update? || l.job.kind.UpdateCheck?
    ensures Execute(l, Good).job.status.Succeeded?
  {
    hide RowOk;
  }

  /** A failure is entered only at a call that did not go well; `stop_failed` exactly when the wait for an
      assisted shutdown to stop the server fails, `signal_failed` exactly when the wait after a signal
      does, and `communication_failed` exactly when the players cannot be reached. An exception that the
      executor does not expect goes to the worker's last handler, for the kinds that do not handle it. */
  lemma FailureIsCaused(l: Local, choice: Choice)
    requires Between(l.pc)
    ensures Caused(l, choice, Execute(l, choice))
  {
    hide Caused, ExecuteBegin, ExecutePreparing, ExecuteBackup, ExecuteCountdown, ExecuteStop, ExecuteApply, ExecuteStart, ExecuteOther;
    var plain := l.(effect := None);
    CausedPlain(l, choice, plain, Execute(l, choice));
    EarlyCaused(plain, choice);
    BackupCaused(plain, choice);
    CountdownCaused(plain, choice);
    StopCaused(plain, choice);
    ApplyCaused(plain, choice);
    StartCaused(plain, choice);
    OtherCaused(plain, choice);
  }

  lemma CausedPlain(l: Local, choice: Choice, plain: Local, next: Local)
    requires plain == l.(effect := None)
    ensures Caused(plain, choice, next) == Caused(l, choice, next)
  {
  }

  /** What a row with one of these reasons has behind it: an assisted shutdown that was committed and
      whose stop was issued but never confirmed, or a signal that was sent. */
  predicate Justified(kind: Kind, failure: Failure, done: seq<Effect>) {
    && (failure.StopFailed? ==> kind.Assisted? && done == [Committed, StopIssued])
    && (failure.SignalFailed? ==> Forced(kind) && done == [SignalIssued])
    && (failure.CommunicationFailed? ==> kind.Assisted? || kind.Update?)
  }

  predicate FailureOk(job: Job, done: seq<Effect>) {
    && (!job.failure.NoFailure? ==> job.status.Failed?) && Justified(job.kind, job.failure, done)
  }

  predicate FailureAt(kind: Kind, pc: Pc, done: seq<Effect>) {
    pc.Finish? ==> Justified(kind, pc.failure, done) && (!pc.failure.NoFailure? ==> pc.status.Failed?)
  }

  ghost predicate FailuresOk(s: State) {
    && |s.done| == |s.db.jobs| && (forall i :: 0 <= i < |s.db.jobs| ==> FailureOk(s.db.jobs[i], s.done[i]))
    && (s.task.Some? && s.task.value.id < |s.db.jobs| ==>
          FailureAt(s.db.jobs[s.task.value.id].kind, s.task.value.pc, s.done[s.task.value.id]))
  }

  lemma BetweenFails(l: Local, k: int, done: seq<Effect>, choice: Choice)
    requires LocalOk(l, k) && Between(l.pc) && Sound(l.job, done) && k == Progress(l.job, done) && FailureOk(l.job, done)
    ensures var next := Execute(l, choice);
            var after := done + if next.effect.Some? then [next.effect.value] else [];
            FailureOk(next.job, after) && FailureAt(next.job.kind, next.pc, after)
  {
    hide Execute, Evolves, EffectAt, Script, RowOk, AtPc, Sound;
    FailureIsCaused(l, choice);
    FixedStep(l, k, choice);
    ExecuteKeeps(l, k, choice);
    RunsUntilEnd(l, k);
    WaitingHasDone(l, k, done);
    NoEffectOnFailure(l, choice);
    assert done + [] == done;
  }

  lemma RunsUntilEnd(l: Local, k: int)
    requires LocalOk(l, k) && Between(l.pc)
    ensures l.job.status.Running?
  {
    hide RowOk;
  }

  lemma NoEffectOnFailure(l: Local, choice: Choice)
    requires Between(l.pc)
    ensures Execute(l, choice).pc.Finish? && Execute(l, choice).pc.failure != NoFailure ==> Execute(l, choice).effect.None?
  {
  }

  lemma WaitingHasDone(l: Local, k: int, done: seq<Effect>)
    requires LocalOk(l, k) && Sound(l.job, done) && k == Progress(l.job, done)
    ensures l.pc.StopWait? && l.job.kind.Assisted? ==> done == [Committed, StopIssued]
    ensures l.pc.SignalWait? ==> Forced(l.job.kind) && done == [SignalIssued]
    ensures l.pc.Contact? || l.pc.Announcing? ==> l.job.kind.Assisted? || l.job.kind.Update?
  {
    if l.pc.StopWait? && l.job.kind.Assisted? {
      assert Script(l.job.kind)[..2] == [Committed, StopIssued];
    }
    if l.pc.SignalWait? {
      assert Script(l.job.kind)[..1] == [SignalIssued];
    }
  }

  lemma WriteFails(l: Local, done: seq<Effect>, choice: Choice)
    requires (l.pc.Finish? || l.pc.Wrapup? || l.pc.LastTry?) && FailureOk(l.job, done) && FailureAt(l.job.kind, l.pc, done)
    requires l.pc.LastTry? ==> l.job.status.Running? || l.job.status.Succeeded?
    ensures var next := ExecuteEnd(l, choice);
            next.effect == l.effect && FailureOk(next.job, done) && FailureAt(next.job.kind, next.pc, done)
  {
    hide Justified;
    NoReason(l.job.kind, done);
  }

  lemma EndFails(l: Local, k: int, done: seq<Effect>, choice: Choice)
    requires LocalOk(l, k) && !Between(l.pc) && !l.pc.Releasing? && FailureOk(l.job, done) && FailureAt(l.job.kind, l.pc, done)
    ensures var next := Execute(l, choice);
            && next.effect.None? && FailureOk(next.job, done) && FailureAt(next.job.kind, next.pc, done)
  {
    hide RowOk, FailureOk, FailureAt, ExecuteEnd;
    WriteFails(l.(effect := None), done, choice);
  }

  lemma NoReason(kind: Kind, done: seq<Effect>)
    ensures Justified(kind, NoFailure, done) && Justified(kind, Unexpected, done)
  {
  }

  /** A transaction on row `i` from outside the worker. */
  lemma OutsideFails(s: State, i: nat, job: Job, done: seq<Effect>)
    requires FailuresOk(s) && i < |s.db.jobs| && FailureOk(job, done) && job.kind == s.db.jobs[i].kind
    requires s.task.Some? && s.task.value.id == i ==> FailureAt(job.kind, s.task.value.pc, done)
    ensures FailuresOk(WithRow(s, i, job, done))
  {
    hide FailureOk, FailureAt;
  }

  lemma CancelFails(s: State, i: nat)
    requires Inv(s) && FailuresOk(s)
    ensures FailuresOk(CancelAsked(s, i))
  {
    hide DistinctKeys, Escalates, RunningOk, RowOk, CancelJob, Justified, AtPc, Script;
    if i < |s.db.jobs| && i < |s.done| {
      var job, done := s.db.jobs[i], s.done[i];
      SoundRow(job, done);
      assert done + [] == done;
      AcceptedIsClean(job, Progress(job, done), done);
      if s.task.Some? && s.task.value.id == i {
        FinishRefuses(job, Progress(job, done), done, s.task.value.pc, s.task.value.critical);
      }
      OutsideFails(s, i, CancelJob(job).0, done + if CancelJob(job).1 then [Acked] else []);
    }
  }

  lemma AcceptedIsClean(job: Job, k: int, done: seq<Effect>)
    requires RowOk(job, k) && FailureOk(job, done)
    ensures CancelJob(job).0.kind == job.kind && CancelJob(job).0.failure == job.failure
    ensures if CancelJob(job).1 then job.failure.NoFailure? && FailureOk(CancelJob(job).0, done + [Acked]) else CancelJob(job).0 == job
  {
    hide RowOk;
  }

  /** A request that comes while a reason is about to be written is refused, or the reason has none. */
  lemma FinishRefuses(job: Job, k: int, done: seq<Effect>, pc: Pc, critical: bool)
    requires RowOk(job, k) && AtPc(job, k, pc, critical) && k == Progress(job, done) && Sound(job, done)
    requires FailureAt(job.kind, pc, done)
    ensures CancelJob(job).1 ==> FailureAt(job.kind, pc, done + [Acked])
  {
    hide Script, AtPc;
  }

  lemma NowFails(s: State, i: nat)
    requires FailuresOk(s)
    ensures FailuresOk(NowAsked(s, i))
  {
    hide Justified;
    if i < |s.db.jobs| {
      OutsideFails(s, i, NowJob(s.db.jobs[i]).0, s.done[i]);
    }
  }

  lemma StepFails(s: State, choice: Choice)
    requires Inv(s) && FailuresOk(s) && s.live && s.task.Some? && !s.task.value.pc.Releasing?
    ensures FailuresOk(Stepped(s, choice))
  {
    hide DistinctKeys, Escalates, RunningOk, RowOk, AtPc, Script, Execute, FailureOk, FailureAt;
    var task := s.task.value;
    var l := Local(s.db.jobs[task.id], task.pc, task.critical, None);
    var done := s.done[task.id];
    var k := Progress(l.job, done);
    SoundRow(l.job, done);
    assert FailureOk(l.job, done) && FailureAt(l.job.kind, l.pc, done);
    if Between(l.pc) {
      BetweenFails(l, k, done, choice);
    } else {
      EndFails(l, k, done, choice);
      assert done + [] == done;
    }
  }

  lemma TakeFails(s: State)
    requires Inv(s) && FailuresOk(s)
    ensures FailuresOk(Taken(s))
  {
    hide DistinctKeys, Escalates, RunningOk, RowOk, AtPc, Script, Claim, Justified;
    if s.live && s.task.None? {
      ClaimTakesLeast(s.db, ALL_KINDS);
      var (db, id) := Claim(s.db, ALL_KINDS);
      assert id.None? ==> db.jobs == s.db.jobs;
    }
  }

  lemma RestartFails(s: State)
    requires FailuresOk(s)
    ensures FailuresOk(Next(s, Restarted))
  {
    hide Justified;
  }

  lemma RequestFails(s: State, job: Job)
    requires Inv(s) && FailuresOk(s) && job.failure.NoFailure?
    ensures FailuresOk(Requested(s, job))
  {
    hide Admits, FailureAt, Justified, Sound, DistinctKeys, Escalates, RunningOk, AtPc;
    NoReason(job.kind, []);
    if Enqueue(s.db, job).Some? {
      var next := Requested(s, job);
      assert forall j :: 0 <= j < |s.db.jobs| ==> next.db.jobs[j] == s.db.jobs[j] && next.done[j] == s.done[j];
    }
  }

  lemma FailuresNext(s: State, event: Event)
    requires Inv(s) && FailuresOk(s)
    ensures FailuresOk(Next(s, event))
  {
    hide Inv, FailureOk, FailureAt, Stepped, Taken, CancelAsked, NowAsked, Requested, Recover;
    match event
    case Request(kind, minutes, source, record, createdAt) => RequestFails(s, NewJob(kind, minutes, source, record, createdAt));
    case CancelRequest(id) => CancelFails(s, id);
    case NowRequest(id) => NowFails(s, id);
    case Take => TakeFails(s);
    case Step(choice) => AnyStepFails(s, choice);
    case Crash =>
    case Restarted => RestartFails(s);
  }

  lemma AnyStepFails(s: State, choice: Choice)
    requires Inv(s) && FailuresOk(s)
    ensures FailuresOk(Stepped(s, choice))
  {
    hide Inv, FailureOk, FailureAt, Execute;
    if s.live && s.task.Some? && !s.task.value.pc.Releasing? {
      StepFails(s, choice);
    }
  }

  lemma {:induction false} AlwaysFailuresOk(events: seq<Event>)
    ensures FailuresOk(Run(events))
  {
    hide Inv, Next, FailureOk, FailureAt;
    if events != [] {
      var n := |events| - 1;
      AlwaysFailuresOk(events[..n]);
      AlwaysInv(events[..n]);
      FailuresNext(Run(events[..n]), events[n]);
    }
  }

  /** In every run a job with the reason `stop_failed` is a failed assisted shutdown that was committed
      and whose stop was issued but never confirmed, and one with `signal_failed` a failed signal that was
      sent. So a SIGTERM that follows an assisted shutdown never meets a server that is known to have
      stopped. */
  lemma StopFailedMeans(events: seq<Event>, i: nat)
    requires HasJob(events, i)
    ensures var job, done := Row(events, i), Done(events, i);
            && (job.failure.StopFailed? ==> job.kind.Assisted? && job.status.Failed? && done == [Committed, StopIssued])
            && (job.failure.SignalFailed? ==> Forced(job.kind) && job.status.Failed? && done == [SignalIssued])
            && (job.status.Succeeded? || Active(job) ==> job.failure.NoFailure?)
    ensures Row(events, i).kind.ForceTerm? ==>
              var source := Row(events, i).source;
              && source.Some? && HasJob(events, source.value)
              && (Row(events, source.value).kind.Assisted? ==> Done(events, source.value) == [Committed, StopIssued])
  {
    hide Run, Sound, RowOk, DistinctKeys, RunningOk, TaskOk, FailureAt;
    AlwaysFailuresOk(events);
    AlwaysInv(events);
    var jobs := Run(events).db.jobs;
    if jobs[i].kind.ForceTerm? {
      assert ValidSource(jobs, jobs[i].kind, jobs[i].source);
    }
  }
}
