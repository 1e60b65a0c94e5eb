/** The delivery of notifications: claims, attempts, retries, crashes and the reconciliation of what a
    crash left behind. */
module Notifications {
  import opened Common

  const MAX_NOTIFICATION_ATTEMPTS: nat := 3

  /** The delays before the second and the third attempt. */
  const RETRY_DELAYS: seq<int> := [5, 30]

  datatype Status = Pending | Sending | Sent | Failed

  /** A row; `fatal` says that the last error is not one of the transient kinds. */
  datatype Event = Event(status: Status, attempts: nat, nextAttempt: Option<int>, createdAt: int, fatal: bool)

  datatype Delivery = Delivered | Transient | Fatal

  // ---- Transactions ----

  predicate Claimable(e: Event, now: int) {
    e.status.Pending? && e.attempts < MAX_NOTIFICATION_ATTEMPTS && (e.nextAttempt.None? || e.nextAttempt.value <= now)
  }

  function ClaimEvent(e: Event): Event {
    e.(status := Sending, attempts := e.attempts + 1, nextAttempt := None)
  }

  /** `_finish_success` and `_finish_failure`, which do nothing unless the row is still being sent. */
  function FinishEvent(e: Event, delivery: Delivery, at: int): Event
    requires e.status.Sending? ==> 1 <= e.attempts
  {
    if !e.status.Sending? then e
    else if delivery.Delivered? then e.(status := Sent, nextAttempt := None)
    else if delivery.Transient? && e.attempts < MAX_NOTIFICATION_ATTEMPTS then
      e.(status := Pending, nextAttempt := Some(at + RETRY_DELAYS[e.attempts - 1]))
    else e.(status := Failed, nextAttempt := None, fatal := delivery.Fatal?)
  }

  /** `reconcile_sending_notifications`, for one row. */
  function ReconcileEvent(e: Event, now: int): Event {
    if !e.status.Sending? then e
    else if e.attempts < MAX_NOTIFICATION_ATTEMPTS then e.(status := Pending, nextAttempt := Some(now))
    else e.(status := Failed, nextAttempt := None)
  }

  predicate Before(events: seq<Event>, i: nat, j: nat)
    requires i < |events| && j < |events|
  {
    events[i].createdAt < events[j].createdAt || (events[i].createdAt == events[j].createdAt && i <= j)
  }

  /** The oldest claimable row among the first `n`. */
  function PickEvent(events: seq<Event>, now: int, n: nat): (r: Option<nat>)
    requires n <= |events|
    ensures r.Some? ==> r.value < n && Claimable(events[r.value], now)
  {
    if n == 0 then None
    else
      var best := PickEvent(events, now, n - 1);
      if !Claimable(events[n - 1], now) then best
      else if best.Some? && Before(events, best.value, n - 1) then best
      else Some(n - 1)
  }

  lemma {:induction false} PickIsOldest(events: seq<Event>, now: int, n: nat)
    requires n <= |events|
    ensures var r := PickEvent(events, now, n);
            && (r.None? <==> forall i :: 0 <= i < n ==> !Claimable(events[i], now))
            && (r.Some? ==> forall i :: 0 <= i < n && Claimable(events[i], now) ==> Before(events, r.value, i))
  {
    if n > 0 {
      PickIsOldest(events, now, n - 1);
    }
  }

  /** The same in the terms of the rows: the event picked waits, has an attempt left, and is due; no
      other such event is older, or as old with a lower id. */
  lemma PickIsFirstDue(events: seq<Event>, now: int)
    ensures var r := PickEvent(events, now, |events|);
            && (r.None? <==> forall i :: 0 <= i < |events| ==> !Due(events[i], now))
            && (r.Some? ==>
                  && Due(events[r.value], now)
                  && forall i :: 0 <= i < |events| && Due(events[i], now) ==>
                       || events[r.value].createdAt < events[i].createdAt
                       || (events[r.value].createdAt == events[i].createdAt && r.value <= i))
  {
    PickIsOldest(events, now, |events|);
    assert forall i :: 0 <= i < |events| ==> (Claimable(events[i], now) <==> Due(events[i], now));
  }

  predicate Due(e: Event, now: int) {
    e.status.Pending? && e.attempts < 3 && (e.nextAttempt.Some? ==> e.nextAttempt.value <= now)
  }

  // ---- Runs ----

  /** `sends[i]` is how often event `i` was handed to the webhook; `current` is the event the live
      dispatcher has claimed, and whether it has sent it. */
  datatype State = State(events: seq<Event>, sends: seq<nat>, claims: nat, current: Option<(nat, bool)>)

  datatype Step =
    | Enqueue(createdAt: int)
    | Claim(now: int)
    | Send
    | Finish(delivery: Delivery, at: int)
    | Crash
    | Reconcile(now: int)

  const INITIAL: State := State([], [], 0, None)

  function Reconciled(events: seq<Event>, now: int): (r: seq<Event>)
    ensures |r| == |events| && forall i :: 0 <= i < |r| ==> r[i] == ReconcileEvent(events[i], now)
  {
    seq(|events|, i requires 0 <= i < |events| => ReconcileEvent(events[i], now))
  }

  /** The dispatcher claims, sends and writes the outcome in turn; a crash forgets what it was doing,
      and the reconciliation runs before the next dispatcher does. */
  function Next(s: State, step: Step): State {
    match step
    case Enqueue(createdAt) => s.(events := s.events + [Event(Pending, 0, None, createdAt, false)], sends := s.sends + [0])
    case Claim(now) =>
      var picked := PickEvent(s.events, now, |s.events|);
      if s.current.Some? || picked.None? then s
      else s.(events := s.events[picked.value := ClaimEvent(s.events[picked.value])], claims := s.claims + 1,
              current := Some((picked.value, false)))
    case Send =>
      if s.current.None? || s.current.value.1 || s.current.value.0 >= |s.sends| then s
      else s.(sends := s.sends[s.current.value.0 := s.sends[s.current.value.0] + 1], current := Some((s.current.value.0, true)))
    case Finish(delivery, at) =>
      if s.current.None? || !s.current.value.1 || s.current.value.0 >= |s.events| then s
      else
        var i := s.current.value.0;
        if s.events[i].status.Sending? && s.events[i].attempts == 0 then s
        else s.(events := s.events[i := FinishEvent(s.events[i], delivery, at)], current := None)
    case Crash => s.(current := None)
    case Reconcile(now) => if s.current.Some? then s else s.(events := Reconciled(s.events, now))
  }

  function Run(steps: seq<Step>): State {
    if steps == [] then INITIAL else Next(Run(steps[..|steps| - 1]), steps[|steps| - 1])
  }

  /** One event and how often it was sent. */
  predicate EventOk(e: Event, sends: nat) {
    && e.attempts <= MAX_NOTIFICATION_ATTEMPTS && sends <= e.attempts
    && (e.status.Pending? ==> e.attempts < MAX_NOTIFICATION_ATTEMPTS)
    && (!e.status.Pending? ==> 1 <= e.attempts)
    && (e.status.Failed? ==> e.fatal || e.attempts == MAX_NOTIFICATION_ATTEMPTS)
  }

  function Attempts(events: seq<Event>): nat {
    if events == [] then 0 else Attempts(events[..|events| - 1]) + events[|events| - 1].attempts
  }

  ghost predicate Inv(s: State) {
    && |s.sends| == |s.events| && (forall i :: 0 <= i < |s.events| ==> EventOk(s.events[i], s.sends[i]))
    && s.claims == Attempts(s.events)
    && (s.current.Some? ==>
          && s.current.value.0 < |s.events| && s.events[s.current.value.0].status.Sending?
          && (!s.current.value.1 ==> s.sends[s.current.value.0] < s.events[s.current.value.0].attempts))
  }

  lemma {:induction false} AttemptsUpdate(events: seq<Event>, i: nat, e: Event)
    requires i < |events|
    ensures Attempts(events[i := e]) == Attempts(events) - events[i].attempts + e.attempts
  {
    var n := |events| - 1;
    if i < n {
      AttemptsUpdate(events[..n], i, e);
      assert events[i := e][..n] == events[..n][i := e];
    } else {
      assert events[i := e][..n] == events[..n];
    }
  }

  lemma {:induction false} AttemptsReconciled(events: seq<Event>, now: int)
    ensures Attempts(Reconciled(events, now)) == Attempts(events)
  {
    if events != [] {
      var n := |events| - 1;
      AttemptsReconciled(events[..n], now);
      assert Reconciled(events, now)[..n] == Reconciled(events[..n], now);
    }
  }

  lemma EnqueueKeeps(s: State, createdAt: int)
    requires Inv(s)
    ensures Inv(Next(s, Enqueue(createdAt)))
  {
    var e := Event(Pending, 0, None, createdAt, false);
    assert (s.events + [e])[..|s.events|] == s.events;
  }

  lemma ClaimKeeps(s: State, now: int)
    requires Inv(s)
    ensures Inv(Next(s, Claim(now)))
  {
    hide Attempts;
    var picked := PickEvent(s.events, now, |s.events|);
    if s.current.None? && picked.Some? {
      AttemptsUpdate(s.events, picked.value, ClaimEvent(s.events[picked.value]));
    }
  }

  lemma SendKeeps(s: State)
    requires Inv(s)
    ensures Inv(Next(s, Send)) && Inv(Next(s, Crash))
  {
    hide Attempts;
  }

  lemma FinishKeeps(s: State, delivery: Delivery, at: int)
    requires Inv(s)
    ensures Inv(Next(s, Finish(delivery, at)))
  {
    hide Attempts;
    if s.current.Some? && s.current.value.1 {
      var i := s.current.value.0;
      AttemptsUpdate(s.events, i, FinishEvent(s.events[i], delivery, at));
    }
  }

  lemma ReconcileKeeps(s: State, now: int)
    requires Inv(s)
    ensures Inv(Next(s, Reconcile(now)))
  {
    hide Attempts;
    AttemptsReconciled(s.events, now);
  }

  lemma NextKeeps(s: State, step: Step)
    requires Inv(s)
    ensures Inv(Next(s, step))
  {
    hide Inv, Next;
    match step
    case Enqueue(createdAt) => EnqueueKeeps(s, createdAt);
    case Claim(now) => ClaimKeeps(s, now);
    case Send => SendKeeps(s);
    case Finish(delivery, at) => FinishKeeps(s, delivery, at);
    case Crash => SendKeeps(s);
    case Reconcile(now) => ReconcileKeeps(s, now);
  }

  lemma {:induction false} AlwaysInv(steps: seq<Step>)
    ensures Inv(Run(steps))
  {
    hide Inv, Next;
    if steps == [] {
      EmptyInv();
    } else {
      AlwaysInv(steps[..|steps| - 1]);
      NextKeeps(Run(steps[..|steps| - 1]), steps[|steps| - 1]);
    }
  }

  lemma EmptyInv()
    ensures Inv(INITIAL)
  {
  }

  lemma {:induction false} AttemptsBound(events: seq<Event>)
    requires forall i :: 0 <= i < |events| ==> events[i].attempts <= MAX_NOTIFICATION_ATTEMPTS
    ensures Attempts(events) <= MAX_NOTIFICATION_ATTEMPTS * |events|
  {
    if events != [] {
      AttemptsBound(events[..|events| - 1]);
    }
  }

  /** Over every run: no event is attempted more than three times or sent more often than attempted; a
      failed one met an error that is not transient or used all three attempts; and in all there are
      at most three claims for each event. */
  lemma DeliveryIsBounded(steps: seq<Step>)
    ensures var s := Run(steps);
            && |s.sends| == |s.events|
            && (forall i :: 0 <= i < |s.events| ==>
                  s.sends[i] <= s.events[i].attempts <= MAX_NOTIFICATION_ATTEMPTS
                  && (s.events[i].status.Failed? ==> s.events[i].fatal || s.events[i].attempts == MAX_NOTIFICATION_ATTEMPTS))
            && s.claims <= MAX_NOTIFICATION_ATTEMPTS * |s.events|
  {
    hide Run, Next;
    AlwaysInv(steps);
    AttemptsBound(Run(steps).events);
  }

  /** One step: an event that has ended stays as it is. */
  lemma EndedKeeps(s: State, step: Step, i: nat)
    requires Inv(s) && i < |s.events| && (s.events[i].status.Sent? || s.events[i].status.Failed?)
    ensures i < |Next(s, step).events| && Next(s, step).events[i] == s.events[i]
  {
    hide Attempts, PickEvent, EventOk;
  }

  /** A delivered event, and one that was given up, stays what it is over every continuation of every
      run. */
  lemma {:induction false} EndedForGood(steps: seq<Step>, more: seq<Step>, i: nat)
    requires i < |Run(steps).events| && (Run(steps).events[i].status.Sent? || Run(steps).events[i].status.Failed?)
    ensures i < |Run(steps + more).events| && Run(steps + more).events[i] == Run(steps).events[i]
  {
    hide Inv, Run, Next;
    if more == [] {
      assert steps + more == steps;
    } else {
      var n := |more| - 1;
      EndedForGood(steps, more[..n], i);
      RunSnoc(steps + more[..n], more[n]);
      assert steps + more == steps + more[..n] + [more[n]];
      AlwaysInv(steps + more[..n]);
      EndedKeeps(Run(steps + more[..n]), more[n], i);
    }
  }

  /** What becomes of an event that was sent: a delivery ends it; a transient failure puts it back, to
      be claimed from exactly five seconds after its first attempt on, or thirty after its second, and
      gives it up after its third; any other failure gives it up. Nothing else changes. */
  lemma OutcomeIsRecorded(steps: seq<Step>, i: nat, delivery: Delivery, at: int)
    requires Run(steps).current == Some((i, true))
    ensures i < |Run(steps).events|
    ensures var events, next := Run(steps).events, Run(steps + [Finish(delivery, at)]).events;
            && |next| == |events| && (forall j :: 0 <= j < |events| && j != i ==> next[j] == events[j])
            && next[i].attempts == events[i].attempts
            && match delivery
               case Delivered => next[i].status.Sent?
               case Fatal => next[i].status.Failed? && next[i].fatal
               case Transient =>
                 if events[i].attempts < 3 then
                   next[i].status.Pending? &&
                   forall now :: Claimable(next[i], now) <==> at + (if events[i].attempts == 1 then 5 else 30) <= now
                 else next[i].status.Failed? && !next[i].fatal
  {
    hide Run, Attempts, PickEvent;
    AlwaysInv(steps);
    RunSnoc(steps, Finish(delivery, at));
  }

  /** A claimed event is handed to the webhook once, and then its outcome is written. */
  lemma ClaimedIsSent(steps: seq<Step>, i: nat)
    requires Run(steps).current == Some((i, false))
    ensures i < |Run(steps).sends|
    ensures var next := Run(steps + [Send]);
            && next.current == Some((i, true)) && next.events == Run(steps).events
            && next.sends == Run(steps).sends[i := Run(steps).sends[i] + 1]
            && Run(steps + [Send] + [Send]) == next
  {
    hide Run, Attempts, PickEvent, EventOk;
    AlwaysInv(steps);
    RunSnoc(steps, Send);
    RunSnoc(steps + [Send], Send);
  }

  /** No event is stuck: a pending one can be claimed as soon as its time comes; one being sent is in
      the hands of the dispatcher, or a reconciliation puts it back, or gives it up after three attempts,
      and touches no other. */
  lemma NeverStuck(steps: seq<Step>, i: nat, now: int)
    requires i < |Run(steps).events|
    ensures var s := Run(steps);
            && (s.events[i].status.Pending? && (s.events[i].nextAttempt.None? || s.events[i].nextAttempt.value <= now) ==>
                  Claimable(s.events[i], now) && PickEvent(s.events, now, |s.events|).Some?)
            && (s.events[i].status.Sending? && s.current.None? ==>
                  var e := Run(steps + [Reconcile(now)]).events;
                  i < |e| && if s.events[i].attempts < 3 then Claimable(e[i], now) else e[i].status.Failed?)
            && (!s.events[i].status.Sending? ==>
                  var e := Run(steps + [Reconcile(now)]).events;
                  i < |e| && e[i] == s.events[i])
  {
    hide Run, PickEvent, Attempts;
    AlwaysInv(steps);
    PickIsOldest(Run(steps).events, now, |Run(steps).events|);
    RunSnoc(steps, Reconcile(now));
  }

  lemma RunSnoc(steps: seq<Step>, step: Step)
    ensures Run(steps + [step]) == Next(Run(steps), step)
  {
    hide Next;
    assert (steps + [step])[..|steps|] == steps;
  }

  /** The delay of every retry exists, and a retry is never scheduled in the past. */
  lemma RetryHasDelay(steps: seq<Step>, i: nat, at: int)
    requires i < |Run(steps).events| && Run(steps).events[i].status.Sending?
    ensures var e := Run(steps).events[i];
            && 1 <= e.attempts
            && (e.attempts < MAX_NOTIFICATION_ATTEMPTS ==> e.attempts - 1 < |RETRY_DELAYS|)
            && (FinishEvent(e, Transient, at).status.Pending? ==>
                  FinishEvent(e, Transient, at).nextAttempt.Some? && FinishEvent(e, Transient, at).nextAttempt.value > at)
  {
    hide Run, Attempts;
    AlwaysInv(steps);
  }

  // ---- In place ----

  class Outbox {
    var events: seq<Event>

    constructor ()
      ensures events == []
    {
      events := [];
    }

    method ClaimNext(now: int) returns (id: Option<nat>)
      modifies this
      ensures id == PickEvent(old(events), now, |old(events)|)
      ensures events == if id.Some? then old(events)[id.value := ClaimEvent(old(events)[id.value])] else old(events)
    {
      id := None;
      for i := 0 to |events|
        invariant events == old(events) && id == PickEvent(events, now, i)
      {
        if Claimable(events[i], now) && (id.None? || !Before(events, id.value, i)) {
          id := Some(i);
        }
      }
      if id.Some? {
        var e := events[id.value];
        events := events[id.value := e.(status := Sending, attempts := e.attempts + 1, nextAttempt := None)];
      }
    }

    method FinishSuccess(id: nat, at: int)
      requires id < |events| && (events[id].status.Sending? ==> 1 <= events[id].attempts)
      modifies this
      ensures events == old(events)[id := FinishEvent(old(events)[id], Delivered, at)]
    {
      if !events[id].status.Sending? {
        return;
      }
      events := events[id := events[id].(status := Sent, nextAttempt := None)];
    }

    method FinishFailure(id: nat, transient: bool, at: int)
      requires id < |events| && (events[id].status.Sending? ==> 1 <= events[id].attempts)
      modifies this
      ensures events == old(events)[id := FinishEvent(old(events)[id], if transient then Transient else Fatal, at)]
    {
      var e := events[id];
      if !e.status.Sending? {
        return;
      }
      if transient && e.attempts < MAX_NOTIFICATION_ATTEMPTS {
        events := events[id := e.(status := Pending, nextAttempt := Some(at + RETRY_DELAYS[e.attempts - 1]))];
      } else {
        events := events[id := e.(status := Failed, nextAttempt := None, fatal := !transient)];
      }
    }

    method ReconcileSending(now: int) returns (requeued: nat, failed: nat)
      modifies this
      ensures events == Reconciled(old(events), now)
      ensures requeued + failed == Sendings(old(events)) && failed == Exhausted(old(events))
    {
      requeued, failed := 0, 0;
      ghost var before := events;
      for i := 0 to |events|
        invariant |events| == |before|
        invariant forall j :: 0 <= j < i ==> events[j] == ReconcileEvent(before[j], now)
        invariant forall j :: i <= j < |events| ==> events[j] == before[j]
        invariant requeued + failed == Sendings(before[..i]) && failed == Exhausted(before[..i])
      {
        var e := events[i];
        assert before[..i + 1][..i] == before[..i];
        if e.status.Sending? {
          if e.attempts < MAX_NOTIFICATION_ATTEMPTS {
            events := events[i := e.(status := Pending, nextAttempt := Some(now))];
            requeued := requeued + 1;
          } else {
            events := events[i := e.(status := Failed, nextAttempt := None)];
            failed := failed + 1;
          }
        }
      }
      assert before[..|before|] == before;
      assert events == Reconciled(before, now);
    }
  }

  /** Those of them that have no attempt left. */
  function Exhausted(events: seq<Event>): nat {
    if events == [] then 0
    else
      var last := events[|events| - 1];
      Exhausted(events[..|events| - 1]) + if last.status.Sending? && last.attempts >= 3 then 1 else 0
  }

  function Sendings(events: seq<Event>): nat {
    if events == [] then 0 else Sendings(events[..|events| - 1]) + if events[|events| - 1].status.Sending? then 1 else 0
  }
}
