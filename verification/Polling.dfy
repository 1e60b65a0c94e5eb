/** The polling loop of a start, stop or restart of the server: what it has seen when it succeeds, and
    how often it looks before it gives up. */
module Polling {
  datatype Action = Start | Stop | Restart

  datatype Health = Online | Offline | Starting | Unhealthy

  /** One look at the server: its health, and whether its REST port is open. */
  datatype Look = Look(health: Health, portOpen: bool)

  datatype Outcome = Succeeded | TimedOut | ControlFailed

  datatype Signal = Term | Kill

  /** What the service manager is asked to do. */
  datatype Command = Manage(action: Action) | Send(signal: Signal)

  /** A command and whether the service manager obeyed. */
  datatype Answer = Answer(command: Command, ok: bool)

  predicate Reached(action: Action, look: Look) {
    if action.Stop? then look.health.Offline? && !look.portOpen else look.health.Online?
  }

  /** The look `n` of a run shows what the action is for: a stopped server has a closed port, and a
      restarted one was seen not online before. */
  predicate Met(action: Action, seen: seq<Look>, n: nat) {
    && n < |seen|
    && (if action.Stop? then seen[n].health.Offline? && !seen[n].portOpen else seen[n].health.Online?)
    && (action.Restart? ==> exists j :: 0 <= j < n && !seen[j].health.Online?)
  }

  /** The server and the clock as the executor sees them. The clock may run on by any amount between
      two readings, and a sleep lasts at least as long as asked. */
  class World {
    var now: real
    ghost var looks: seq<Look>
    ghost var answers: seq<Answer>

    constructor (now: real)
      ensures this.now == now && looks == [] && answers == []
    {
      this.now, looks, answers := now, [], [];
    }

    method Monotonic() returns (t: real)
      modifies this
      ensures old(now) <= now == t && looks == old(looks) && answers == old(answers)
    {
      var drift: real := *;
      now := if drift > 0.0 then now + drift else now;
      t := now;
    }

    method Sleep(duration: real)
      modifies this
      ensures now >= old(now) + duration && now >= old(now) && looks == old(looks) && answers == old(answers)
    {
      var extra: real := *;
      now := now + (if duration > 0.0 then duration else 0.0) + if extra > 0.0 then extra else 0.0;
    }

    method Check() returns (look: Look)
      modifies this
      ensures old(now) <= now && looks == old(looks) + [look] && answers == old(answers)
    {
      look := *;
      var drift: real := *;
      now := if drift > 0.0 then now + drift else now;
      looks := looks + [look];
    }

    /** Starting, stopping or signalling the service; `false` when the service manager refuses. */
    method Control(command: Command) returns (ok: bool)
      modifies this
      ensures old(now) <= now && looks == old(looks) && answers == old(answers) + [Answer(command, ok)]
    {
      ok := *;
      answers := answers + [Answer(command, ok)];
    }
  }

  /** The least integer not below `x`. */
  function Ceiling(x: real): int {
    -((-x).Floor)
  }

  /** How often the server can be looked at after the action before the time is up. */
  function MaxLooks(timeout: int, poll: real): int
    requires poll > 0.0
  {
    Ceiling(timeout as real / poll) + 1
  }

  /** After `n` pauses either `n` poll intervals have passed or the time is up. */
  predicate Paced(begun: real, deadline: real, poll: real, n: int, now: real) {
    begun + n as real * poll <= now || deadline <= now
  }

  lemma PacedStart(begun: real, deadline: real, poll: real)
    ensures Paced(begun, deadline, poll, 0, begun)
  {
  }

  lemma PacedLater(begun: real, deadline: real, poll: real, n: int, now: real, later: real)
    requires Paced(begun, deadline, poll, n, now) && now <= later
    ensures Paced(begun, deadline, poll, n, later)
  {
  }

  lemma PacedPause(begun: real, deadline: real, poll: real, n: int, now: real, pause: real, later: real)
    requires Paced(begun, deadline, poll, n, now) && poll > 0.0
    requires pause == Pause(deadline - now, poll) && later >= now + pause
    ensures Paced(begun, deadline, poll, n + 1, later)
  {
    assert (n + 1) as real * poll == n as real * poll + poll;
  }

  /** A look that finds time left is not the last one allowed. */
  lemma LooksInTime(begun: real, timeout: int, poll: real, n: int, now: real)
    requires poll > 0.0 && Paced(begun, begun + timeout as real, poll, n, now) && now < begun + timeout as real
    ensures n + 1 < MaxLooks(timeout, poll)
  {
    var q := timeout as real / poll;
    assert q * poll == timeout as real;
    assert n as real * poll < q * poll;
    Cancel(n as real, q, poll);
  }

  lemma Cancel(a: real, b: real, c: real)
    requires c > 0.0 && a * c < b * c
    ensures a < b
  {
  }

  /** How long the loop sleeps: one interval, or what is left. */
  function Pause(rest: real, poll: real): real {
    var left := if rest > 0.0 then rest else 0.0;
    if poll < left then poll else left
  }

  predicate SomeNotOnline(looks: seq<Look>) {
    exists i :: 0 <= i < |looks| && !looks[i].health.Online?
  }

  lemma MetIff(action: Action, earlier: seq<Look>, look: Look)
    ensures Met(action, earlier + [look], |earlier|) <==> Reached(action, look) && (action.Restart? ==> SomeNotOnline(earlier))
    ensures forall n :: 0 <= n < |earlier| ==> Met(action, earlier + [look], n) == Met(action, earlier, n)
  {
    var next := earlier + [look];
    assert forall j :: 0 <= j < |earlier| ==> next[j] == earlier[j];
    assert next[|earlier|] == look;
  }

  function Extra(action: Action): nat {
    if action.Restart? then 1 else 0
  }

  /** `execute`: `seen` are its looks at the server, the first of a restart before the action. It asks
      the service manager once, for this action, and fails at once exactly when that refuses.
      Otherwise it looks at most one time more than there are poll intervals in the timeout, succeeds
      exactly when its last look shows what the action is for, which no earlier look after the action
      did, and gives up only when the timeout has passed. */
  method Execute(world: World, action: Action, timeout: int, poll: real)
    returns (outcome: Outcome, ghost seen: seq<Look>)
    requires timeout > 0 && poll > 0.0
    modifies world
    ensures world.looks == old(world.looks) + seen
    ensures Extra(action) <= |seen| <= Extra(action) + MaxLooks(timeout, poll)
    ensures world.answers == old(world.answers) + [Answer(Manage(action), !outcome.ControlFailed?)]
    ensures outcome.ControlFailed? <==> |seen| == Extra(action)
    ensures |seen| > Extra(action) ==> (outcome.Succeeded? <==> Met(action, seen, |seen| - 1))
    ensures forall n :: Extra(action) <= n < |seen| - 1 ==> !Met(action, seen, n)
    ensures outcome.TimedOut? ==> world.now >= old(world.now) + timeout as real
  {
    hide Paced, MaxLooks, Pause, SomeNotOnline, Met, Reached;
    ghost var before, entered := world.looks, world.now;
    AtLeastOne(timeout, poll);
    seen := [];
    var observed := true;
    if action.Restart? {
      var look := world.Check();
      seen := [look];
      observed := !look.health.Online?;
      NotOnlineSnoc([], look);
    }
    var ok := world.Control(Manage(action));
    if !ok {
      return ControlFailed, seen;
    }
    ghost var told := world.answers;
    var begun := world.Monotonic();
    var deadline := begun + timeout as real;
    ghost var n := 0;
    PacedStart(begun, deadline, poll);
    while true
      invariant world.looks == before + seen && |seen| == Extra(action) + n && 0 <= n < MaxLooks(timeout, poll)
      invariant world.answers == told && entered <= begun
      invariant Paced(begun, deadline, poll, n, world.now)
      invariant observed == (action.Restart? ==> SomeNotOnline(seen))
      invariant forall j :: Extra(action) <= j < |seen| ==> !Met(action, seen, j)
      decreases MaxLooks(timeout, poll) - n
    {
      ghost var t0 := world.now;
      var look := world.Check();
      ghost var earlier := seen;
      seen := seen + [look];
      NotOnlineSnoc(earlier, look);
      MetIff(action, earlier, look);
      RestartSeen(action, look);
      if action.Restart? && !look.health.Online? {
        observed := true;
      }
      if observed && Reached(action, look) {
        return Succeeded, seen;
      }
      var t := world.Monotonic();
      PacedLater(begun, deadline, poll, n, t0, t);
      if t >= deadline {
        return TimedOut, seen;
      }
      LooksInTime(begun, timeout, poll, n, t);
      ghost var t1 := t;
      t := world.Monotonic();
      PacedLater(begun, deadline, poll, n, t1, t);
      world.Sleep(Pause(deadline - t, poll));
      PacedPause(begun, deadline, poll, n, t, Pause(deadline - t, poll), world.now);
      n := n + 1;
    }
  }

  const SIGNAL_POLL: real := 1.0

  /** `ForcedShutdownExecutor.execute`: after the signal it looks at the server at most once more than
      the timeout has seconds, and succeeds exactly when its last look shows the server stopped and
      its port closed; it gives up only after the timeout, on a look that does not. It fails at once
      exactly when the service manager refuses the signal. */
  method ExecuteSignal(world: World, signal: Signal, timeout: int) returns (outcome: Outcome, ghost seen: seq<Look>)
    requires timeout > 0
    modifies world
    ensures world.looks == old(world.looks) + seen
    ensures world.answers == old(world.answers) + [Answer(Send(signal), !outcome.ControlFailed?)]
    ensures |seen| <= timeout + 1 && (outcome.ControlFailed? <==> seen == [])
    ensures seen != [] ==> (outcome.Succeeded? <==> Met(Stop, seen, |seen| - 1))
    ensures forall i :: 0 <= i < |seen| - 1 ==> !Met(Stop, seen, i)
    ensures outcome.TimedOut? ==> world.now >= old(world.now) + timeout as real
  {
    hide Paced, MaxLooks, Pause, Reached, Met;
    ghost var before, entered := world.looks, world.now;
    AtLeastOne(timeout, SIGNAL_POLL);
    WholeSeconds(timeout);
    seen := [];
    var ok := world.Control(Send(signal));
    if !ok {
      return ControlFailed, seen;
    }
    ghost var told := world.answers;
    var begun := world.Monotonic();
    var deadline := begun + timeout as real;
    PacedStart(begun, deadline, SIGNAL_POLL);
    while true
      invariant world.looks == before + seen && |seen| < MaxLooks(timeout, SIGNAL_POLL) && entered <= begun
      invariant world.answers == told
      invariant Paced(begun, deadline, SIGNAL_POLL, |seen|, world.now)
      invariant forall i :: 0 <= i < |seen| ==> !Met(Stop, seen, i)
      decreases MaxLooks(timeout, SIGNAL_POLL) - |seen|
    {
      ghost var n, t0 := |seen|, world.now;
      var look := world.Check();
      MetIff(Stop, seen, look);
      seen := seen + [look];
      if Reached(Stop, look) {
        return Succeeded, seen;
      }
      var t := world.Monotonic();
      PacedLater(begun, deadline, SIGNAL_POLL, n, t0, t);
      if t >= deadline {
        return TimedOut, seen;
      }
      LooksInTime(begun, timeout, SIGNAL_POLL, n, t);
      ghost var t1 := t;
      t := world.Monotonic();
      PacedLater(begun, deadline, SIGNAL_POLL, n, t1, t);
      world.Sleep(Pause(deadline - t, SIGNAL_POLL));
      PacedPause(begun, deadline, SIGNAL_POLL, n, t, Pause(deadline - t, SIGNAL_POLL), world.now);
    }
  }

  lemma WholeSeconds(timeout: int)
    requires timeout > 0
    ensures MaxLooks(timeout, SIGNAL_POLL) == timeout + 1
  {
  }

  lemma NotOnlineSnoc(looks: seq<Look>, look: Look)
    ensures SomeNotOnline(looks + [look]) <==> SomeNotOnline(looks) || !look.health.Online?
    ensures SomeNotOnline([look]) <==> !look.health.Online?
  {
    var next := looks + [look];
    assert next[|looks|] == look && [look][0] == look;
    if SomeNotOnline(looks) {
      var i :| 0 <= i < |looks| && !looks[i].health.Online?;
      assert next[i] == looks[i];
    }
  }

  lemma RestartSeen(action: Action, look: Look)
    ensures action.Restart? && Reached(action, look) ==> look.health.Online?
  {
  }

  lemma AtLeastOne(timeout: int, poll: real)
    requires timeout > 0 && poll > 0.0
    ensures MaxLooks(timeout, poll) > 1
  {
    Cancel(0.0, timeout as real / poll, poll);
  }
}
