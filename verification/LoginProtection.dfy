/** The login lockout: every decision is read back from the log of attempts. With a clock that does
    not run backwards the log behaves like a failure counter and one block. */
module LoginProtection {
  import opened Common

  const MAXIMUM_FAILED_ATTEMPTS: nat := 5

  /** Fifteen minutes, in the unit of the timestamps. */
  const LOGIN_BLOCK_DURATION: int := 900

  type Username = Option<string>

  datatype Attempt = Attempt(username: Username, successful: bool, at: int, blockedUntil: Option<int>)

  /** A login request; `ok` says that the user is active and the password is right. */
  datatype Try = Try(username: Username, at: int, ok: bool)

  datatype Outcome =
    | Rejected(until: int)
    | Accepted
    | Failure(newBlock: Option<int>)

  // ---- Reading the log ----

  /** The newest row of the table goes before the rows that are not later than it. */
  function Insert(rows: seq<Attempt>, row: Attempt): seq<Attempt> {
    if rows == [] || rows[0].at <= row.at then [row] + rows else [rows[0]] + Insert(rows[1..], row)
  }

  /** The rows of a username, by time and then id, latest first. */
  function Newest(log: seq<Attempt>, username: Username): seq<Attempt> {
    if log == [] then []
    else
      var last := log[|log| - 1];
      var rest := Newest(log[..|log| - 1], username);
      if last.username == username then Insert(rest, last) else rest
  }

  function LatestBlock(rows: seq<Attempt>): Option<int> {
    if rows == [] then None
    else if rows[0].blockedUntil.Some? then rows[0].blockedUntil
    else LatestBlock(rows[1..])
  }

  /** `_active_block`. */
  function ActiveBlock(rows: seq<Attempt>, now: int): Option<int> {
    var latest := LatestBlock(rows);
    if latest.Some? && latest.value > now then latest else None
  }

  function Leading(rows: seq<Attempt>): nat {
    if rows == [] || rows[0].successful || rows[0].blockedUntil.Some? then 0 else 1 + Leading(rows[1..])
  }

  function Recent(rows: seq<Attempt>): seq<Attempt> {
    if |rows| > MAXIMUM_FAILED_ATTEMPTS then rows[..MAXIMUM_FAILED_ATTEMPTS] else rows
  }

  /** The decision of `attempt_user_login`, given the rows of the username. */
  function Decide(rows: seq<Attempt>, attempt: Try): Outcome {
    var block := ActiveBlock(rows, attempt.at);
    if block.Some? then Rejected(block.value)
    else if attempt.ok then Accepted
    else
      var failures := Leading(Recent(rows)) + 1;
      Failure(if failures >= MAXIMUM_FAILED_ATTEMPTS then Some(attempt.at + LOGIN_BLOCK_DURATION) else None)
  }

  function RowOf(attempt: Try, outcome: Outcome): Attempt {
    match outcome
    case Rejected(until) => Attempt(attempt.username, false, attempt.at, Some(until))
    case Accepted => Attempt(attempt.username, true, attempt.at, None)
    case Failure(block) => Attempt(attempt.username, false, attempt.at, block)
  }

  class LoginLog {
    var attempts: seq<Attempt>

    constructor ()
      ensures attempts == []
    {
      attempts := [];
    }

    /** `_consecutive_failures`. */
    method ConsecutiveFailures(username: Username) returns (failures: nat)
      ensures failures == Leading(Recent(Newest(attempts, username)))
    {
      var rows := Recent(Newest(attempts, username));
      failures := 0;
      for i := 0 to |rows|
        invariant failures == i && Leading(rows) == i + Leading(rows[i..])
      {
        if rows[i].successful || rows[i].blockedUntil.Some? {
          return;
        }
        failures := failures + 1;
      }
    }

    method AttemptLogin(attempt: Try) returns (outcome: Outcome)
      modifies this
      ensures outcome == Decide(Newest(old(attempts), attempt.username), attempt)
      ensures attempts == old(attempts) + [RowOf(attempt, outcome)]
    {
      var blocked := ActiveBlock(Newest(attempts, attempt.username), attempt.at);
      if blocked.Some? {
        attempts := attempts + [Attempt(attempt.username, false, attempt.at, blocked)];
        return Rejected(blocked.value);
      }
      if attempt.ok {
        attempts := attempts + [Attempt(attempt.username, true, attempt.at, None)];
        return Accepted;
      }
      var failures := ConsecutiveFailures(attempt.username);
      var newBlock := if failures + 1 >= MAXIMUM_FAILED_ATTEMPTS then Some(attempt.at + LOGIN_BLOCK_DURATION) else None;
      attempts := attempts + [Attempt(attempt.username, false, attempt.at, newBlock)];
      return Failure(newBlock);
    }
  }

  // ---- Runs ----

  function Log(tries: seq<Try>): (r: seq<Attempt>)
    ensures |r| == |tries|
  {
    if tries == [] then []
    else
      var last := tries[|tries| - 1];
      var log := Log(tries[..|tries| - 1]);
      log + [RowOf(last, Decide(Newest(log, last.username), last))]
  }

  /** What request `i` of a run is answered. */
  function OutcomeAt(tries: seq<Try>, i: nat): Outcome
    requires i < |tries|
  {
    Decide(Newest(Log(tries[..i]), tries[i].username), tries[i])
  }

  ghost predicate Forward(tries: seq<Try>) {
    forall i, j :: 0 <= i < j < |tries| ==> tries[i].at <= tries[j].at
  }

  // ---- The counter ----

  datatype Counter = Counter(failures: nat, blockedUntil: Option<int>)

  function CounterDecide(c: Counter, attempt: Try): Outcome {
    if c.blockedUntil.Some? && c.blockedUntil.value > attempt.at then Rejected(c.blockedUntil.value)
    else if attempt.ok then Accepted
    else Failure(if c.failures + 1 == MAXIMUM_FAILED_ATTEMPTS then Some(attempt.at + LOGIN_BLOCK_DURATION) else None)
  }

  function CounterStep(c: Counter, outcome: Outcome): Counter {
    match outcome
    case Rejected(_) => c
    case Accepted => c.(failures := 0)
    case Failure(None) => c.(failures := c.failures + 1)
    case Failure(Some(until)) => Counter(0, Some(until))
  }

  /** The counter of a username after a run. */
  function CounterOf(tries: seq<Try>, username: Username): Counter {
    if tries == [] then Counter(0, None)
    else
      var last := tries[|tries| - 1];
      var c := CounterOf(tries[..|tries| - 1], username);
      if last.username == username then CounterStep(c, CounterDecide(c, last)) else c
  }

  /** The counter as the log shows it. A block that is over counts as the last row it was written in:
      while the newest row carries a block, no failure is counted. */
  ghost predicate Shows(rows: seq<Attempt>, c: Counter) {
    c.failures < MAXIMUM_FAILED_ATTEMPTS && Leading(rows) == c.failures && LatestBlock(rows) == c.blockedUntil
  }

  lemma InsertLatest(rows: seq<Attempt>, row: Attempt)
    requires forall i :: 0 <= i < |rows| ==> rows[i].at <= row.at
    ensures Insert(rows, row) == [row] + rows
  {
  }

  lemma {:induction false} NewestBound(log: seq<Attempt>, username: Username, bound: int)
    requires forall i :: 0 <= i < |log| ==> log[i].at <= bound
    ensures forall i :: 0 <= i < |Newest(log, username)| ==> Newest(log, username)[i].at <= bound
  {
    if log != [] {
      NewestBound(log[..|log| - 1], username, bound);
      InsertBound(Newest(log[..|log| - 1], username), log[|log| - 1], bound);
    }
  }

  lemma {:induction false} InsertBound(rows: seq<Attempt>, row: Attempt, bound: int)
    requires row.at <= bound && forall i :: 0 <= i < |rows| ==> rows[i].at <= bound
    ensures forall i :: 0 <= i < |Insert(rows, row)| ==> Insert(rows, row)[i].at <= bound
  {
    if rows != [] && rows[0].at > row.at {
      InsertBound(rows[1..], row, bound);
    }
  }

  lemma {:induction false} LogTimes(tries: seq<Try>)
    ensures forall i :: 0 <= i < |tries| ==> Log(tries)[i].at == tries[i].at
  {
    if tries != [] {
      LogTimes(tries[..|tries| - 1]);
    }
  }

  lemma LeadingRecent(rows: seq<Attempt>)
    requires Leading(rows) < MAXIMUM_FAILED_ATTEMPTS
    ensures Leading(Recent(rows)) == Leading(rows)
  {
    if |rows| > MAXIMUM_FAILED_ATTEMPTS {
      LeadingPrefix(rows, MAXIMUM_FAILED_ATTEMPTS);
    }
  }

  lemma {:induction false} LeadingPrefix(rows: seq<Attempt>, n: nat)
    requires Leading(rows) < n <= |rows|
    ensures Leading(rows[..n]) == Leading(rows)
  {
    if !rows[0].successful && rows[0].blockedUntil.None? {
      LeadingPrefix(rows[1..], n - 1);
      assert rows[..n][1..] == rows[1..][..n - 1];
    }
  }

  lemma SameDecision(rows: seq<Attempt>, c: Counter, attempt: Try)
    requires Shows(rows, c)
    ensures Decide(rows, attempt) == CounterDecide(c, attempt)
  {
    LeadingRecent(rows);
  }

  lemma ShowsStep(rows: seq<Attempt>, c: Counter, attempt: Try)
    requires Shows(rows, c) && (c.blockedUntil.Some? && c.blockedUntil.value > attempt.at ==> c.failures == 0)
    ensures Shows([RowOf(attempt, CounterDecide(c, attempt))] + rows, CounterStep(c, CounterDecide(c, attempt)))
  {
    var row := RowOf(attempt, CounterDecide(c, attempt));
    assert ([row] + rows)[1..] == rows;
  }

  /** An active block means that no failure has been counted since it was set. */
  ghost predicate Quiet(c: Counter, now: int) {
    c.blockedUntil.Some? && c.blockedUntil.value > now ==> c.failures == 0
  }

  lemma QuietStep(c: Counter, attempt: Try, later: int)
    requires Quiet(c, attempt.at) && attempt.at <= later
    ensures Quiet(CounterStep(c, CounterDecide(c, attempt)), later)
  {
  }

  /** The log refines the counter: with a clock that does not run backwards, the rows of a username
      show its counter, which never reaches five. */
  lemma {:induction false} LogShowsCounter(tries: seq<Try>, username: Username, now: int)
    requires Forward(tries) && forall i :: 0 <= i < |tries| ==> tries[i].at <= now
    ensures Shows(Newest(Log(tries), username), CounterOf(tries, username))
    ensures Quiet(CounterOf(tries, username), now)
  {
    if tries != [] {
      var n := |tries| - 1;
      var init, last := tries[..n], tries[n];
      LogShowsCounter(init, username, last.at);
      LogShowsCounter(init, last.username, last.at);
      var log := Log(init);
      var c := CounterOf(init, username);
      assert Log(tries)[..n] == log;
      if last.username == username {
        var rows := Newest(log, username);
        SameDecision(rows, c, last);
        LogTimes(init);
        NewestBound(log, username, last.at);
        InsertLatest(rows, RowOf(last, CounterDecide(c, last)));
        ShowsStep(rows, c, last);
        QuietStep(c, last, now);
      }
    }
  }

  /** Every answer of every run is the counter's answer. */
  lemma AnswersAreTheCounters(tries: seq<Try>, i: nat)
    requires Forward(tries) && i < |tries|
    ensures var c := CounterOf(tries[..i], tries[i].username);
            c.failures <= 4 && OutcomeAt(tries, i) == CounterDecide(c, tries[i])
  {
    LogShowsCounter(tries[..i], tries[i].username, tries[i].at);
    SameDecision(Newest(Log(tries[..i]), tries[i].username), CounterOf(tries[..i], tries[i].username), tries[i]);
  }

  // ---- The lockout ----

  function BlockOf(outcome: Outcome): Option<int> {
    match outcome
    case Rejected(until) => Some(until)
    case Accepted => None
    case Failure(block) => block
  }

  lemma CounterSnoc(tries: seq<Try>, n: nat, username: Username)
    requires n < |tries|
    ensures var c := CounterOf(tries[..n], username);
            CounterOf(tries[..n + 1], username) == if tries[n].username == username then CounterStep(c, CounterDecide(c, tries[n])) else c
  {
    assert tries[..n + 1][..n] == tries[..n];
  }

  lemma {:induction false} BlockHolds(tries: seq<Try>, i: nat, j: nat, until: int)
    requires Forward(tries) && i < j < |tries| && BlockOf(OutcomeAt(tries, i)) == Some(until)
    requires tries[j].at < until
    ensures CounterOf(tries[..j], tries[i].username).blockedUntil == Some(until)
    decreases j
  {
    hide Decide, Log, Newest;
    CounterSnoc(tries, j - 1, tries[i].username);
    if j == i + 1 {
      AnswersAreTheCounters(tries, i);
    } else {
      BlockHolds(tries, i, j - 1, until);
    }
  }

  /** Whoever is told to wait until some time is turned away, with the same time, until then, the
      right password or not. */
  lemma Lockout(tries: seq<Try>, i: nat, j: nat, until: int)
    requires Forward(tries) && i < j < |tries| && tries[j].username == tries[i].username
    requires BlockOf(OutcomeAt(tries, i)) == Some(until) && tries[j].at < until
    ensures OutcomeAt(tries, j) == Rejected(until)
  {
    hide Decide, Log, Newest;
    BlockHolds(tries, i, j, until);
    AnswersAreTheCounters(tries, j);
  }

  /** Conversely, every block has a cause: a verified failure of the same user set it, exactly fifteen
      minutes before its end. */
  lemma {:induction false} BlockHasCause(tries: seq<Try>, n: nat, username: Username)
    requires Forward(tries) && n <= |tries| && CounterOf(tries[..n], username).blockedUntil.Some?
    ensures var until := CounterOf(tries[..n], username).blockedUntil.value;
            exists i :: 0 <= i < n && tries[i].username == username && !tries[i].ok
              && OutcomeAt(tries, i) == Failure(Some(until)) && until == tries[i].at + LOGIN_BLOCK_DURATION
  {
    hide Decide, Log, Newest;
    if n > 0 {
      CounterSnoc(tries, n - 1, username);
      AnswersAreTheCounters(tries, n - 1);
      var before := CounterOf(tries[..n - 1], username).blockedUntil;
      if before == CounterOf(tries[..n], username).blockedUntil {
        BlockHasCause(tries, n - 1, username);
      }
    }
  }

  /** Request `j` was a wrong password that blocked its user until some time. */
  ghost predicate Blocks(tries: seq<Try>, j: nat, username: Username, until: int)
    requires j < |tries|
  {
    tries[j].username == username && !tries[j].ok && OutcomeAt(tries, j) == Failure(Some(until))
  }

  /** A request is turned away exactly while a block set by an earlier wrong password of the same user
      lasts; otherwise the password alone decides. */
  lemma AnswerIff(tries: seq<Try>, i: nat, until: int)
    requires Forward(tries) && i < |tries|
    ensures OutcomeAt(tries, i) == Rejected(until) <==>
              tries[i].at < until && exists j :: 0 <= j < i && Blocks(tries, j, tries[i].username, until)
    ensures !OutcomeAt(tries, i).Rejected? ==> (OutcomeAt(tries, i).Accepted? <==> tries[i].ok)
  {
    hide Decide, Log, Newest;
    var username := tries[i].username;
    AnswersAreTheCounters(tries, i);
    if OutcomeAt(tries, i) == Rejected(until) {
      BlockHasCause(tries, i, username);
      var j :| 0 <= j < i && tries[j].username == username && !tries[j].ok && OutcomeAt(tries, j) == Failure(Some(until));
      assert Blocks(tries, j, username, until);
    }
    forall j | 0 <= j < i && Blocks(tries, j, username, until) && tries[i].at < until
      ensures OutcomeAt(tries, i) == Rejected(until)
    {
      Lockout(tries, j, i, until);
    }
  }

  /** After a success and after a block the count starts again. */
  predicate EndsStreak(tries: seq<Try>, i: nat, username: Username)
    requires i < |tries|
  {
    tries[i].username == username && (OutcomeAt(tries, i).Accepted? || (OutcomeAt(tries, i).Failure? && OutcomeAt(tries, i).newBlock.Some?))
  }

  ghost predicate Streak(tries: seq<Try>, from: nat, n: nat, username: Username)
    requires from <= n <= |tries|
  {
    && (from > 0 ==> EndsStreak(tries, from - 1, username))
    && forall i :: from <= i < n ==> !EndsStreak(tries, i, username)
  }

  /** The wrong passwords of a user among the requests `from` to `n`. */
  function Misses(tries: seq<Try>, from: nat, n: nat, username: Username): nat
    requires from <= n <= |tries|
  {
    if n == from then 0
    else Misses(tries, from, n - 1, username) + if Verified(tries, n - 1, username) then 1 else 0
  }

  lemma {:induction false} CounterIsStreak(tries: seq<Try>, from: nat, n: nat, username: Username)
    requires Forward(tries) && from <= n <= |tries| && Streak(tries, from, n, username)
    ensures CounterOf(tries[..n], username).failures == Misses(tries, from, n, username)
  {
    hide Decide, Log, Newest, OutcomeAt;
    if n > 0 {
      CounterSnoc(tries, n - 1, username);
      if tries[n - 1].username == username {
        AnswersAreTheCounters(tries, n - 1);
      }
      if from < n {
        assert !EndsStreak(tries, n - 1, username);
        CounterIsStreak(tries, from, n - 1, username);
      }
    }
  }

  /** The fifth wrong password in a row blocks for fifteen minutes, and no other does. */
  lemma FifthFailureBlocks(tries: seq<Try>, from: nat, i: nat)
    requires Forward(tries) && from <= i < |tries| && Streak(tries, from, i, tries[i].username)
    requires Verified(tries, i, tries[i].username)
    ensures var before := Misses(tries, from, i, tries[i].username);
            && before <= 4
            && OutcomeAt(tries, i) == Failure(if before == 4 then Some(tries[i].at + 15 * 60) else None)
  {
    hide Decide, Log, Newest, OutcomeAt;
    CounterIsStreak(tries, from, i, tries[i].username);
    AnswersAreTheCounters(tries, i);
  }

  // ---- Guessing ----

  /** A password was checked and found wrong. */
  predicate Verified(tries: seq<Try>, i: nat, username: Username)
    requires i < |tries|
  {
    tries[i].username == username && OutcomeAt(tries, i).Failure?
  }

  predicate Within(at: int, start: int) {
    start <= at < start + LOGIN_BLOCK_DURATION
  }

  /** The verified failures of a username in the window, among the first `n` requests. */
  function Guesses(tries: seq<Try>, n: nat, username: Username, start: int): nat
    requires n <= |tries|
  {
    if n == 0 then 0
    else
      Guesses(tries, n - 1, username, start) +
      if Within(tries[n - 1].at, start) && Verified(tries, n - 1, username) then 1 else 0
  }

  lemma {:induction false} GuessesBound(tries: seq<Try>, n: nat, username: Username, start: int)
    requires Forward(tries) && n <= |tries|
    requires forall i :: 0 <= i < n && Within(tries[i].at, start) && tries[i].username == username ==> !OutcomeAt(tries, i).Accepted?
    ensures Guesses(tries, n, username, start) <= MAXIMUM_FAILED_ATTEMPTS
    ensures n > 0 && tries[n - 1].at < start ==> Guesses(tries, n, username, start) == 0
    ensures var c := CounterOf(tries[..n], username);
            (n == 0 || tries[n - 1].at < start + LOGIN_BLOCK_DURATION) ==>
              || (c.blockedUntil.Some? && c.blockedUntil.value >= start + LOGIN_BLOCK_DURATION)
              || Guesses(tries, n, username, start) <= c.failures
  {
    hide CounterOf, CounterDecide, CounterStep, OutcomeAt;
    if n > 0 {
      GuessesBound(tries, n - 1, username, start);
      CounterSnoc(tries, n - 1, username);
      if tries[n - 1].username == username {
        AnswersAreTheCounters(tries, n - 1);
        GuessCounted(CounterOf(tries[..n - 1], username), tries[n - 1], Guesses(tries, n - 1, username, start), start);
      }
    }
  }

  /** One more request: `guesses` are covered by the failures counted, or by a block that outlasts the
      window. */
  lemma GuessCounted(c: Counter, attempt: Try, guesses: nat, start: int)
    requires c.failures < MAXIMUM_FAILED_ATTEMPTS && guesses <= MAXIMUM_FAILED_ATTEMPTS
    requires attempt.at < start ==> guesses == 0
    requires attempt.at < start + LOGIN_BLOCK_DURATION ==>
               (c.blockedUntil.Some? && c.blockedUntil.value >= start + LOGIN_BLOCK_DURATION) || guesses <= c.failures
    requires Within(attempt.at, start) ==> !CounterDecide(c, attempt).Accepted?
    ensures var next := CounterStep(c, CounterDecide(c, attempt));
            var more := guesses + if Within(attempt.at, start) && CounterDecide(c, attempt).Failure? then 1 else 0;
            && more <= MAXIMUM_FAILED_ATTEMPTS
            && (attempt.at < start + LOGIN_BLOCK_DURATION ==>
                  (next.blockedUntil.Some? && next.blockedUntil.value >= start + LOGIN_BLOCK_DURATION) || more <= next.failures)
  {
  }

  /** In any fifteen minutes without a successful login, at most five passwords of a user are checked
      and found wrong. */
  lemma AtMostFiveGuesses(tries: seq<Try>, username: Username, start: int)
    requires Forward(tries)
    requires forall i :: 0 <= i < |tries| && Within(tries[i].at, start) && tries[i].username == username ==> !OutcomeAt(tries, i).Accepted?
    ensures Guesses(tries, |tries|, username, start) <= MAXIMUM_FAILED_ATTEMPTS
  {
    GuessesBound(tries, |tries|, username, start);
  }
}
