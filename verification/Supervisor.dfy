/**
 The process supervisor: four maps, updated in place by the main loop.

 Its specification is one small automaton per service. `Status` is what the
 history of a service says about it; the class proves that its maps represent
 every service's status at all times, and the lemmas about histories then hold
 of every state the loop can reach.
 */
module Supervisor {
  import opened Wrappers

  datatype Service = Juicehost | Juiceback | Juicefront

  const SERVICES: seq<Service> := [Juicehost, Juiceback, Juicefront]

  // Milliseconds on the monotonic clock.
  type Instant = nat

  const MIN_HEALTHY_SECS: nat := 10
  const MAX_CONSECUTIVE_CRASHES: nat := 5
  const MAX_BACKOFF_SECS: nat := 30

  function Pow2(n: nat): nat {
    if n == 0 then 1 else 2 * Pow2(n - 1)
  }

  function RestartBackoffSecs(crashes: nat): nat {
    Min(Pow2(Min(crashes, 5)), MAX_BACKOFF_SECS)
  }

  function ElapsedSecs(since: Instant, now: Instant): nat {
    if now < since then 0 else (now - since) / 1000
  }

  // ---------- Histories ----------

  // What can happen to a service. Clock readings are part of the event: `seen`
  // when the exit was noticed, `noted` when the outcome was recorded.
  datatype Event =
    | Cleared
    | Launch(who: Service, noted: Instant, ok: bool)
    | Exit(who: Service, seen: Instant, noted: Instant, enabled: bool, shutdown: bool)
    | Retry(who: Service, now: Instant, noted: Instant, enabled: bool, ok: bool)

  predicate Concerns(e: Event, who: Service) {
    e.Cleared? || e.who == who
  }

  datatype Reason = NotStarted | LaunchFailed | RestartsDisabled | GaveUp | ShuttingDown

  datatype Status =
    | Off(why: Reason)
    | Running(since: Instant, crashes: nat)
    | Waiting(until: Instant, crashes: nat)

  // The next status after `crashes` failures in a row, the last noted at `noted`.
  function AfterFailure(crashes: nat, noted: Instant, shutdown: bool): Status {
    if crashes >= MAX_CONSECUTIVE_CRASHES then Off(GaveUp)
    else if shutdown then Off(ShuttingDown)
    else Waiting(noted + 1000 * RestartBackoffSecs(crashes), crashes)
  }

  predicate Possible(s: Status, e: Event) {
    match e
    case Cleared => true
    case Launch(_, _, _) => s == Off(NotStarted)
    case Exit(_, _, _, _, _) => s.Running?
    case Retry(_, now, _, _, _) => s.Waiting? && now >= s.until
  }

  function Next(s: Status, e: Event): Status
    requires Possible(s, e)
  {
    match e
    case Cleared => Off(NotStarted)
    case Launch(_, noted, ok) => Launched(ok, noted)
    case Exit(_, seen, noted, enabled, shutdown) =>
      if !enabled then Off(RestartsDisabled)
      else
        AfterFailure(if ElapsedSecs(s.since, seen) >= MIN_HEALTHY_SECS then 0 else s.crashes + 1, noted, shutdown)
    case Retry(_, _, noted, enabled, ok) =>
      if !enabled then Off(RestartsDisabled)
      else if ok then Running(noted, s.crashes)
      else AfterFailure(s.crashes + 1, noted, false)
  }

  // A history the supervisor can have: each event is possible when it happens.
  predicate Legal(log: seq<Event>)
    decreases |log|, 0
  {
    log == [] ||
    (var before, e := log[..|log| - 1], log[|log| - 1];
     Legal(before) && forall who :: Concerns(e, who) ==> Possible(StatusOf(before, who), e))
  }

  function StatusOf(log: seq<Event>, who: Service): Status
    requires Legal(log)
    decreases |log|, 1
  {
    if log == [] then Off(NotStarted)
    else
      var before, e := log[..|log| - 1], log[|log| - 1];
      if Concerns(e, who) then Next(StatusOf(before, who), e) else StatusOf(before, who)
  }

  lemma OneMoreEvent(log: seq<Event>, e: Event)
    requires Legal(log)
    requires forall who :: Concerns(e, who) ==> Possible(StatusOf(log, who), e)
    ensures Legal(log + [e])
    ensures forall who :: StatusOf(log + [e], who)
                          == if Concerns(e, who) then Next(StatusOf(log, who), e) else StatusOf(log, who)
  {
    assert (log + [e])[..|log|] == log;
  }

  // ---------- What every history keeps ----------

  // Start attempts of `who` since it was last cleared or last ran long enough.
  function Attempts(log: seq<Event>, who: Service): nat
    requires Legal(log)
  {
    if log == [] then 0
    else
      var before, e := log[..|log| - 1], log[|log| - 1];
      if !Concerns(e, who) then Attempts(before, who)
      else
        match e
        case Cleared => 0
        case Launch(_, _, _) => 1
        case Exit(_, seen, _, enabled, _) =>
          if enabled && ElapsedSecs(StatusOf(before, who).since, seen) >= MIN_HEALTHY_SECS then 0
          else Attempts(before, who)
        case Retry(_, _, _, enabled, _) => Attempts(before, who) + if enabled then 1 else 0
  }

  // When the last failure of `who` was noted.
  function LastNoted(log: seq<Event>, who: Service): Instant {
    if log == [] then 0
    else
      var e := log[|log| - 1];
      if (e.Exit? || e.Retry?) && e.who == who then e.noted else LastNoted(log[..|log| - 1], who)
  }

  // The crash count is the number of failed attempts, the wait after the n-th is
  // 2^n seconds, and giving up means exactly five failed attempts.
  predicate Accounted(s: Status, attempts: nat, lastNoted: Instant) {
    match s
    case Running(_, crashes) => crashes < MAX_CONSECUTIVE_CRASHES && attempts == crashes + 1
    case Waiting(until, crashes) =>
      crashes < MAX_CONSECUTIVE_CRASHES && attempts == crashes && until == lastNoted + 1000 * Pow2(crashes)
    case Off(why) =>
      attempts <= MAX_CONSECUTIVE_CRASHES && (why == GaveUp ==> attempts == MAX_CONSECUTIVE_CRASHES)
      && (why == NotStarted ==> attempts == 0)
  }

  lemma BackoffDoubles(n: nat)
    requires n < MAX_CONSECUTIVE_CRASHES
    ensures RestartBackoffSecs(n) == Pow2(n) && Pow2(n) in {1, 2, 4, 8, 16}
  {
    assert Pow2(1) == 2;
    assert Pow2(2) == 4;
    assert Pow2(3) == 8;
    assert Pow2(4) == 16;
    assert n == 0 || n == 1 || n == 2 || n == 3 || n == 4;
  }

  lemma FailureIsAccounted(failures: nat, noted: Instant, shutdown: bool)
    requires failures <= MAX_CONSECUTIVE_CRASHES
    ensures Accounted(AfterFailure(failures, noted, shutdown), failures, noted)
  {
    if failures < MAX_CONSECUTIVE_CRASHES {
      BackoffDoubles(failures);
    }
  }

  /** Every status of every history is accounted for. */
  lemma {:induction false} AttemptsAreCounted(log: seq<Event>, who: Service)
    requires Legal(log)
    ensures Accounted(StatusOf(log, who), Attempts(log, who), LastNoted(log, who))
    decreases |log|
  {
    if log != [] {
      var before, e := log[..|log| - 1], log[|log| - 1];
      AttemptsAreCounted(before, who);
      if Concerns(e, who) {
        var s := StatusOf(before, who);
        match e
        case Exit(_, seen, noted, enabled, shutdown) =>
          if enabled {
            FailureIsAccounted(
              if ElapsedSecs(s.since, seen) >= MIN_HEALTHY_SECS then 0 else s.crashes + 1, noted, shutdown);
          }
        case Retry(_, _, noted, enabled, ok) =>
          if enabled && !ok {
            FailureIsAccounted(s.crashes + 1, noted, false);
          }
        case Launch(_, _, _) =>
        case Cleared =>
      }
    }
  }

  // Number of start attempts of `who` from event m on.
  function StartsSince(log: seq<Event>, m: nat, who: Service): nat {
    if |log| <= m then 0
    else
      var e := log[|log| - 1];
      StartsSince(log[..|log| - 1], m, who)
      + if (e.Launch? || (e.Retry? && e.enabled)) && e.who == who then 1 else 0
  }

  // When `who` was last started.
  function LastStart(log: seq<Event>, who: Service): Instant {
    if log == [] then 0
    else
      var e := log[|log| - 1];
      if ((e.Launch? && e.ok) || (e.Retry? && e.enabled && e.ok)) && e.who == who then e.noted
      else LastStart(log[..|log| - 1], who)
  }

  // From event m on, `who` is never found to have run for ten seconds.
  predicate NeverHealthySince(log: seq<Event>, m: nat, who: Service) {
    |log| <= m ||
    (var before, e := log[..|log| - 1], log[|log| - 1];
     NeverHealthySince(before, m, who)
     && (e.Exit? && e.who == who ==> e.seen < LastStart(before, who) + 1000 * MIN_HEALTHY_SECS))
  }

  lemma TenSeconds(since: Instant, seen: Instant)
    ensures ElapsedSecs(since, seen) >= MIN_HEALTHY_SECS <==> seen >= since + 1000 * MIN_HEALTHY_SECS
  {
  }

  lemma {:induction false} RunsSinceStart(log: seq<Event>, who: Service)
    requires Legal(log)
    ensures StatusOf(log, who).Running? ==> StatusOf(log, who).since == LastStart(log, who)
    decreases |log|
  {
    if log != [] {
      RunsSinceStart(log[..|log| - 1], who);
    }
  }

  predicate NoReloadSince(log: seq<Event>, m: nat) {
    forall i :: m <= i < |log| ==> !log[i].Cleared?
  }

  // In any stretch of a history without a reload, a service that is never found
  // to have run for ten seconds is started at most five times, failed spawns
  // included.
  lemma {:induction false} AtMostFiveStarts(log: seq<Event>, m: nat, who: Service)
    requires Legal(log) && NeverHealthySince(log, m, who) && NoReloadSince(log, m)
    ensures StartsSince(log, m, who) <= Attempts(log, who) <= MAX_CONSECUTIVE_CRASHES
    decreases |log|
  {
    AttemptsAreCounted(log, who);
    if |log| > m {
      var before, e := log[..|log| - 1], log[|log| - 1];
      AttemptsAreCounted(before, who);
      AtMostFiveStarts(before, m, who);
      if e.Exit? && e.who == who {
        assert Concerns(e, who) && Possible(StatusOf(before, who), e);
        RunsSinceStart(before, who);
        TenSeconds(StatusOf(before, who).since, e.seen);
      }
    }
  }

  lemma AtMostFiveStartsEach(log: seq<Event>, m: nat)
    requires Legal(log) && NoReloadSince(log, m)
    ensures forall who :: NeverHealthySince(log, m, who) ==> StartsSince(log, m, who) <= MAX_CONSECUTIVE_CRASHES
  {
    forall who | NeverHealthySince(log, m, who) ensures StartsSince(log, m, who) <= MAX_CONSECUTIVE_CRASHES {
      AtMostFiveStarts(log, m, who);
    }
  }

  // No restart comes before its delay is over.
  lemma RestartsWaitTheirTurn(log: seq<Event>, who: Service, now: Instant, noted: Instant, enabled: bool, ok: bool)
    requires Legal(log) && Legal(log + [Retry(who, now, noted, enabled, ok)])
    ensures now >= LastNoted(log, who) + 1000 * Pow2(Attempts(log, who))
  {
    var e := Retry(who, now, noted, enabled, ok);
    assert (log + [e])[..|log|] == log;
    assert Concerns(e, who);
    AttemptsAreCounted(log, who);
  }

  // ---------- The main loop ----------

  datatype Maps = Maps(
    children: map<Service, nat>,
    spawnedAt: map<Service, Instant>,
    crashes: map<Service, nat>,
    pending: map<Service, Instant>)
  {
    // The four maps say of `who` what its status says.
    predicate Represents(who: Service, s: Status) {
      match s
      case Off(why) =>
        who !in children && who !in spawnedAt && who !in pending && (why == NotStarted ==> who !in crashes)
      case Running(since, n) =>
        who in children && who in spawnedAt && who !in pending && spawnedAt[who] == since && CrashCount(who) == n
      case Waiting(until, n) =>
        who !in children && who !in spawnedAt && who in pending && pending[who] == until && CrashCount(who) == n
    }

    function CrashCount(who: Service): nat {
      if who in crashes then crashes[who] else 0
    }

    function StartOf(who: Service): Instant {
      if who in spawnedAt then spawnedAt[who] else 0
    }

    // Both say the same of `who`.
    predicate AgreesOn(m: Maps, who: Service) {
      (who in children <==> who in m.children)
      && (who in spawnedAt <==> who in m.spawnedAt) && (who in spawnedAt ==> spawnedAt[who] == m.spawnedAt[who])
      && (who in pending <==> who in m.pending) && (who in pending ==> pending[who] == m.pending[who])
      && (who in crashes <==> who in m.crashes) && (who in crashes ==> crashes[who] == m.crashes[who])
    }

    ghost predicate Valid(log: seq<Event>) {
      Legal(log) && forall who :: Represents(who, StatusOf(log, who))
    }
  }

  // A step that changes the entry of one service only, and changes it as the
  // event says, keeps the maps valid.
  lemma StepKeepsValid(m: Maps, m': Maps, log: seq<Event>, e: Event)
    requires m.Valid(log) && !e.Cleared? && Possible(StatusOf(log, e.who), e)
    requires forall other :: other != e.who ==> m'.AgreesOn(m, other)
    requires m'.Represents(e.who, Next(StatusOf(log, e.who), e))
    ensures m'.Valid(log + [e])
    ensures forall who :: StatusOf(log + [e], who)
                          == if e.who == who then Next(StatusOf(log, who), e) else StatusOf(log, who)
  {
    OneMoreEvent(log, e);
    forall who ensures m'.Represents(who, StatusOf(log + [e], who)) {
      if who != e.who {
        assert m'.AgreesOn(m, who);
        assert m.Represents(who, StatusOf(log, who));
      }
    }
  }

  // What a valid state holds, without mention of its history.
  lemma EveryReachableState(m: Maps, log: seq<Event>)
    requires m.Valid(log)
    ensures m.children.Keys !! m.pending.Keys && m.spawnedAt.Keys == m.children.Keys
    ensures forall who :: who in m.pending ==>
      m.CrashCount(who) < MAX_CONSECUTIVE_CRASHES
      && m.pending[who] - LastNoted(log, who) == 1000 * Pow2(m.CrashCount(who))
      && Pow2(m.CrashCount(who)) in {1, 2, 4, 8, 16}
    ensures forall who :: Attempts(log, who) <= MAX_CONSECUTIVE_CRASHES
    ensures forall who :: StatusOf(log, who) == Off(GaveUp) ==>
      Attempts(log, who) == MAX_CONSECUTIVE_CRASHES && who !in m.children && who !in m.pending
  {
    forall who ensures m.Represents(who, StatusOf(log, who))
                       && Accounted(StatusOf(log, who), Attempts(log, who), LastNoted(log, who)) {
      AttemptsAreCounted(log, who);
    }
    forall who ensures (who in m.spawnedAt <==> who in m.children) && !(who in m.children && who in m.pending) {
      assert m.Represents(who, StatusOf(log, who));
    }
    forall who | who in m.pending
      ensures m.CrashCount(who) < MAX_CONSECUTIVE_CRASHES
              && m.pending[who] - LastNoted(log, who) == 1000 * Pow2(m.CrashCount(who))
              && Pow2(m.CrashCount(who)) in {1, 2, 4, 8, 16}
    {
      assert m.Represents(who, StatusOf(log, who));
      BackoffDoubles(m.CrashCount(who));
    }
  }

  // ---------- Where every service is ----------

  // The last thing that happened to `who`.
  function LastEvent(log: seq<Event>, who: Service): Option<Event> {
    if log == [] then None
    else if Concerns(log[|log| - 1], who) then Some(log[|log| - 1])
    else LastEvent(log[..|log| - 1], who)
  }

  // Failures of `who` in a row: crashes within ten seconds of a start, and failed
  // restarts. A crash after a longer run forgets those before it, itself included.
  function Failures(log: seq<Event>, who: Service): nat {
    if log == [] then 0
    else
      var before, e := log[..|log| - 1], log[|log| - 1];
      if !Concerns(e, who) then Failures(before, who)
      else if e.Exit? && e.enabled then
        if e.seen >= LastStart(before, who) + 1000 * MIN_HEALTHY_SECS then 0 else Failures(before, who) + 1
      else if e.Retry? && e.enabled && !e.ok then Failures(before, who) + 1
      else if e.Exit? || e.Retry? then Failures(before, who)
      else 0
  }

  lemma {:induction false} FailuresAreCrashes(log: seq<Event>, who: Service)
    requires Legal(log)
    ensures var s := StatusOf(log, who);
            (s.Off? || s.crashes == Failures(log, who))
            && (s == Off(NotStarted) || s == Off(LaunchFailed) ==> Failures(log, who) == 0)
            && (s == Off(GaveUp) <==> Failures(log, who) >= MAX_CONSECUTIVE_CRASHES)
            && Failures(log, who) <= MAX_CONSECUTIVE_CRASHES
    decreases |log|
  {
    if log != [] {
      var before, e := log[..|log| - 1], log[|log| - 1];
      FailuresAreCrashes(before, who);
      AttemptsAreCounted(before, who);
      if e.Exit? && e.who == who {
        assert Concerns(e, who) && Possible(StatusOf(before, who), e);
        RunsSinceStart(before, who);
        TenSeconds(StatusOf(before, who).since, e.seen);
      }
    }
  }

  // Where the last event leaves a service, by its status.
  lemma {:induction false} LastEventDecides(log: seq<Event>, who: Service)
    requires Legal(log)
    ensures var s, last, n := StatusOf(log, who), LastEvent(log, who), Failures(log, who);
            (s.Running? <==> last.Some? && ((last.value.Launch? && last.value.ok)
                                            || (last.value.Retry? && last.value.enabled && last.value.ok)))
            && (s.Waiting? <==> n < MAX_CONSECUTIVE_CRASHES && last.Some?
                                && ((last.value.Exit? && last.value.enabled && !last.value.shutdown)
                                    || (last.value.Retry? && last.value.enabled && !last.value.ok)))
            && (s.Running? ==> s.since == last.value.noted)
            && (s.Waiting? ==> s.until == last.value.noted + 1000 * Pow2(n))
    decreases |log|
  {
    FailuresAreCrashes(log, who);
    if log != [] {
      var before, e := log[..|log| - 1], log[|log| - 1];
      if !Concerns(e, who) {
        LastEventDecides(before, who);
      } else {
        FailuresAreCrashes(before, who);
        WaitAfterFailure(Failures(log, who));
        if e.Exit? {
          RunsSinceStart(before, who);
          TenSeconds(StatusOf(before, who).since, e.seen);
        }
      }
    }
  }

  lemma WaitAfterFailure(n: nat)
    ensures n < MAX_CONSECUTIVE_CRASHES ==> RestartBackoffSecs(n) == Pow2(n)
  {
    if n < MAX_CONSECUTIVE_CRASHES {
      BackoffDoubles(n);
    }
  }

  /** Where every service is in every reachable state. It has a child exactly if
      its last event started it. It is pending exactly if its last event is an
      enabled exit with no shutdown asked for or an enabled restart that failed,
      and it has failed less than five times in a row; the restart is due after
      1, 2, 4, 8 or 16 seconds, doubling with each failure. */
  lemma EveryService(m: Maps, log: seq<Event>, who: Service)
    requires m.Valid(log)
    ensures var last, n := LastEvent(log, who), Failures(log, who);
            (who in m.children <==> last.Some? && ((last.value.Launch? && last.value.ok)
                                                   || (last.value.Retry? && last.value.enabled && last.value.ok)))
            && (who in m.pending <==> n < MAX_CONSECUTIVE_CRASHES && last.Some?
                                      && ((last.value.Exit? && last.value.enabled && !last.value.shutdown)
                                          || (last.value.Retry? && last.value.enabled && !last.value.ok)))
            && (who in m.children ==> who in m.spawnedAt && m.spawnedAt[who] == last.value.noted)
            && (who in m.pending ==> m.pending[who] == last.value.noted + 1000 * Pow2(n)
                                     && Pow2(n) in {1, 2, 4, 8, 16})
            && (who in m.children || who in m.pending ==> m.CrashCount(who) == n)
  {
    assert m.Represents(who, StatusOf(log, who));
    LastEventDecides(log, who);
    FailuresAreCrashes(log, who);
    if Failures(log, who) < MAX_CONSECUTIVE_CRASHES {
      BackoffDoubles(Failures(log, who));
    }
  }

  function Position(who: Service): (p: nat)
    ensures p < |SERVICES| && SERVICES[p] == who
  {
    match who
    case Juicehost => 0
    case Juiceback => 1
    case Juicefront => 2
  }

  function Launched(ok: bool, noted: Instant): Status {
    if ok then Running(noted, 0) else Off(LaunchFailed)
  }

  // The first `n` services are launched, the others not yet.
  ghost predicate LaunchedUpTo(log: seq<Event>, pids: map<Service, nat>, noted: Service -> Instant, n: nat)
    requires Legal(log)
  {
    forall who :: StatusOf(log, who)
                  == if Position(who) < n then Launched(who in pids, noted(who)) else Off(NotStarted)
  }

  // The children once the first n services are launched.
  ghost predicate ChildrenUpTo(children: map<Service, nat>, pids: map<Service, nat>, n: nat) {
    forall who :: if who in pids && Position(who) < n then who in children && children[who] == pids[who]
                  else who !in children
  }

  lemma ChildrenStep(children: map<Service, nat>, pids: map<Service, nat>, i: nat)
    requires i < |SERVICES| && ChildrenUpTo(children, pids, i)
    ensures var who := SERVICES[i];
            ChildrenUpTo(if who in pids then children[who := pids[who]] else children, pids, i + 1)
  {
    var who := SERVICES[i];
    var later := if who in pids then children[who := pids[who]] else children;
    ServiceAt(i);
    forall other ensures if other in pids && Position(other) < i + 1
                         then other in later && later[other] == pids[other] else other !in later {
      SamePosition(other, who);
    }
  }

  // What the environment answers to a due restart.
  datatype Attempt = Attempt(noted: Instant, enabled: bool, pid: Option<nat>)

  datatype Verdict = Continue | Stopping | AllFailed

  // What the environment does in one turn. `reload` holds the new process ids when
  // the sources changed, the build succeeded and no shutdown was asked for by then.
  datatype Turn = Turn(
    reload: Option<map<Service, nat>>, noted: Service -> Instant, exited: Service -> Option<Event>,
    now: Instant, attempt: Service -> Attempt, shutdown: bool)

  predicate ExitsOf(exited: Service -> Option<Event>) {
    forall who :: exited(who).Some? ==> exited(who).value.Exit? && exited(who).value.who == who
  }

  function RetryOf(who: Service, now: Instant, attempt: Attempt): Event {
    Retry(who, now, attempt.noted, attempt.enabled, attempt.pid.Some?)
  }

  // No service has two of these events.
  predicate OnePerService(events: seq<Event>) {
    (forall i :: 0 <= i < |events| ==> !events[i].Cleared?)
    && forall i, j :: 0 <= i < j < |events| ==> events[i].who != events[j].who
  }

  // Exits that were noticed, at most one of each of the first n services.
  predicate AreExits(events: seq<Event>, exited: Service -> Option<Event>, n: nat) {
    OnePerService(events)
    && forall i :: 0 <= i < |events| ==> exited(events[i].who) == Some(events[i]) && Position(events[i].who) < n
  }

  lemma OneMoreExit(events: seq<Event>, exited: Service -> Option<Event>, who: Service)
    requires ExitsOf(exited) && AreExits(events, exited, Position(who))
    ensures AreExits(events, exited, Position(who) + 1)
    ensures exited(who).Some? ==> AreExits(events + [exited(who).value], exited, Position(who) + 1)
  {
  }

  // Retries at `now`, at most one of each of `services`.
  predicate AreRetries(events: seq<Event>, now: Instant, attempt: Service -> Attempt, services: set<Service>) {
    OnePerService(events)
    && forall i :: 0 <= i < |events| ==>
         events[i] == RetryOf(events[i].who, now, attempt(events[i].who)) && events[i].who in services
  }

  lemma OneMoreRetry(
      events: seq<Event>, now: Instant, attempt: Service -> Attempt, services: set<Service>, who: Service)
    requires AreRetries(events, now, attempt, services) && who !in services
    ensures AreRetries(events + [RetryOf(who, now, attempt(who))], now, attempt, services + {who})
  {
  }

  // The statuses once `services` have been retried.
  ghost predicate RetriedAll(
    before: seq<Event>, log: seq<Event>, now: Instant, attempt: Service -> Attempt, services: set<Service>)
    requires Legal(before) && Legal(log)
  {
    forall who :: StatusOf(log, who)
                  == if who in services then AfterRetry(StatusOf(before, who), who, now, attempt(who))
                     else StatusOf(before, who)
  }

  // `exits` came on top of `before`, of the first n services.
  ghost predicate ExitsDone(
    before: seq<Event>, log: seq<Event>, exits: seq<Event>, exited: Service -> Option<Event>, n: nat)
    requires Legal(before) && Legal(log) && ExitsOf(exited)
  {
    log == before + exits && AreExits(exits, exited, n) && PolledUpTo(before, log, exited, n)
  }

  lemma ServiceAt(i: nat)
    requires i < |SERVICES|
    ensures Position(SERVICES[i]) == i
  {
  }

  lemma SamePosition(a: Service, b: Service)
    ensures Position(a) == Position(b) <==> a == b
  {
  }

  lemma MorePolled(
      before: seq<Event>, log: seq<Event>, log': seq<Event>, exited: Service -> Option<Event>, who: Service)
    requires Legal(before) && Legal(log) && Legal(log') && ExitsOf(exited)
    requires PolledUpTo(before, log, exited, Position(who))
    requires forall other ::
      StatusOf(log', other) == if other == who then AfterPoll(StatusOf(log, who), exited(who)) else StatusOf(log, other)
    ensures PolledUpTo(before, log', exited, Position(who) + 1)
  {
    forall other
      ensures StatusOf(log', other)
              == if Position(other) < Position(who) + 1 then AfterPoll(StatusOf(before, other), exited(other))
                 else StatusOf(before, other) {
      SamePosition(other, who);
    }
  }

  lemma MoreExits(
      before: seq<Event>, log: seq<Event>, log': seq<Event>, exits: seq<Event>, exited: Service -> Option<Event>,
      who: Service, noticed: bool)
    requires Legal(before) && Legal(log) && Legal(log') && ExitsOf(exited)
    requires ExitsDone(before, log, exits, exited, Position(who))
    requires noticed <==> StatusOf(log, who).Running? && exited(who).Some?
    requires log' == if noticed then log + [exited(who).value] else log
    requires forall other ::
      StatusOf(log', other) == if other == who then AfterPoll(StatusOf(log, who), exited(who)) else StatusOf(log, other)
    ensures ExitsDone(before, log', if noticed then exits + [exited(who).value] else exits, exited, Position(who) + 1)
  {
    MorePolled(before, log, log', exited, who);
    if noticed {
      Regroup(before, exits, [exited(who).value]);
    }
    OneMoreExit(exits, exited, who);
  }

  // `retries` came on top of `before` and retried `done`.
  ghost predicate RetriesDone(
    before: seq<Event>, log: seq<Event>, retries: seq<Event>, now: Instant, attempt: Service -> Attempt,
    done: set<Service>)
    requires Legal(before) && Legal(log)
  {
    log == before + retries && AreRetries(retries, now, attempt, done) && RetriedAll(before, log, now, attempt, done)
  }

  lemma MoreRetries(
      before: seq<Event>, log: seq<Event>, log': seq<Event>, retries: seq<Event>, now: Instant,
      attempt: Service -> Attempt, done: set<Service>, who: Service)
    requires Legal(before) && Legal(log) && Legal(log') && who !in done
    requires RetriesDone(before, log, retries, now, attempt, done)
    requires log' == log + [RetryOf(who, now, attempt(who))]
    requires forall other ::
      StatusOf(log', other)
      == if other == who then AfterRetry(StatusOf(log, who), who, now, attempt(who)) else StatusOf(log, other)
    ensures RetriesDone(before, log', retries + [RetryOf(who, now, attempt(who))], now, attempt, done + {who})
  {
    Regroup(before, retries, [RetryOf(who, now, attempt(who))]);
    OneMoreRetry(retries, now, attempt, done, who);
  }

  // The statuses once the first n services have been looked at.
  ghost predicate PolledUpTo(before: seq<Event>, log: seq<Event>, exited: Service -> Option<Event>, n: nat)
    requires Legal(before) && Legal(log) && ExitsOf(exited)
  {
    forall who :: StatusOf(log, who)
                  == if Position(who) < n then AfterPoll(StatusOf(before, who), exited(who))
                     else StatusOf(before, who)
  }

  lemma NoReloadJoins(start: seq<Event>, before: seq<Event>, log: seq<Event>)
    requires start <= before <= log
    ensures NoReloadSince(before, |start|) && NoReloadSince(log, |before|) ==> NoReloadSince(log, |start|)
  {
  }

  function AfterPoll(s: Status, exited: Option<Event>): Status
    requires exited.Some? ==> exited.value.Exit?
  {
    if s.Running? && exited.Some? then Next(s, exited.value) else s
  }

  predicate IsDue(s: Status, now: Instant) {
    s.Waiting? && now >= s.until
  }

  function AfterRetry(s: Status, who: Service, now: Instant, attempt: Attempt): Status {
    if IsDue(s, now) then Next(s, Retry(who, now, attempt.noted, attempt.enabled, attempt.pid.Some?)) else s
  }

  // A service's status after a turn: a reload, if any, then its exit, then its
  // restart, if it is due.
  function AfterTurn(t: Turn, who: Service, s: Status): Status
    requires ExitsOf(t.exited)
  {
    var launched := if t.reload.Some? then Launched(who in t.reload.value, t.noted(who)) else s;
    AfterRetry(AfterPoll(launched, t.exited(who)), who, t.now, t.attempt(who))
  }

  function AfterTurns(turns: seq<Turn>, who: Service, s: Status): Status
    requires forall i :: 0 <= i < |turns| ==> ExitsOf(turns[i].exited)
  {
    if turns == [] then s
    else AfterTurn(turns[|turns| - 1], who, AfterTurns(turns[..|turns| - 1], who, s))
  }

  predicate NoReload(turns: seq<Turn>) {
    forall i :: 0 <= i < |turns| ==> turns[i].reload.None?
  }

  // What `turns` have come to.
  ghost predicate Ran(before: seq<Event>, log: seq<Event>, turns: seq<Turn>)
    requires Legal(before) && Legal(log) && forall i :: 0 <= i < |turns| ==> ExitsOf(turns[i].exited)
  {
    before <= log
    && (forall who :: StatusOf(log, who) == AfterTurns(turns, who, StatusOf(before, who)))
    && (NoReload(turns) ==> NoReloadSince(log, |before|))
  }

  lemma OneMoreTurn(before: seq<Event>, log: seq<Event>, log': seq<Event>, turns: seq<Turn>, t: Turn)
    requires Legal(before) && Legal(log) && Legal(log') && log <= log'
    requires ExitsOf(t.exited) && forall i :: 0 <= i < |turns| ==> ExitsOf(turns[i].exited)
    requires Ran(before, log, turns)
    requires forall who :: StatusOf(log', who) == AfterTurn(t, who, StatusOf(log, who))
    requires t.reload.None? ==> NoReloadSince(log', |log|)
    ensures Ran(before, log', turns + [t])
  {
    assert (turns + [t])[..|turns|] == turns;
    if NoReload(turns + [t]) {
      assert (turns + [t])[|turns|] == t;
      assert forall i :: 0 <= i < |turns| ==> (turns + [t])[i] == turns[i];
      NoReloadJoins(before, log, log');
    }
  }

  // Every service is off for good.
  predicate AllStopped(log: seq<Event>)
    requires Legal(log)
  {
    forall who :: StatusOf(log, who).Off?
  }

  class Supervisor {
    var children: map<Service, nat>
    var spawnedAt: map<Service, Instant>
    var crashes: map<Service, nat>
    var pending: map<Service, Instant>
    ghost var log: seq<Event>

    function State(): Maps
      reads this
    {
      Maps(children, spawnedAt, crashes, pending)
    }

    ghost predicate Valid()
      reads this
    {
      State().Valid(log)
    }

    constructor ()
      ensures Valid() && log == []
    {
      children, spawnedAt, crashes, pending := map[], map[], map[], map[];
      log := [];
    }

    // One service of the start-up or live-reload loop; `pid` is None when the
    // spawn fails.
    method LaunchOne(who: Service, pid: Option<nat>, noted: Instant)
      requires Valid() && StatusOf(log, who) == Off(NotStarted)
      modifies this
      ensures Valid() && log == old(log) + [Launch(who, noted, pid.Some?)]
      ensures forall other :: StatusOf(log, other)
                              == if other == who then Launched(pid.Some?, noted) else StatusOf(old(log), other)
      ensures children == if pid.Some? then old(children)[who := pid.value] else old(children)
    {
      ghost var before, e := State(), Launch(who, noted, pid.Some?);
      assert before.Represents(who, StatusOf(log, who));
      if pid.Some? {
        children := children[who := pid.value];
        spawnedAt := spawnedAt[who := noted];
      }
      StepKeepsValid(before, State(), log, e);
      log := log + [e];
    }

    // Spawns every service; used at start-up and by a live reload.
    method LaunchAll(pids: map<Service, nat>, noted: Service -> Instant)
      requires Valid() && forall who :: StatusOf(log, who) == Off(NotStarted)
      modifies this
      ensures Valid() && old(log) <= log
      ensures forall who :: StatusOf(log, who) == Launched(who in pids, noted(who))
      ensures children == pids
    {
      forall who ensures who !in children {
        assert State().Represents(who, StatusOf(log, who));
      }
      for i := 0 to |SERVICES|
        invariant Valid() && old(log) <= log && LaunchedUpTo(log, pids, noted, i)
        invariant ChildrenUpTo(children, pids, i)
      {
        var who := SERVICES[i];
        ServiceAt(i);
        forall other ensures Position(other) == i <==> other == who {
          SamePosition(other, who);
        }
        ChildrenStep(children, pids, i);
        LaunchOne(who, if who in pids then Some(pids[who]) else None, noted(who));
      }
      assert forall who :: Position(who) < |SERVICES|;
    }

    // Drops everything known about the services, as a live reload does once the
    // children are stopped.
    method Clear()
      requires Valid()
      modifies this
      ensures Valid() && log == old(log) + [Cleared]
      ensures forall who :: StatusOf(log, who) == Off(NotStarted)
    {
      children, spawnedAt, crashes, pending := map[], map[], map[], map[];
      OneMoreEvent(log, Cleared);
      log := log + [Cleared];
    }

    // The whole of a live reload after a successful build.
    method LiveReload(pids: map<Service, nat>, noted: Service -> Instant)
      requires Valid()
      modifies this
      ensures Valid() && old(log) < log && children == pids
      ensures forall who :: StatusOf(log, who) == Launched(who in pids, noted(who))
    {
      Clear();
      LaunchAll(pids, noted);
    }

    // A child was found to have exited.
    method NoteExit(who: Service, exit: Event)
      requires Valid() && who in children && exit.Exit? && exit.who == who
      modifies this
      ensures Valid() && log == old(log) + [exit]
      ensures forall other ::
        StatusOf(log, other)
        == if other == who then AfterPoll(StatusOf(old(log), who), Some(exit)) else StatusOf(old(log), other)
      ensures who !in children && forall other :: other != who ==> State().AgreesOn(old(State()), other)
      ensures var longRun := exit.seen >= old(State().StartOf(who)) + 1000 * MIN_HEALTHY_SECS;
              var count := if longRun then 0 else old(State().CrashCount(who)) + 1;
              (exit.enabled ==> State().CrashCount(who) == count)
              && (who in pending <==> exit.enabled && !exit.shutdown && count < MAX_CONSECUTIVE_CRASHES)
              && (who in pending ==> pending[who] == exit.noted + 1000 * Pow2(count))
    {
      ghost var before, s := State(), StatusOf(log, who);
      assert before.Represents(who, s);
      DropChild(exit, s);
      StepKeepsValid(before, State(), log, exit);
      log := log + [exit];
    }

    // The maps' part of it.
    method DropChild(exit: Event, ghost s: Status)
      requires exit.Exit? && s.Running? && State().Represents(exit.who, s)
      modifies this`children, this`spawnedAt, this`crashes, this`pending
      ensures State().Represents(exit.who, Next(s, exit))
      ensures exit.who !in children && forall other :: other != exit.who ==> State().AgreesOn(old(State()), other)
      ensures var longRun := exit.seen >= old(State().StartOf(exit.who)) + 1000 * MIN_HEALTHY_SECS;
              var count := if longRun then 0 else old(State().CrashCount(exit.who)) + 1;
              (exit.enabled ==> State().CrashCount(exit.who) == count)
              && (exit.who in pending <==> exit.enabled && !exit.shutdown && count < MAX_CONSECUTIVE_CRASHES)
              && (exit.who in pending ==> pending[exit.who] == exit.noted + 1000 * Pow2(count))
    {
      var who := exit.who;
      TenSeconds(State().StartOf(who), exit.seen);
      children := children - {who};
      var runtimeSecs := if who in spawnedAt then ElapsedSecs(spawnedAt[who], exit.seen) else 0;
      spawnedAt := spawnedAt - {who};
      if !exit.enabled {
        return;
      }
      var count := if runtimeSecs >= MIN_HEALTHY_SECS then 0 else State().CrashCount(who) + 1;
      crashes := crashes[who := count];
      if count >= MAX_CONSECUTIVE_CRASHES {
        return;
      }
      var delay := RestartBackoffSecs(count);
      WaitAfterFailure(count);
      if !exit.shutdown {
        pending := pending[who := exit.noted + 1000 * delay];
      }
    }

    // A pending restart is due.
    method RestartOne(who: Service, now: Instant, attempt: Attempt)
      requires Valid() && who in pending && now >= pending[who]
      modifies this
      ensures Valid() && log == old(log) + [RetryOf(who, now, attempt)]
      ensures forall other ::
        StatusOf(log, other)
        == if other == who then AfterRetry(StatusOf(old(log), who), who, now, attempt) else StatusOf(old(log), other)
      ensures forall other :: other != who ==> State().AgreesOn(old(State()), other)
      ensures var started, count := attempt.enabled && attempt.pid.Some?, old(State().CrashCount(who)) + 1;
              children == (if started then old(children)[who := attempt.pid.value] else old(children))
              && (started ==> State().StartOf(who) == attempt.noted)
              && (who in pending <==> attempt.enabled && !started && count < MAX_CONSECUTIVE_CRASHES)
              && (who in pending ==> pending[who] == attempt.noted + 1000 * Pow2(count))
              && State().CrashCount(who) == if attempt.enabled && !started then count else count - 1
    {
      ghost var before, s, e := State(), StatusOf(log, who), RetryOf(who, now, attempt);
      assert before.Represents(who, s);
      TryAgain(who, now, attempt, s);
      StepKeepsValid(before, State(), log, e);
      log := log + [e];
    }

    // The maps' part of it.
    method TryAgain(who: Service, ghost now: Instant, attempt: Attempt, ghost s: Status)
      requires IsDue(s, now) && State().Represents(who, s)
      modifies this`children, this`spawnedAt, this`crashes, this`pending
      ensures State().Represents(who, Next(s, RetryOf(who, now, attempt)))
      ensures forall other :: other != who ==> State().AgreesOn(old(State()), other)
      ensures var started, count := attempt.enabled && attempt.pid.Some?, old(State().CrashCount(who)) + 1;
              children == (if started then old(children)[who := attempt.pid.value] else old(children))
              && (started ==> State().StartOf(who) == attempt.noted)
              && (who in pending <==> attempt.enabled && !started && count < MAX_CONSECUTIVE_CRASHES)
              && (who in pending ==> pending[who] == attempt.noted + 1000 * Pow2(count))
              && State().CrashCount(who) == if attempt.enabled && !started then count else count - 1
    {
      pending := pending - {who};
      if !attempt.enabled {
        return;
      }
      if attempt.pid.Some? {
        children := children[who := attempt.pid.value];
        spawnedAt := spawnedAt[who := attempt.noted];
      } else {
        WaitAfterFailure(State().CrashCount(who) + 1);
        CountFailure(who, attempt.noted);
      }
    }

    // One more failed restart.
    method CountFailure(who: Service, noted: Instant)
      modifies this`crashes, this`pending
      ensures var count := old(State().CrashCount(who)) + 1;
              crashes == old(crashes)[who := count]
              && pending == if count < MAX_CONSECUTIVE_CRASHES then old(pending)[who := noted + 1000 * Pow2(count)]
                            else old(pending)
    {
      var count := State().CrashCount(who) + 1;
      crashes := crashes[who := count];
      WaitAfterFailure(count);
      if count < MAX_CONSECUTIVE_CRASHES {
        pending := pending[who := noted + 1000 * RestartBackoffSecs(count)];
      }
    }

    // Looks at every child once, in the order of SERVICES. A service whose child
    // has exited takes that step; the others keep their status.
    method PollServices(exited: Service -> Option<Event>) returns (ghost exits: seq<Event>)
      requires Valid() && ExitsOf(exited)
      modifies this
      ensures Valid() && log == old(log) + exits && AreExits(exits, exited, |SERVICES|)
      ensures forall who :: StatusOf(log, who) == AfterPoll(StatusOf(old(log), who), exited(who))
    {
      ghost var before := log;
      exits := [];
      assert log + [] == log;
      for i := 0 to |SERVICES|
        invariant Valid() && ExitsDone(before, log, exits, exited, i)
      {
        ServiceAt(i);
        ghost var earlier := log;
        var noticed := PollOne(SERVICES[i], exited);
        MoreExits(before, earlier, log, exits, exited, SERVICES[i], noticed);
        exits := if noticed then exits + [exited(SERVICES[i]).value] else exits;
      }
    }

    // One service of that loop.
    method PollOne(who: Service, exited: Service -> Option<Event>) returns (ghost noticed: bool)
      requires Valid() && ExitsOf(exited)
      modifies this
      ensures Valid() && (noticed <==> StatusOf(old(log), who).Running? && exited(who).Some?)
      ensures log == if noticed then old(log) + [exited(who).value] else old(log)
      ensures forall other ::
        StatusOf(log, other)
        == if other == who then AfterPoll(StatusOf(old(log), who), exited(who)) else StatusOf(old(log), other)
    {
      assert State().Represents(who, StatusOf(log, who));
      noticed := who in children && exited(who).Some?;
      if who in children && exited(who).Some? {
        NoteExit(who, exited(who).value);
      }
    }

    // Restarts whatever is due, in any order. Each due service takes one retry
    // step; the others keep their status, whatever the order.
    method RestartDue(now: Instant, attempt: Service -> Attempt) returns (ghost retries: seq<Event>)
      requires Valid()
      modifies this
      ensures Valid() && log == old(log) + retries
      ensures AreRetries(retries, now, attempt, set who | IsDue(StatusOf(old(log), who), now))
      ensures forall who :: StatusOf(log, who) == AfterRetry(StatusOf(old(log), who), who, now, attempt(who))
    {
      ghost var before := log;
      retries := [];
      assert log + [] == log;
      var due := DueServices(now);
      ghost var done: set<Service> := {};
      while due != {}
        invariant Valid() && RetriesDone(before, log, retries, now, attempt, done)
        invariant forall who :: who !in done ==> (who in due <==> IsDue(StatusOf(before, who), now))
        invariant forall who :: who in done ==> who !in due && IsDue(StatusOf(before, who), now)
        decreases |due|
      {
        var who :| who in due;
        ghost var earlier := log;
        assert State().Represents(who, StatusOf(log, who));
        RestartOne(who, now, attempt(who));
        MoreRetries(before, earlier, log, retries, now, attempt, done, who);
        retries := retries + [RetryOf(who, now, attempt(who))];
        due, done := due - {who}, done + {who};
      }
    }

    method DueServices(now: Instant) returns (due: set<Service>)
      requires Valid()
      ensures due == set who | IsDue(StatusOf(log, who), now)
      ensures forall who :: who in due <==> who in pending && now >= pending[who]
    {
      due := set who | who in pending && now >= pending[who];
      forall who ensures who in due <==> IsDue(StatusOf(log, who), now) {
        assert State().Represents(who, StatusOf(log, who));
      }
    }

    // One turn of the main loop. Each service takes its own steps and no other,
    // and nothing is dropped but by a reload; the loop goes on exactly while some
    // service is not off and no shutdown is asked for.
    method RunTurn(t: Turn) returns (verdict: Verdict, ghost exits: seq<Event>, ghost retries: seq<Event>)
      requires Valid() && ExitsOf(t.exited)
      modifies this
      ensures Valid() && old(log) <= log
      ensures t.reload.None? ==> log == old(log) + exits + retries
      ensures AreExits(exits, t.exited, |SERVICES|) && AreRetries(retries, t.now, t.attempt, set who | who in SERVICES)
      ensures forall who ::
        StatusOf(log, who)
        == AfterRetry(AfterPoll(if t.reload.Some? then Launched(who in t.reload.value, t.noted(who))
                                else StatusOf(old(log), who),
                                t.exited(who)),
                      who, t.now, t.attempt(who))
      ensures verdict == Continue <==> !t.shutdown && !AllStopped(log)
      ensures verdict == AllFailed ==> AllStopped(log)
    {
      if t.reload.Some? {
        LiveReload(t.reload.value, t.noted);
        AllOff();
        if children.Keys == {} {
          assert AllStopped(log) by {
            forall who ensures StatusOf(log, who).Off? {
              assert State().Represents(who, StatusOf(log, who));
            }
          }
          return AllFailed, [], [];
        }
      }
      exits := PollServices(t.exited);
      retries := RestartDue(t.now, t.attempt);
      forall who: Service ensures who in SERVICES {
        assert SERVICES[Position(who)] == who;
      }
      if t.shutdown {
        verdict := Stopping;
        return;
      }
      AllOff();
      verdict := if children.Keys == {} && pending.Keys == {} then AllFailed else Continue;
    }

    /** The main loop over the turns it is given; it ends early once a turn says
        so. While no turn reloads, a service never found to have run for ten
        seconds is started at most five times, however many turns there are. */
    method Run(turns: seq<Turn>) returns (verdict: Verdict, done: nat)
      requires Valid() && forall i :: 0 <= i < |turns| ==> ExitsOf(turns[i].exited)
      modifies this
      ensures Valid() && done <= |turns| && (done < |turns| ==> verdict != Continue)
      ensures old(log) <= log
      ensures forall who :: StatusOf(log, who) == AfterTurns(turns[..done], who, StatusOf(old(log), who))
      ensures done > 0 && verdict == Continue ==> !AllStopped(log)
      ensures verdict == AllFailed ==> AllStopped(log)
      ensures NoReload(turns[..done]) ==>
        NoReloadSince(log, |old(log)|)
        && forall who :: NeverHealthySince(log, |old(log)|, who) ==>
             StartsSince(log, |old(log)|, who) <= MAX_CONSECUTIVE_CRASHES
    {
      ghost var start := log;
      verdict, done := Continue, 0;
      while done < |turns| && verdict == Continue
        invariant Valid() && done <= |turns| && Ran(start, log, turns[..done])
        invariant done > 0 && verdict == Continue ==> !AllStopped(log)
        invariant verdict == AllFailed ==> AllStopped(log)
      {
        verdict := NextTurn(start, turns, done);
        done := done + 1;
      }
      if NoReload(turns[..done]) {
        AtMostFiveStartsEach(log, |start|);
      }
    }

    // One turn of them.
    method NextTurn(ghost start: seq<Event>, turns: seq<Turn>, done: nat) returns (verdict: Verdict)
      requires Valid() && done < |turns| && forall i :: 0 <= i < |turns| ==> ExitsOf(turns[i].exited)
      requires Legal(start) && Ran(start, log, turns[..done])
      modifies this
      ensures Valid() && Ran(start, log, turns[..done + 1])
      ensures verdict == Continue ==> !AllStopped(log)
      ensures verdict == AllFailed ==> AllStopped(log)
    {
      ghost var before := log;
      ghost var exits, retries;
      verdict, exits, retries := RunTurn(turns[done]);
      assert turns[..done + 1] == turns[..done] + [turns[done]];
      OneMoreTurn(start, before, log, turns[..done], turns[done]);
    }

    lemma AllOff()
      requires Valid()
      ensures children.Keys == {} && pending.Keys == {} <==> AllStopped(log)
    {
      forall who ensures who !in children && who !in pending <==> StatusOf(log, who).Off? {
        assert State().Represents(who, StatusOf(log, who));
      }
      if AllStopped(log) {
        assert children.Keys == {} && pending.Keys == {};
      } else {
        var who :| !StatusOf(log, who).Off?;
        assert who in children.Keys || who in pending.Keys;
      }
    }
  }
}
