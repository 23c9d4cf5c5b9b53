/** What the breaker's history says about its state, and what a failing endpoint is spared. */
module BreakerLaws {
  import opened Backoff
  import opened Breaker

  // ------------------------------------------------- the state is a function of history

  /** Failures recorded since the last success, or since the start. */
  function FailuresSince(events: seq<Event>): nat {
    if |events| == 0 || events[|events| - 1].Success? then 0
    else FailuresSince(events[..|events| - 1]) + (if events[|events| - 1].Failure? then 1 else 0)
  }

  /**
   * Closed exactly below the threshold, which a configured zero makes one; the counter is the number
   * of failures while closed and the threshold otherwise, so it never saturates.
   */
  lemma {:induction false} HistoryDecides(config: BreakerConfig, events: seq<Event>)
    ensures var inner, n := Run(config, events), FailuresSince(events);
      && (inner.state.Closed? <==> n < config.Threshold())
      && (inner.state.Closed? <==> n < config.failureThreshold || n == 0)
      && inner.failures == Min(n, config.Threshold())
  {
    if |events| > 0 {
      HistoryDecides(config, events[..|events| - 1]);
    }
  }

  /** The increment never meets the end of the counter's range. */
  lemma {:induction false} NeverSaturates(config: BreakerConfig, events: seq<Event>)
    requires Run(config, events).state.Closed?
    ensures Run(config, events).failures < U32_MAX
  {
    HistoryDecides(config, events);
  }

  // -------------------------------------------------------------- trips and cooldown

  /** The clock does not run backwards between operations. */
  ghost predicate Timed(events: seq<Event>) {
    forall i, j :: 0 <= i <= j < |events| ==> events[i].at <= events[j].at
  }

  /** The state before the `i`-th operation. */
  function At(config: BreakerConfig, events: seq<Event>, i: nat): Inner
    requires i <= |events|
  {
    Run(config, events[..i])
  }

  lemma {:induction false} AtStep(config: BreakerConfig, events: seq<Event>, i: nat)
    requires i < |events|
    ensures At(config, events, i + 1) == Step(config, At(config, events, i), events[i])
  {
    assert events[..i + 1][..i] == events[..i];
  }

  /** The `i`-th operation opens the breaker. */
  predicate Trips(config: BreakerConfig, events: seq<Event>, i: nat)
    requires i < |events|
  {
    !At(config, events, i).state.Open? && At(config, events, i + 1).state.Open?
  }

  ghost predicate NoSuccess(events: seq<Event>, from: nat, to: nat)
    requires from <= to <= |events|
  {
    forall k :: from <= k < to ==> !events[k].Success?
  }

  lemma {:induction false} TripOpensNow(config: BreakerConfig, events: seq<Event>, i: nat)
    requires i < |events| && Trips(config, events, i)
    ensures events[i].Failure? && At(config, events, i + 1).state == Open(events[i].at)
  {
    AtStep(config, events, i);
  }

  /** After a trip and without a success, leaving Open takes the cooldown. */
  lemma {:induction false} AfterTrip(config: BreakerConfig, events: seq<Event>, i: nat, k: nat)
    requires Timed(events) && i < k <= |events| && Trips(config, events, i) && NoSuccess(events, i + 1, k)
    ensures var state := At(config, events, k).state;
      state == Open(events[i].at)
      || (!state.Closed? && events[k - 1].at >= events[i].at + config.openDuration)
  {
    if k == i + 1 {
      TripOpensNow(config, events, i);
    } else {
      AfterTrip(config, events, i, k - 1);
      AtStep(config, events, k - 1);
    }
  }

  /** Trips without a success between them are at least the open duration apart. */
  lemma {:induction false} TripsSpaced(config: BreakerConfig, events: seq<Event>, i: nat, j: nat)
    requires Timed(events) && i < j < |events|
    requires Trips(config, events, i) && Trips(config, events, j) && NoSuccess(events, i + 1, j)
    ensures events[j].at >= events[i].at + config.openDuration
  {
    AfterTrip(config, events, i, j);
  }

  /** How many operations of a range open the breaker. */
  function TripsIn(config: BreakerConfig, events: seq<Event>, from: nat, to: nat): nat
    requires from <= to <= |events|
  {
    if from == to then 0
    else TripsIn(config, events, from, to - 1) + (if Trips(config, events, to - 1) then 1 else 0)
  }

  /** The first and the last trip of a range without a success, and the time all the trips take. */
  lemma {:induction false} TripSpan(config: BreakerConfig, events: seq<Event>, from: nat, to: nat)
    returns (first: nat, last: nat)
    requires Timed(events) && from <= to <= |events| && NoSuccess(events, from, to)
    requires TripsIn(config, events, from, to) > 0
    ensures from <= first <= last < to && Trips(config, events, last)
    ensures events[first].at + (TripsIn(config, events, from, to) - 1) * config.openDuration <= events[last].at
  {
    if !Trips(config, events, to - 1) {
      first, last := TripSpan(config, events, from, to - 1);
    } else if TripsIn(config, events, from, to - 1) == 0 {
      first, last := to - 1, to - 1;
    } else {
      var before: nat;
      first, before := TripSpan(config, events, from, to - 1);
      last := to - 1;
      TripsSpaced(config, events, before, last);
      OneMorePeriod(TripsIn(config, events, from, to - 1) - 1, config.openDuration);
    }
  }

  lemma {:induction false} OneMorePeriod(n: nat, d: nat)
    ensures (n + 1) * d == n * d + d
  {
  }

  /** Without a success, a window sees at most one trip and one more for each whole open duration. */
  lemma {:induction false} TripBound(config: BreakerConfig, events: seq<Event>, from: nat, to: nat, a: nat, b: nat)
    requires Timed(events) && from <= to <= |events| && NoSuccess(events, from, to) && config.openDuration > 0
    requires a <= b && forall k :: from <= k < to ==> a <= events[k].at <= b
    ensures TripsIn(config, events, from, to) <= 1 + (b - a) / config.openDuration
  {
    var n := TripsIn(config, events, from, to);
    if n > 0 {
      var first, last := TripSpan(config, events, from, to);
      WholePeriods(n - 1, b - a, config.openDuration);
    } else {
      WholePeriods(0, b - a, config.openDuration);
    }
  }

  lemma {:induction false} WholePeriods(n: nat, span: nat, d: nat)
    requires d > 0 && n * d <= span
    ensures n <= span / d
  {
    var q := span / d;
    assert span < (q + 1) * d;
    if n > q {
      MulMono(q + 1, n, d);
    }
  }

  // ------------------------------------------------- which operation opens, and for how long

  /** An operation opens the breaker exactly when it is a failure that ends a trial or meets the threshold. */
  lemma {:induction false} TripExact(config: BreakerConfig, events: seq<Event>, i: nat)
    requires i < |events|
    ensures Trips(config, events, i) <==>
            events[i].Failure? && (At(config, events, i).state.HalfOpen?
                                   || FailuresSince(events[..i]) + 1 == config.Threshold())
  {
    AtStep(config, events, i);
    HistoryDecides(config, events[..i]);
  }

  /** The cooldown of a breaker opened at an instant is over; one of no length always is. */
  predicate Ready(config: BreakerConfig, openedAt: nat, now: nat) {
    config.openDuration == 0 || openedAt + config.openDuration <= now
  }

  /** A call after the cooldown of the trip `i`. */
  predicate Probe(config: BreakerConfig, events: seq<Event>, i: nat, k: nat)
    requires i < |events| && k < |events|
  {
    events[k].Acquire? && Ready(config, events[i].at, events[k].at)
  }

  /** Nothing but refused calls and late failures between the trip `i` and the operation `k`. */
  ghost predicate Quiet(config: BreakerConfig, events: seq<Event>, i: nat, k: nat)
    requires i < k <= |events|
  {
    forall j :: i < j < k ==> !events[j].Success? && !Probe(config, events, i, j)
  }

  lemma {:induction false} QuietStaysOpen(config: BreakerConfig, events: seq<Event>, i: nat, k: nat)
    requires i < k <= |events| && Trips(config, events, i) && Quiet(config, events, i, k)
    ensures At(config, events, k).state == Open(events[i].at)
  {
    if k == i + 1 {
      TripOpensNow(config, events, i);
    } else {
      QuietStaysOpen(config, events, i, k - 1);
      AtStep(config, events, k - 1);
    }
  }

  /**
   * After a trip, until a success or a call past the cooldown, the breaker is open since that trip,
   * whatever fails late; and a call is admitted exactly when the cooldown of that trip is over.
   */
  lemma {:induction false} OpenExact(config: BreakerConfig, events: seq<Event>, i: nat, now: nat)
    requires i < |events| && Trips(config, events, i) && Quiet(config, events, i, |events|)
    ensures Run(config, events).state == Open(events[i].at)
    ensures Admits(config, Run(config, events), now) <==> Ready(config, events[i].at, now)
  {
    QuietStaysOpen(config, events, i, |events|);
    assert events[..|events|] == events;
  }

  /** No success and no further trip since the trip `i`. */
  ghost predicate LastTrip(config: BreakerConfig, events: seq<Event>, i: nat, k: nat)
    requires i < k <= |events|
  {
    Trips(config, events, i) && forall j :: i < j < k ==> !events[j].Success? && !Trips(config, events, j)
  }

  lemma {:induction false} SinceLastTrip(config: BreakerConfig, events: seq<Event>, i: nat, k: nat)
    requires i < k <= |events| && LastTrip(config, events, i, k)
    ensures At(config, events, k).state
         == if Quiet(config, events, i, k) then Open(events[i].at) else HalfOpen
  {
    if k == i + 1 {
      TripOpensNow(config, events, i);
    } else {
      SinceLastTrip(config, events, i, k - 1);
      AtStep(config, events, k - 1);
      assert Quiet(config, events, i, k) <==>
             Quiet(config, events, i, k - 1) && !Probe(config, events, i, k - 1);
    }
  }

  lemma {:induction false} FindLastTrip(config: BreakerConfig, events: seq<Event>, k: nat) returns (i: nat)
    requires k <= |events| && !At(config, events, k).state.Closed?
    ensures i < k && LastTrip(config, events, i, k)
  {
    AtStep(config, events, k - 1);
    if Trips(config, events, k - 1) {
      i := k - 1;
    } else {
      i := FindLastTrip(config, events, k - 1);
    }
  }

  /**
   * What a breaker that is not closed shows: since its last trip, open until a call comes after the
   * cooldown, and half-open from then on.
   */
  lemma {:induction false} NotClosedExact(config: BreakerConfig, events: seq<Event>) returns (i: nat)
    requires !Run(config, events).state.Closed?
    ensures i < |events| && LastTrip(config, events, i, |events|)
    ensures Run(config, events).state == Open(events[i].at)
            <==> forall k :: i < k < |events| ==> !Probe(config, events, i, k)
    ensures Run(config, events).state == HalfOpen
            <==> exists k :: i < k < |events| && Probe(config, events, i, k)
  {
    assert events[..|events|] == events;
    i := FindLastTrip(config, events, |events|);
    SinceLastTrip(config, events, i, |events|);
  }

  /** A failure long after the trip does not start the cooldown again. */
  lemma {:induction false} LateFailureKeepsCooldown()
    ensures var config := BreakerConfig(1, 10);
      var events := [Acquire(0), Acquire(0), Failure(1), Failure(20)];
      Run(config, events).state == Open(1) && Admits(config, Run(config, events), 21)
  {
    var config := BreakerConfig(1, 10);
    var events := [Acquire(0), Acquire(0), Failure(1), Failure(20)];
    assert events[..2] == [Acquire(0), Acquire(0)] && events[..2][..1] == [Acquire(0)];
    TripExact(config, events, 2);
    assert FailuresSince(events[..2]) == 0;
    OpenExact(config, events, 2, 21);
  }

  /** During the cooldown of a trip no state is half-open, and an open one was opened no earlier. */
  lemma {:induction false} InCooldown(config: BreakerConfig, events: seq<Event>, i: nat, k: nat)
    requires Timed(events) && i < k <= |events| && Trips(config, events, i)
    requires events[k - 1].at < events[i].at + config.openDuration
    ensures var state := At(config, events, k).state;
      !state.HalfOpen? && (state.Open? ==> state.openedAt >= events[i].at)
  {
    if k == i + 1 {
      TripOpensNow(config, events, i);
    } else {
      InCooldown(config, events, i, k - 1);
      AtStep(config, events, k - 1);
    }
  }

  /**
   * Until the cooldown of a trip has passed, a call is admitted exactly when fewer failures than the
   * threshold have been recorded since the last success. "Open lasts the full cooldown" is thus true
   * without a success and false after one.
   */
  lemma {:induction false} CooldownExact(config: BreakerConfig, events: seq<Event>, i: nat, now: nat)
    requires Timed(events) && i < |events| && Trips(config, events, i)
    requires events[|events| - 1].at <= now < events[i].at + config.openDuration
    ensures Admits(config, Run(config, events), now) <==> FailuresSince(events) < config.Threshold()
    ensures NoSuccess(events, i + 1, |events|) ==> !Admits(config, Run(config, events), now)
  {
    assert events[..|events|] == events;
    InCooldown(config, events, i, |events|);
    HistoryDecides(config, events);
    if NoSuccess(events, i + 1, |events|) {
      AfterTrip(config, events, i, |events|);
    }
  }

  /** A call admitted before the trip that succeeds after it ends the cooldown early. */
  lemma {:induction false} LateSuccessEndsCooldown()
    ensures var config := BreakerConfig(1, 10);
      var events := [Acquire(0), Acquire(0), Failure(1), Success(2)];
      Trips(config, events, 2) && Admits(config, Run(config, events), 3)
  {
    var config := BreakerConfig(1, 10);
    var events := [Acquire(0), Acquire(0), Failure(1), Success(2)];
    AtStep(config, events, 0);
    AtStep(config, events, 1);
    AtStep(config, events, 2);
    AtStep(config, events, 3);
    assert events[..4] == events && events[..0] == [];
  }

  // ------------------------------------------------------------- half-open admission

  function Acquires(times: seq<nat>): (events: seq<Event>)
    ensures |events| == |times| && forall i :: 0 <= i < |times| ==> events[i] == Acquire(times[i])
  {
    if |times| == 0 then [] else Acquires(times[..|times| - 1]) + [Acquire(times[|times| - 1])]
  }

  /** The calls admitted to the half-open state a history is in, the one that ended the cooldown included. */
  function Trials(config: BreakerConfig, events: seq<Event>): nat {
    if |events| == 0 || !events[|events| - 1].Acquire? || !Run(config, events).state.HalfOpen? then 0
    else
      var before := events[..|events| - 1];
      1 + (if Run(config, before).state.HalfOpen? then Trials(config, before) else 0)
  }

  /**
   * A half-open breaker has made at least one trial, and exactly one just when the latest operation
   * is the call that ended the cooldown.
   */
  lemma {:induction false} SingleTrialExact(config: BreakerConfig, events: seq<Event>)
    requires Run(config, events).state.HalfOpen?
    ensures |events| > 0 && events[|events| - 1].Acquire? && Trials(config, events) >= 1
    ensures Trials(config, events) == 1 <==> At(config, events, |events| - 1).state.Open?
  {
    if |events| > 0 {
      var before := events[..|events| - 1];
      if Run(config, before).state.HalfOpen? {
        SingleTrialExact(config, before);
      }
    }
  }

  /**
   * A half-open breaker admits every further call until a result is recorded, each one a trial. So a
   * single trial needs that no call follows the one that ended the cooldown.
   */
  lemma {:induction false} HalfOpenAdmitsAll(config: BreakerConfig, events: seq<Event>, times: seq<nat>)
    requires Run(config, events).state.HalfOpen?
    ensures var all := events + Acquires(times);
      && Run(config, all).state.HalfOpen? && (forall now :: Admits(config, Run(config, all), now))
      && Trials(config, all) == Trials(config, events) + |times|
    ensures Trials(config, events + Acquires(times)) <= 1
            <==> At(config, events, |events| - 1).state.Open? && |times| == 0
  {
    SingleTrialExact(config, events);
    if |times| > 0 {
      var init, last := times[..|times| - 1], times[|times| - 1];
      HalfOpenAdmitsAll(config, events, init);
      var all := events + Acquires(times);
      assert all == (events + Acquires(init)) + [Acquire(last)];
      assert all[..|all| - 1] == events + Acquires(init);
      RunSnoc(config, events + Acquires(init), Acquire(last));
    } else {
      assert events + Acquires(times) == events;
    }
  }

  /** Two trials in one half-open period: the call that ends the cooldown, and one more at once. */
  lemma {:induction false} TwoTrials()
    ensures var config, events := BreakerConfig(1, 10), [Failure(0), Acquire(10), Acquire(10)];
      && Run(config, events[..2]).state.HalfOpen? && Admits(config, Run(config, events[..2]), 10)
      && Trials(config, events[..2]) == 1 && Trials(config, events) == 2
  {
    var config, events := BreakerConfig(1, 10), [Failure(0), Acquire(10), Acquire(10)];
    AtStep(config, events, 0);
    AtStep(config, events, 1);
    assert At(config, events, 0) == FRESH && At(config, events, 1).state == Open(0);
    assert events[..2][..1] == events[..1];
    HalfOpenAdmitsAll(config, events[..2], [10]);
    assert Acquires([10]) == [Acquire(10)] && events[..2] + [Acquire(10)] == events;
  }

  /** How many calls of a history were admitted. */
  function AdmittedCalls(config: BreakerConfig, events: seq<Event>): nat {
    if |events| == 0 then 0
    else
      var before, last := events[..|events| - 1], events[|events| - 1];
      AdmittedCalls(config, before) + (if last.Acquire? && Admits(config, Run(config, before), last.at) then 1 else 0)
  }

  // --------------------------------------------------------------------- load bound

  /** A refresh attempt that fails if it is admitted: when it asks, and when it records its failure. */
  datatype Attempt = Attempt(start: nat, end: nat)

  /** The state after one attempt, with nothing else running. */
  function AfterAttempt(config: BreakerConfig, inner: Inner, a: Attempt): Inner {
    if Admits(config, inner, a.start)
    then AfterFailure(config, AfterAcquire(config, inner, a.start), a.end)
    else inner
  }

  /** An attempt is an acquire and, if admitted, a failure in the breaker's history. */
  lemma {:induction false} AttemptIsRun(config: BreakerConfig, events: seq<Event>, a: Attempt)
    ensures var inner := Run(config, events);
      AfterAttempt(config, inner, a)
      == if Admits(config, inner, a.start)
         then Run(config, events + [Acquire(a.start)] + [Failure(a.end)])
         else Run(config, events + [Acquire(a.start)])
  {
    RunSnoc(config, events, Acquire(a.start));
    RunSnoc(config, events + [Acquire(a.start)], Failure(a.end));
  }

  /** How many of the attempts are admitted, one after the other. */
  function AdmittedAttempts(config: BreakerConfig, inner: Inner, attempts: seq<Attempt>): nat
    decreases |attempts|
  {
    if |attempts| == 0 then 0
    else (if Admits(config, inner, attempts[0].start) then 1 else 0)
         + AdmittedAttempts(config, AfterAttempt(config, inner, attempts[0]), attempts[1..])
  }

  /** The attempts lie in the window from `from` to `to`, and none starts before the last has ended. */
  ghost predicate OneByOne(attempts: seq<Attempt>, from: nat, to: nat) {
    |attempts| > 0 ==>
      from <= attempts[0].start <= attempts[0].end <= to && OneByOne(attempts[1..], attempts[0].end, to)
  }

  /** What any reachable state satisfies at a time. */
  predicate Sound(config: BreakerConfig, inner: Inner) {
    inner.state.Closed? ==> inner.failures < config.Threshold()
  }

  /** How many attempts can still be admitted up to `to`, from `now` on. */
  function Budget(config: BreakerConfig, inner: Inner, now: nat, to: nat): nat
    requires config.openDuration > 0 && now <= to && Sound(config, inner)
  {
    match inner.state
    case Closed => config.Threshold() - inner.failures + Periods(to - now, config.openDuration)
    case HalfOpen => 1 + Periods(to - now, config.openDuration)
    case Open(openedAt) =>
      var ready := if openedAt + config.openDuration > now then openedAt + config.openDuration else now;
      if ready > to then 0 else 1 + Periods(to - ready, config.openDuration)
  }

  /** Whole periods in a span. */
  function Periods(span: nat, d: nat): nat
    requires d > 0
  {
    if span < d then 0 else 1 + Periods(span - d, d)
  }

  lemma {:induction false} PeriodsIsDivision(span: nat, d: nat)
    requires d > 0
    ensures Periods(span, d) == span / d
  {
    if span >= d {
      PeriodsIsDivision(span - d, d);
      assert (span - d) / d == span / d - 1 by {
        DivisionStep(span, d);
      }
    } else {
      DivisionUnique(span, d, 0);
    }
  }

  lemma {:induction false} DivisionUnique(n: nat, d: nat, q: nat)
    requires d > 0 && q * d <= n < (q + 1) * d
    ensures n / d == q
  {
    var k := n / d;
    assert k * d <= n < (k + 1) * d;
    if k < q {
      MulMono(k + 1, q, d);
    } else if k > q {
      MulMono(q + 1, k, d);
    }
  }

  lemma {:induction false} DivisionStep(n: nat, d: nat)
    requires 0 < d <= n
    ensures (n - d) / d == n / d - 1
  {
    var q := n / d;
    assert q * d <= n < (q + 1) * d;
    if q > 0 {
      assert (q - 1) * d == q * d - d;
      DivisionUnique(n - d, d, q - 1);
    }
  }

  lemma {:induction false} PeriodsMonotone(a: nat, b: nat, d: nat)
    requires d > 0 && a <= b
    ensures Periods(a, d) <= Periods(b, d)
    decreases b
  {
    if a >= d { PeriodsMonotone(a - d, b - d, d); }
  }

  lemma {:induction false} BudgetShrinks(config: BreakerConfig, inner: Inner, now: nat, later: nat, to: nat)
    requires config.openDuration > 0 && now <= later <= to && Sound(config, inner)
    ensures Budget(config, inner, later, to) <= Budget(config, inner, now, to)
  {
    var d := config.openDuration;
    PeriodsMonotone(to - later, to - now, d);
    if inner.state.Open? {
      var ready := inner.state.openedAt + d;
      if now < ready <= later { PeriodsMonotone(to - later, to - ready, d); }
    }
  }

  lemma {:induction false} AttemptCosts(config: BreakerConfig, inner: Inner, a: Attempt, to: nat)
    requires config.openDuration > 0 && a.start <= a.end <= to && Sound(config, inner)
    ensures Sound(config, AfterAttempt(config, inner, a))
    ensures Budget(config, AfterAttempt(config, inner, a), a.end, to)
            + (if Admits(config, inner, a.start) then 1 else 0)
         <= Budget(config, inner, a.start, to)
  {
    var d := config.openDuration;
    PeriodsMonotone(to - a.end, to - a.start, d);
    if !Admits(config, inner, a.start) {
      BudgetShrinks(config, inner, a.start, a.end, to);
    }
  }

  lemma {:induction false} AdmittedWithinBudget(config: BreakerConfig, inner: Inner, attempts: seq<Attempt>,
                                                from: nat, to: nat)
    requires config.openDuration > 0 && from <= to && Sound(config, inner) && OneByOne(attempts, from, to)
    ensures AdmittedAttempts(config, inner, attempts) <= Budget(config, inner, from, to)
    decreases |attempts|
  {
    if |attempts| > 0 {
      AttemptCosts(config, inner, attempts[0], to);
      AdmittedWithinBudget(config, AfterAttempt(config, inner, attempts[0]), attempts[1..], attempts[0].end, to);
      BudgetShrinks(config, inner, from, attempts[0].start, to);
    }
  }

  /**
   * An endpoint that keeps failing is asked, in any window, at most the threshold plus one call for
   * each whole open duration, whatever happened before the window.
   */
  lemma {:induction false} LoadBound(config: BreakerConfig, before: seq<Event>, attempts: seq<Attempt>, from: nat,
                                     to: nat)
    requires config.openDuration > 0 && from <= to && OneByOne(attempts, from, to)
    ensures AdmittedAttempts(config, Run(config, before), attempts)
         <= config.Threshold() + (to - from) / config.openDuration
  {
    HistoryDecides(config, before);
    var inner := Run(config, before);
    AdmittedWithinBudget(config, inner, attempts, from, to);
    PeriodsIsDivision(to - from, config.openDuration);
    if inner.state.Open? && inner.state.openedAt + config.openDuration > from
       && inner.state.openedAt + config.openDuration <= to {
      PeriodsMonotone(to - (inner.state.openedAt + config.openDuration), to - from, config.openDuration);
    }
  }

  // ------------------------------------------------------------- the bound is reached

  /** A failing attempt as soon as each cooldown of a breaker opened at `at` is over. */
  function Probes(config: BreakerConfig, at: nat, to: nat): seq<Attempt>
    requires config.openDuration > 0
    decreases if at <= to then to - at else 0
  {
    var next := at + config.openDuration;
    if next > to then [] else [Attempt(next, next)] + Probes(config, next, to)
  }

  /** `n` failing attempts at once, then the probes. */
  function Storm(config: BreakerConfig, n: nat, at: nat, to: nat): seq<Attempt>
    requires config.openDuration > 0
  {
    if n == 0 then Probes(config, at, to) else [Attempt(at, at)] + Storm(config, n - 1, at, to)
  }

  lemma {:induction false} FirstAttempt(config: BreakerConfig, inner: Inner, a: Attempt, rest: seq<Attempt>,
                                        from: nat, to: nat)
    requires Admits(config, inner, a.start) && from <= a.start <= a.end <= to && OneByOne(rest, a.end, to)
    ensures OneByOne([a] + rest, from, to)
    ensures AdmittedAttempts(config, inner, [a] + rest)
         == 1 + AdmittedAttempts(config, AfterAttempt(config, inner, a), rest)
  {
    assert ([a] + rest)[1..] == rest;
  }

  lemma {:induction false} ProbesAdmitted(config: BreakerConfig, inner: Inner, at: nat, to: nat)
    requires config.openDuration > 0 && at <= to && inner.state == Open(at)
    ensures OneByOne(Probes(config, at, to), at, to)
    ensures AdmittedAttempts(config, inner, Probes(config, at, to)) == Periods(to - at, config.openDuration)
    decreases if at <= to then to - at else 0
  {
    var next := at + config.openDuration;
    if next <= to {
      var a := Attempt(next, next);
      ProbesAdmitted(config, AfterAttempt(config, inner, a), next, to);
      FirstAttempt(config, inner, a, Probes(config, next, to), at, to);
    }
  }

  lemma {:induction false} StormAdmitted(config: BreakerConfig, inner: Inner, n: nat, at: nat, to: nat)
    requires config.openDuration > 0 && at <= to
    requires if n == 0 then inner.state == Open(at) else inner.state.Closed? && inner.failures + n == config.Threshold()
    ensures OneByOne(Storm(config, n, at, to), at, to)
    ensures AdmittedAttempts(config, inner, Storm(config, n, at, to)) == n + Periods(to - at, config.openDuration)
    decreases n
  {
    if n == 0 {
      ProbesAdmitted(config, inner, at, to);
    } else {
      var a := Attempt(at, at);
      StormAdmitted(config, AfterAttempt(config, inner, a), n - 1, at, to);
      FirstAttempt(config, inner, a, Storm(config, n - 1, at, to), at, to);
    }
  }

  /** The load bound is the least one: in every window some failing attempts reach it. */
  lemma {:induction false} LoadBoundReached(config: BreakerConfig, from: nat, to: nat) returns (attempts: seq<Attempt>)
    requires config.openDuration > 0 && from <= to
    ensures OneByOne(attempts, from, to)
    ensures AdmittedAttempts(config, Run(config, []), attempts)
         == config.Threshold() + (to - from) / config.openDuration
  {
    attempts := Storm(config, config.Threshold(), from, to);
    StormAdmitted(config, FRESH, config.Threshold(), from, to);
    PeriodsIsDivision(to - from, config.openDuration);
  }
}
