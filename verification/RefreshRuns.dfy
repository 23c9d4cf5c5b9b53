/** Many callers refreshing and reading one provider at once, as interleaved atomic steps. */
module RefreshRuns {
  import opened Wrappers
  import opened Backoff
  import opened Breaker
  import opened BreakerLaws
  import opened Provider
  import opened Jwt
  import Retry

  /** Where a refresh stands. A ticket numbers the admitted refreshes. */
  datatype Phase =
    | Fetching(ticket: nat, attempt: nat)
    | Fetched(ticket: nat, jwks: Jwks)
    | Wrote(ticket: nat)
    | Failed(ticket: nat)

  /**
   * The breaker, the cache and the callers; and what a log would show: breaker operations, the number
   * of admitted refreshes, the requests made, the sets decoded, the refreshes that failed, and the
   * writes to the cache.
   */
  datatype State = State(
    inner: Inner,
    cache: Jwks,
    callers: map<nat, Phase>,
    events: seq<Event>,
    admitted: nat,
    requests: set<(nat, nat)>,
    fetches: nat,
    decoded: map<nat, Jwks>,
    failed: set<nat>,
    writes: seq<(nat, Jwks)>)

  datatype Action =
    | Begin(caller: nat, at: nat)
    | FetchReturns(caller: nat, at: nat, fetch: Fetch)
    | WriteCache(caller: nat, at: nat)
    | Record(caller: nat, at: nat)

  function Start(initial: Jwks): State {
    State(FRESH, initial, map[], [], 0, {}, 0, map[], {}, [])
  }

  /** Asking the breaker; a rejected caller is done. */
  function DoBegin(config: BreakerConfig, s: State, caller: nat, at: nat): State {
    if caller in s.callers then s
    else
      var asked := s.(inner := AfterAcquire(config, s.inner, at), events := s.events + [Acquire(at)]);
      if !Admits(config, s.inner, at) then asked
      else asked.(callers := s.callers[caller := Fetching(s.admitted, 0)], admitted := s.admitted + 1)
  }

  /** One request of the retry loop returns. */
  function DoFetch(policy: RetryPolicy, s: State, caller: nat, fetch: Fetch): State {
    if caller !in s.callers || !s.callers[caller].Fetching? then s
    else
      var ticket, attempt := s.callers[caller].ticket, s.callers[caller].attempt;
      var t := s.(fetches := s.fetches + 1, requests := s.requests + {(ticket, attempt)});
      match AttemptResult(fetch)
      case Ok(jwks) =>
        t.(callers := s.callers[caller := Fetched(ticket, jwks)], decoded := s.decoded[ticket := jwks])
      case Err(_) =>
        if attempt + 1 < policy.Attempts() then t.(callers := s.callers[caller := Fetching(ticket, attempt + 1)])
        else t.(callers := s.callers[caller := Failed(ticket)], failed := s.failed + {ticket})
  }

  function DoWrite(s: State, caller: nat): State {
    if caller !in s.callers || !s.callers[caller].Fetched? then s
    else
      var ticket, jwks := s.callers[caller].ticket, s.callers[caller].jwks;
      s.(cache := jwks, writes := s.writes + [(ticket, jwks)], callers := s.callers[caller := Wrote(ticket)])
  }

  /** The result is recorded with the breaker and the caller is done. */
  function DoRecord(config: BreakerConfig, s: State, caller: nat, at: nat): State {
    if caller !in s.callers then s
    else match s.callers[caller]
      case Wrote(_) => s.(inner := FRESH, events := s.events + [Success(at)], callers := s.callers - {caller})
      case Failed(_) => s.(inner := AfterFailure(config, s.inner, at), events := s.events + [Failure(at)],
                           callers := s.callers - {caller})
      case _ => s
  }

  /** One atomic step of one caller; a step its caller is not ready for changes nothing. */
  function Step(config: BreakerConfig, policy: RetryPolicy, s: State, a: Action): State {
    match a
    case Begin(caller, at) => DoBegin(config, s, caller, at)
    case FetchReturns(caller, at, fetch) => DoFetch(policy, s, caller, fetch)
    case WriteCache(caller, at) => DoWrite(s, caller)
    case Record(caller, at) => DoRecord(config, s, caller, at)
  }

  function Run(config: BreakerConfig, policy: RetryPolicy, initial: Jwks, actions: seq<Action>): State {
    if |actions| == 0 then Start(initial)
    else Step(config, policy, Run(config, policy, initial, actions[..|actions| - 1]), actions[|actions| - 1])
  }

  // ------------------------------------------------------------------ the breaker

  /** The shared breaker is in the state its history of operations puts it in. */
  lemma {:induction false} BreakerFollowsEvents(config: BreakerConfig, policy: RetryPolicy, initial: Jwks,
                                                actions: seq<Action>)
    ensures var s := Run(config, policy, initial, actions);
      s.inner == Breaker.Run(config, s.events)
  {
    if |actions| > 0 {
      BreakerFollowsEvents(config, policy, initial, actions[..|actions| - 1]);
      var s, a := Run(config, policy, initial, actions[..|actions| - 1]), actions[|actions| - 1];
      RunSnoc(config, s.events, Acquire(a.at));
      RunSnoc(config, s.events, Success(a.at));
      RunSnoc(config, s.events, Failure(a.at));
    }
  }

  ghost predicate Clocked(actions: seq<Action>) {
    forall i, j :: 0 <= i <= j < |actions| ==> actions[i].at <= actions[j].at
  }

  lemma {:induction false} StepEvents(config: BreakerConfig, policy: RetryPolicy, s: State, a: Action)
    ensures var t := Step(config, policy, s, a);
      t.events == s.events
      || t.events == s.events + [Acquire(a.at)] || t.events == s.events + [Success(a.at)]
      || t.events == s.events + [Failure(a.at)]
  {
  }

  /** With a clock that does not run backwards, breaker operations are in order of time. */
  lemma {:induction false} EventsTimed(config: BreakerConfig, policy: RetryPolicy, initial: Jwks, actions: seq<Action>)
    requires Clocked(actions)
    ensures var s := Run(config, policy, initial, actions);
      && Timed(s.events)
      && forall i :: 0 <= i < |s.events| ==> |actions| > 0 && s.events[i].at <= actions[|actions| - 1].at
  {
    if |actions| > 0 {
      var before := actions[..|actions| - 1];
      EventsTimed(config, policy, initial, before);
      StepEvents(config, policy, Run(config, policy, initial, before), actions[|actions| - 1]);
      assert |before| > 0 ==> before[|before| - 1].at <= actions[|actions| - 1].at;
    }
  }

  /** For every interleaving of callers, trips without a success between them keep their distance. */
  lemma {:induction false} ConcurrentTripsSpaced(config: BreakerConfig, policy: RetryPolicy, initial: Jwks,
                                                 actions: seq<Action>, i: nat, j: nat)
    requires Clocked(actions)
    requires i < j < |Run(config, policy, initial, actions).events|
    requires var es := Run(config, policy, initial, actions).events;
      Trips(config, es, i) && Trips(config, es, j) && NoSuccess(es, i + 1, j)
    ensures var es := Run(config, policy, initial, actions).events;
      es[j].at >= es[i].at + config.openDuration
  {
    EventsTimed(config, policy, initial, actions);
    TripsSpaced(config, Run(config, policy, initial, actions).events, i, j);
  }

  /** For every interleaving, a window without a success sees few trips. */
  lemma {:induction false} ConcurrentTripBound(config: BreakerConfig, policy: RetryPolicy, initial: Jwks,
                                               actions: seq<Action>, from: nat, to: nat, a: nat, b: nat)
    requires Clocked(actions) && config.openDuration > 0 && a <= b
    requires from <= to <= |Run(config, policy, initial, actions).events|
    requires var es := Run(config, policy, initial, actions).events;
      NoSuccess(es, from, to) && forall k :: from <= k < to ==> a <= es[k].at <= b
    ensures var es := Run(config, policy, initial, actions).events;
      TripsIn(config, es, from, to) <= 1 + (b - a) / config.openDuration
  {
    EventsTimed(config, policy, initial, actions);
    TripBound(config, Run(config, policy, initial, actions).events, from, to, a, b);
  }

  /**
   * For every interleaving, a caller that asks during the cooldown of a trip is admitted exactly when
   * fewer failures than the threshold were recorded since the last success.
   */
  lemma {:induction false} ConcurrentCooldown(config: BreakerConfig, policy: RetryPolicy, initial: Jwks,
                                              actions: seq<Action>, i: nat, caller: nat, now: nat)
    requires |actions| > 0 && Clocked(actions) && actions[|actions| - 1].at <= now
    requires i < |Run(config, policy, initial, actions).events|
    requires var s := Run(config, policy, initial, actions);
      caller !in s.callers && Trips(config, s.events, i) && now < s.events[i].at + config.openDuration
    ensures var s := Run(config, policy, initial, actions);
      && (caller in DoBegin(config, s, caller, now).callers <==> FailuresSince(s.events) < config.Threshold())
      && (NoSuccess(s.events, i + 1, |s.events|) ==> caller !in DoBegin(config, s, caller, now).callers)
  {
    var s := Run(config, policy, initial, actions);
    BreakerFollowsEvents(config, policy, initial, actions);
    EventsTimed(config, policy, initial, actions);
    CooldownExact(config, s.events, i, now);
  }

  /**
   * For every interleaving, after a trip and until a success or a call past the cooldown, a caller is
   * admitted exactly when the cooldown of that trip is over; late failures of others change nothing.
   */
  lemma {:induction false} ConcurrentOpen(config: BreakerConfig, policy: RetryPolicy, initial: Jwks,
                                          actions: seq<Action>, i: nat, caller: nat, now: nat)
    requires i < |Run(config, policy, initial, actions).events|
    requires var s := Run(config, policy, initial, actions);
      caller !in s.callers && Trips(config, s.events, i) && Quiet(config, s.events, i, |s.events|)
    ensures var s := Run(config, policy, initial, actions);
      && s.inner.state == Open(s.events[i].at)
      && (caller in DoBegin(config, s, caller, now).callers <==> Ready(config, s.events[i].at, now))
  {
    BreakerFollowsEvents(config, policy, initial, actions);
    OpenExact(config, Run(config, policy, initial, actions).events, i, now);
  }

  // ----------------------------------------------------------- admitted refreshes

  lemma {:induction false} AdmittedSnoc(config: BreakerConfig, events: seq<Event>, e: Event)
    ensures AdmittedCalls(config, events + [e])
         == AdmittedCalls(config, events)
            + (if e.Acquire? && Admits(config, Breaker.Run(config, events), e.at) then 1 else 0)
  {
    assert (events + [e])[..|events|] == events;
  }

  lemma {:induction false} AdmittedStep(config: BreakerConfig, policy: RetryPolicy, s: State, a: Action)
    requires s.inner == Breaker.Run(config, s.events) && s.admitted == AdmittedCalls(config, s.events)
    ensures var t := Step(config, policy, s, a); t.admitted == AdmittedCalls(config, t.events)
  {
    match a
    case Begin(_, at) => AdmittedSnoc(config, s.events, Acquire(at));
    case FetchReturns(_, _, _) =>
    case WriteCache(_, _) =>
    case Record(_, at) =>
      AdmittedSnoc(config, s.events, Success(at));
      AdmittedSnoc(config, s.events, Failure(at));
  }

  /** The refreshes admitted are the admitted calls in the breaker's history, none more and none less. */
  lemma {:induction false} AdmittedCounted(config: BreakerConfig, policy: RetryPolicy, initial: Jwks,
                                           actions: seq<Action>)
    ensures var s := Run(config, policy, initial, actions);
      s.admitted == AdmittedCalls(config, s.events)
  {
    if |actions| > 0 {
      var before, a := actions[..|actions| - 1], actions[|actions| - 1];
      AdmittedCounted(config, policy, initial, before);
      BreakerFollowsEvents(config, policy, initial, before);
      AdmittedStep(config, policy, Run(config, policy, initial, before), a);
    }
  }

  // -------------------------------------------------------------------- the cache

  /** The last value written, or the initial one. */
  function LastWrite(s: State, initial: Jwks): Jwks {
    if |s.writes| == 0 then initial else s.writes[|s.writes| - 1].1
  }

  ghost predicate TicketsApart(s: State) {
    && (forall c :: c in s.callers ==> s.callers[c].ticket < s.admitted)
    && (forall c, d :: c in s.callers && d in s.callers && c != d
                       ==> s.callers[c].ticket != s.callers[d].ticket)
  }

  ghost predicate WritesDecoded(s: State) {
    && (forall t :: t in s.decoded ==> t < s.admitted)
    && (forall i :: 0 <= i < |s.writes| ==>
          s.writes[i].0 in s.decoded && s.writes[i].1 == s.decoded[s.writes[i].0])
    && (forall i, j :: 0 <= i < j < |s.writes| ==> s.writes[i].0 != s.writes[j].0)
    && (forall t :: t in s.failed ==> t < s.admitted && t !in s.decoded)
  }

  ghost predicate PhasesHonest(s: State) {
    forall c :: c in s.callers ==>
      match s.callers[c]
      case Fetching(t, _) => t !in s.decoded && t !in s.failed
      case Failed(t) => t in s.failed
      case Fetched(t, jwks) => t in s.decoded && s.decoded[t] == jwks
                               && forall i :: 0 <= i < |s.writes| ==> s.writes[i].0 != t
      case Wrote(t) => t in s.decoded
  }

  ghost predicate CacheSound(s: State, initial: Jwks) {
    s.cache == LastWrite(s, initial) && TicketsApart(s) && WritesDecoded(s) && PhasesHonest(s)
  }

  lemma {:induction false} BeginSound(config: BreakerConfig, s: State, caller: nat, at: nat, initial: Jwks)
    requires CacheSound(s, initial)
    ensures CacheSound(DoBegin(config, s, caller, at), initial)
  {
  }

  lemma {:induction false} FetchApart(policy: RetryPolicy, s: State, caller: nat, fetch: Fetch)
    requires TicketsApart(s)
    ensures TicketsApart(DoFetch(policy, s, caller, fetch))
  {
  }

  lemma {:induction false} FetchWrites(policy: RetryPolicy, s: State, caller: nat, fetch: Fetch)
    requires TicketsApart(s) && WritesDecoded(s) && PhasesHonest(s)
    ensures WritesDecoded(DoFetch(policy, s, caller, fetch))
  {
  }

  lemma {:induction false} FetchPhases(policy: RetryPolicy, s: State, caller: nat, fetch: Fetch)
    requires TicketsApart(s) && WritesDecoded(s) && PhasesHonest(s)
    ensures PhasesHonest(DoFetch(policy, s, caller, fetch))
  {
  }

  lemma {:induction false} FetchSound(policy: RetryPolicy, s: State, caller: nat, fetch: Fetch, initial: Jwks)
    requires CacheSound(s, initial)
    ensures CacheSound(DoFetch(policy, s, caller, fetch), initial)
  {
    FetchApart(policy, s, caller, fetch);
    FetchWrites(policy, s, caller, fetch);
    FetchPhases(policy, s, caller, fetch);
  }

  lemma {:induction false} WriteSound(s: State, caller: nat, initial: Jwks)
    requires CacheSound(s, initial)
    ensures CacheSound(DoWrite(s, caller), initial)
  {
  }

  lemma {:induction false} RecordSound(config: BreakerConfig, s: State, caller: nat, at: nat, initial: Jwks)
    requires CacheSound(s, initial)
    ensures CacheSound(DoRecord(config, s, caller, at), initial)
  {
  }

  /**
   * After any interleaving the cache, which is what a reader sees, is the last set written or else
   * the initial one; every set written was decoded by a request of the admitted refresh that wrote
   * it, and no refresh writes twice.
   */
  lemma {:induction false} CacheHistory(config: BreakerConfig, policy: RetryPolicy, initial: Jwks, actions: seq<Action>)
    ensures CacheSound(Run(config, policy, initial, actions), initial)
  {
    if |actions| > 0 {
      CacheHistory(config, policy, initial, actions[..|actions| - 1]);
      var s, a := Run(config, policy, initial, actions[..|actions| - 1]), actions[|actions| - 1];
      match a
      case Begin(caller, at) => BeginSound(config, s, caller, at, initial);
      case FetchReturns(caller, at, fetch) => FetchSound(policy, s, caller, fetch, initial);
      case WriteCache(caller, at) => WriteSound(s, caller, initial);
      case Record(caller, at) => RecordSound(config, s, caller, at, initial);
    }
  }

  /** Of all the refreshes that ever failed, recorded or not, none has written or ever will. */
  lemma {:induction false} FailedWritesNothing(config: BreakerConfig, policy: RetryPolicy, initial: Jwks,
                                               before: seq<Action>, after: seq<Action>, ticket: nat)
    requires ticket in Run(config, policy, initial, before).failed
    ensures var s := Run(config, policy, initial, before + after);
      ticket in s.failed && forall i :: 0 <= i < |s.writes| ==> s.writes[i].0 != ticket
  {
    FailedStays(config, policy, initial, before, after, ticket);
    CacheHistory(config, policy, initial, before + after);
  }

  lemma {:induction false} FailedStays(config: BreakerConfig, policy: RetryPolicy, initial: Jwks,
                                       before: seq<Action>, after: seq<Action>, ticket: nat)
    requires ticket in Run(config, policy, initial, before).failed
    ensures ticket in Run(config, policy, initial, before + after).failed
  {
    if |after| == 0 {
      assert before + after == before;
    } else {
      var all := before + after;
      assert all[..|all| - 1] == before + after[..|after| - 1];
      FailedStays(config, policy, initial, before, after[..|after| - 1], ticket);
    }
  }

  // --------------------------------------------------------------------- requests

  lemma {:induction false} SubsetSmaller(a: set<(nat, nat)>, b: set<(nat, nat)>)
    requires a <= b
    ensures |a| <= |b|
  {
    assert b == a + (b - a);
  }

  /** One refresh makes at most as many requests as its attempts have numbers. */
  lemma {:induction false} RowFits(row: set<(nat, nat)>, ticket: nat, attempts: nat)
    requires forall p :: p in row ==> p.0 == ticket && p.1 < attempts
    ensures |row| <= attempts
  {
    if attempts == 0 {
      assert row == {};
    } else {
      var last := (ticket, attempts - 1);
      RowFits(row - {last}, ticket, attempts - 1);
      SubsetSmaller(row, (row - {last}) + {last});
    }
  }

  lemma {:induction false} OneMoreRow(tickets: nat, attempts: nat)
    ensures (tickets + 1) * attempts == tickets * attempts + attempts
  {
  }

  /** Distinct requests numbered below the bounds are no more than the bounds multiplied. */
  lemma {:induction false} RequestsFit(requests: set<(nat, nat)>, tickets: nat, attempts: nat)
    requires forall p :: p in requests ==> p.0 < tickets && p.1 < attempts
    ensures |requests| <= tickets * attempts
  {
    if tickets == 0 {
      assert requests == {};
    } else {
      var earlier := set p | p in requests && p.0 < tickets - 1;
      var row := requests - earlier;
      RequestsFit(earlier, tickets - 1, attempts);
      RowFits(row, tickets - 1, attempts);
      assert requests == earlier + row;
      OneMoreRow(tickets - 1, attempts);
    }
  }

  /** Every request has its own number, below the bounds; a fetching caller is past its requests. */
  ghost predicate RequestsSound(policy: RetryPolicy, s: State) {
    && TicketsApart(s)
    && s.fetches == |s.requests|
    && (forall p :: p in s.requests ==> p.0 < s.admitted && p.1 < policy.Attempts())
    && forall c :: c in s.callers && s.callers[c].Fetching? ==>
         s.callers[c].attempt < policy.Attempts()
         && forall n :: n >= s.callers[c].attempt ==> (s.callers[c].ticket, n) !in s.requests
  }

  lemma {:induction false} BeginRequests(config: BreakerConfig, policy: RetryPolicy, s: State, caller: nat, at: nat)
    requires RequestsSound(policy, s)
    ensures RequestsSound(policy, DoBegin(config, s, caller, at))
  {
    assert forall n :: (s.admitted, n) !in s.requests;
  }

  lemma {:induction false} FetchRequests(policy: RetryPolicy, s: State, caller: nat, fetch: Fetch)
    requires RequestsSound(policy, s)
    ensures RequestsSound(policy, DoFetch(policy, s, caller, fetch))
  {
    FetchApart(policy, s, caller, fetch);
    if caller in s.callers && s.callers[caller].Fetching? {
      var request := (s.callers[caller].ticket, s.callers[caller].attempt);
      assert request !in s.requests;
    }
  }

  lemma {:induction false} OtherRequests(config: BreakerConfig, policy: RetryPolicy, s: State, caller: nat, at: nat)
    requires RequestsSound(policy, s)
    ensures RequestsSound(policy, DoWrite(s, caller)) && RequestsSound(policy, DoRecord(config, s, caller, at))
  {
  }

  lemma {:induction false} RequestsNumbered(config: BreakerConfig, policy: RetryPolicy, initial: Jwks,
                                            actions: seq<Action>)
    ensures RequestsSound(policy, Run(config, policy, initial, actions))
  {
    if |actions| > 0 {
      RequestsNumbered(config, policy, initial, actions[..|actions| - 1]);
      var before, a := Run(config, policy, initial, actions[..|actions| - 1]), actions[|actions| - 1];
      match a
      case Begin(caller, at) => BeginRequests(config, policy, before, caller, at);
      case FetchReturns(caller, at, fetch) => FetchRequests(policy, before, caller, fetch);
      case WriteCache(caller, at) => OtherRequests(config, policy, before, caller, at);
      case Record(caller, at) => OtherRequests(config, policy, before, caller, at);
    }
  }

  /** For every interleaving, the requests are at most the allowed attempts per call the breaker admitted. */
  lemma {:induction false} RequestBound(config: BreakerConfig, policy: RetryPolicy, initial: Jwks, actions: seq<Action>)
    ensures var s := Run(config, policy, initial, actions);
      && s.fetches <= AdmittedCalls(config, s.events) * policy.Attempts()
      && forall p :: p in s.requests ==> p.0 < AdmittedCalls(config, s.events) && p.1 < policy.Attempts()
  {
    AdmittedCounted(config, policy, initial, actions);
    RequestsNumbered(config, policy, initial, actions);
    var s := Run(config, policy, initial, actions);
    RequestsFit(s.requests, s.admitted, policy.Attempts());
  }

  // ------------------------------------------------------------ runs from any state

  function StepAll(config: BreakerConfig, policy: RetryPolicy, s: State, actions: seq<Action>): State
    decreases |actions|
  {
    if |actions| == 0 then s
    else StepAll(config, policy, Step(config, policy, s, actions[0]), actions[1..])
  }

  lemma {:induction false} StepAllAppend(config: BreakerConfig, policy: RetryPolicy, s: State, a: seq<Action>,
                                         b: seq<Action>)
    ensures StepAll(config, policy, s, a + b) == StepAll(config, policy, StepAll(config, policy, s, a), b)
    decreases |a|
  {
    if |a| == 0 {
      assert a + b == b;
    } else {
      assert (a + b)[1..] == a[1..] + b;
      StepAllAppend(config, policy, Step(config, policy, s, a[0]), a[1..], b);
    }
  }

  lemma {:induction false} RunIsStepAll(config: BreakerConfig, policy: RetryPolicy, initial: Jwks, actions: seq<Action>)
    ensures Run(config, policy, initial, actions) == StepAll(config, policy, Start(initial), actions)
  {
    if |actions| > 0 {
      var before, last := actions[..|actions| - 1], actions[|actions| - 1];
      RunIsStepAll(config, policy, initial, before);
      StepAllAppend(config, policy, Start(initial), before, [last]);
      StepOne(config, policy, Run(config, policy, initial, before), last);
      assert actions == before + [last];
    }
  }

  lemma {:induction false} StepOne(config: BreakerConfig, policy: RetryPolicy, s: State, a: Action)
    ensures StepAll(config, policy, s, [a]) == Step(config, policy, s, a)
  {
    assert [a][1..] == [];
  }

  // ------------------------------------------------------------- refused refreshes

  /** The actions of everyone else. */
  function Without(actions: seq<Action>, caller: nat): seq<Action> {
    if |actions| == 0 then []
    else (if actions[0].caller == caller then [] else [actions[0]]) + Without(actions[1..], caller)
  }

  /** A caller that is not refreshing, and does not begin to, can be left out of a run. */
  lemma {:induction false} IdleCaller(config: BreakerConfig, policy: RetryPolicy, s: State, caller: nat,
                                      actions: seq<Action>)
    requires caller !in s.callers
    requires forall i :: 0 <= i < |actions| && actions[i].caller == caller ==> !actions[i].Begin?
    ensures caller !in StepAll(config, policy, s, actions).callers
    ensures StepAll(config, policy, s, actions) == StepAll(config, policy, s, Without(actions, caller))
    decreases |actions|
  {
    if |actions| > 0 {
      var t := Step(config, policy, s, actions[0]);
      IdleCaller(config, policy, t, caller, actions[1..]);
      if actions[0].caller == caller {
        assert t == s && Without(actions, caller) == Without(actions[1..], caller);
      } else {
        var rest := Without(actions[1..], caller);
        assert Without(actions, caller) == [actions[0]] + rest && ([actions[0]] + rest)[1..] == rest;
      }
    }
  }

  /**
   * A refused refresh leaves its question in the breaker's log and nothing else: until its caller
   * begins another, the run is the run without that caller.
   */
  lemma {:induction false} RejectedDoesNothing(config: BreakerConfig, policy: RetryPolicy, initial: Jwks,
                                               before: seq<Action>, caller: nat, at: nat, after: seq<Action>)
    requires var s := Run(config, policy, initial, before);
      caller !in s.callers && !Admits(config, s.inner, at)
    requires forall i :: 0 <= i < |after| && after[i].caller == caller ==> !after[i].Begin?
    ensures var s := Run(config, policy, initial, before);
      Run(config, policy, initial, before + [Begin(caller, at)] + after)
      == StepAll(config, policy, s.(events := s.events + [Acquire(at)]), Without(after, caller))
  {
    var s, begin := Run(config, policy, initial, before), Begin(caller, at);
    RunIsStepAll(config, policy, initial, before);
    RunIsStepAll(config, policy, initial, before + [begin] + after);
    StepAllAppend(config, policy, Start(initial), before + [begin], after);
    StepAllAppend(config, policy, Start(initial), before, [begin]);
    StepOne(config, policy, s, begin);
    IdleCaller(config, policy, DoBegin(config, s, caller, at), caller, after);
  }

  // ------------------------------------------------- one caller alone is the method

  /** The first requests of one refresh. */
  function Requests(caller: nat, call: Call, calls: nat): seq<Action> {
    if calls == 0 then []
    else Requests(caller, call, calls - 1) + [FetchReturns(caller, call.end, call.fetch(calls - 1))]
  }

  /** Where the result of its latest request puts a caller. */
  function Landing(policy: RetryPolicy, ticket: nat, calls: nat, fetch: Fetch): Phase {
    match AttemptResult(fetch)
    case Ok(jwks) => Fetched(ticket, jwks)
    case Err(_) => if calls < policy.Attempts() then Fetching(ticket, calls) else Failed(ticket)
  }

  /** Only the caller's phase and the log of requests have changed. */
  ghost predicate Landed(s: State, t: State, caller: nat, phase: Phase, n: nat) {
    && t.callers == s.callers[caller := phase] && t.fetches == s.fetches + n
    && t.inner == s.inner && t.cache == s.cache && t.writes == s.writes && t.events == s.events
  }

  lemma {:induction false} LandedAgain(s: State, t: State, u: State, caller: nat, p: Phase, q: Phase, n: nat)
    requires Landed(s, t, caller, p, n) && Landed(t, u, caller, q, 1)
    ensures Landed(s, u, caller, q, n + 1)
  {
  }

  lemma {:induction false} OneRequest(policy: RetryPolicy, s: State, caller: nat, fetch: Fetch)
    requires caller in s.callers && s.callers[caller].Fetching?
    ensures var phase := s.callers[caller];
      Landed(s, DoFetch(policy, s, caller, fetch), caller, Landing(policy, phase.ticket, phase.attempt + 1, fetch), 1)
  {
  }

  /** Failing requests, and one more whatever its result, land the caller where that result says. */
  lemma {:induction false} RequestPhase(config: BreakerConfig, policy: RetryPolicy, s: State, caller: nat, call: Call,
                                        calls: nat)
    requires 0 < calls <= policy.Attempts() && forall i :: 0 <= i < calls - 1 ==> AttemptResult(call.fetch(i)).Err?
    requires caller in s.callers && s.callers[caller].Fetching? && s.callers[caller].attempt == 0
    ensures Landed(s, StepAll(config, policy, s, Requests(caller, call, calls)), caller,
                   Landing(policy, s.callers[caller].ticket, calls, call.fetch(calls - 1)), calls)
    decreases calls
  {
    var ticket, last := s.callers[caller].ticket, FetchReturns(caller, call.end, call.fetch(calls - 1));
    var init := Requests(caller, call, calls - 1);
    var t := StepAll(config, policy, s, init);
    StepAllAppend(config, policy, s, init, [last]);
    StepOne(config, policy, t, last);
    if calls == 1 {
      OneRequest(policy, s, caller, last.fetch);
    } else {
      RequestPhase(config, policy, s, caller, call, calls - 1);
      var before := Landing(policy, ticket, calls - 1, call.fetch(calls - 2));
      OneRequest(policy, t, caller, last.fetch);
      LandedAgain(s, t, Step(config, policy, t, last), caller, before,
                  Landing(policy, ticket, calls, last.fetch), calls - 1);
    }
  }

  /** The steps of one refresh that runs alone. */
  function Script(policy: RetryPolicy, caller: nat, call: Call): seq<Action> {
    [Begin(caller, call.start)]
    + Requests(caller, call, Retry.Calls(policy, Op(call.fetch)))
    + [WriteCache(caller, call.end)] + [Record(caller, call.end)]
  }

  lemma {:induction false} ScriptPhases(config: BreakerConfig, policy: RetryPolicy, s: State, caller: nat, call: Call)
    ensures var begun := DoBegin(config, s, caller, call.start);
      var requests := Requests(caller, call, Retry.Calls(policy, Op(call.fetch)));
      var fetched := StepAll(config, policy, begun, requests);
      StepAll(config, policy, s, Script(policy, caller, call))
      == DoRecord(config, DoWrite(fetched, caller), caller, call.end)
  {
    var begin, write, record := Begin(caller, call.start), WriteCache(caller, call.end), Record(caller, call.end);
    var requests := Requests(caller, call, Retry.Calls(policy, Op(call.fetch)));
    StepAllAppend(config, policy, s, [begin] + requests + [write], [record]);
    StepAllAppend(config, policy, s, [begin] + requests, [write]);
    StepAllAppend(config, policy, s, [begin], requests);
    StepOne(config, policy, s, begin);
    var fetched := StepAll(config, policy, s, [begin] + requests);
    StepOne(config, policy, fetched, write);
    StepOne(config, policy, DoWrite(fetched, caller), record);
  }

  /** Recording the result of the last request does to the shared state what the method does. */
  lemma {:induction false} LastPhases(config: BreakerConfig, policy: RetryPolicy, s: State, begun: State, t: State,
                                      caller: nat, call: Call)
    requires caller !in s.callers && Admits(config, s.inner, call.start)
    requires begun == DoBegin(config, s, caller, call.start)
    requires var calls := Retry.Calls(policy, Op(call.fetch));
      Landed(begun, t, caller, Landing(policy, s.admitted, calls, call.fetch(calls - 1)), calls)
    ensures var u := DoRecord(config, DoWrite(t, caller), caller, call.end);
      var outcome := Retry.Outcome(policy, Op(call.fetch));
      && u.inner == AfterRefresh(config, policy, s.inner, call)
      && u.cache == (if outcome.Ok? then outcome.value else s.cache)
      && u.fetches == s.fetches + Retry.Calls(policy, Op(call.fetch))
      && u.callers == s.callers
      && u.events == s.events + [Acquire(call.start)] + [if outcome.Ok? then Success(call.end) else Failure(call.end)]
  {
    Retry.FailsExact(policy, Op(call.fetch));
    var u := DoRecord(config, DoWrite(t, caller), caller, call.end);
    assert u.callers == s.callers;
  }

  lemma {:induction false} AdmittedAlone(config: BreakerConfig, policy: RetryPolicy, s: State, caller: nat, call: Call)
    requires caller !in s.callers && Admits(config, s.inner, call.start)
    ensures var t := StepAll(config, policy, s, Script(policy, caller, call));
      var outcome := Retry.Outcome(policy, Op(call.fetch));
      && t.inner == AfterRefresh(config, policy, s.inner, call)
      && t.cache == (if outcome.Ok? then outcome.value else s.cache)
      && t.fetches == s.fetches + Retry.Calls(policy, Op(call.fetch))
      && t.callers == s.callers
      && t.events == s.events + [Acquire(call.start)] + [if outcome.Ok? then Success(call.end) else Failure(call.end)]
  {
    var calls := Retry.Calls(policy, Op(call.fetch));
    var begun := DoBegin(config, s, caller, call.start);
    var fetched := StepAll(config, policy, begun, Requests(caller, call, calls));
    Retry.CallsExact(policy, Op(call.fetch), calls);
    assert forall i :: 0 <= i < calls - 1 ==> Op(call.fetch)(i) == AttemptResult(call.fetch(i));
    RequestPhase(config, policy, begun, caller, call, calls);
    ScriptPhases(config, policy, s, caller, call);
    LastPhases(config, policy, s, begun, fetched, caller, call);
  }

  lemma {:induction false} RequestsHaveCaller(caller: nat, call: Call, calls: nat)
    ensures forall i :: 0 <= i < |Requests(caller, call, calls)| ==> Requests(caller, call, calls)[i].FetchReturns?
    ensures forall i :: 0 <= i < |Requests(caller, call, calls)| ==> Requests(caller, call, calls)[i].caller == caller
  {
    if calls > 0 { RequestsHaveCaller(caller, call, calls - 1); }
  }

  lemma {:induction false} WithoutAll(actions: seq<Action>, caller: nat)
    requires forall i :: 0 <= i < |actions| ==> actions[i].caller == caller
    ensures Without(actions, caller) == []
  {
    if |actions| > 0 { WithoutAll(actions[1..], caller); }
  }

  lemma {:induction false} RefusedAlone(config: BreakerConfig, policy: RetryPolicy, s: State, caller: nat, call: Call)
    requires caller !in s.callers && !Admits(config, s.inner, call.start)
    ensures StepAll(config, policy, s, Script(policy, caller, call))
         == s.(events := s.events + [Acquire(call.start)])
  {
    var begin, requests := Begin(caller, call.start), Requests(caller, call, Retry.Calls(policy, Op(call.fetch)));
    var rest := requests + [WriteCache(caller, call.end)] + [Record(caller, call.end)];
    RequestsHaveCaller(caller, call, Retry.Calls(policy, Op(call.fetch)));
    assert Script(policy, caller, call) == [begin] + rest;
    StepAllAppend(config, policy, s, [begin], rest);
    StepOne(config, policy, s, begin);
    IdleCaller(config, policy, DoBegin(config, s, caller, call.start), caller, rest);
    WithoutAll(rest, caller);
  }

  /**
   * A refresh whose steps run with nothing between them does to the breaker and its log, the cache
   * and the number of requests what the sequential refresh does, admitted or refused.
   */
  lemma {:induction false} AloneIsRefresh(config: BreakerConfig, policy: RetryPolicy, s: State, caller: nat, call: Call)
    requires caller !in s.callers && s.inner == Breaker.Run(config, s.events)
    ensures var t := StepAll(config, policy, s, Script(policy, caller, call));
      var outcome := Retry.Outcome(policy, Op(call.fetch));
      && t.inner == AfterRefresh(config, policy, s.inner, call)
      && t.events == Recorded(config, policy, s.events, call)
      && t.callers == s.callers
      && if Admits(config, s.inner, call.start) then
           && t.cache == (if outcome.Ok? then outcome.value else s.cache)
           && t.fetches == s.fetches + Retry.Calls(policy, Op(call.fetch))
         else
           t == s.(events := s.events + [Acquire(call.start)])
  {
    if Admits(config, s.inner, call.start) {
      AdmittedAlone(config, policy, s, caller, call);
    } else {
      RefusedAlone(config, policy, s, caller, call);
    }
  }
}
