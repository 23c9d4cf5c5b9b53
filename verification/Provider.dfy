/** The cached key set: refreshed through the breaker and the retry loop, written only on success. */
module Provider {
  import opened Wrappers
  import opened Backoff
  import opened Breaker
  import opened BreakerLaws
  import opened Jwt
  import Retry

  datatype InfraError = Http(detail: string) | Decode(detail: string) | Timeout | CircuitOpen

  /** One fetch under its deadline: it ran out of time, or it returned a decoded set or an error. */
  datatype Fetch = Elapsed | Done(result: Result<Jwks, InfraError>)

  function AttemptResult(f: Fetch): Result<Jwks, InfraError> {
    match f
    case Elapsed => Err(Timeout)
    case Done(result) => result
  }

  /** The operation handed to the retry loop. */
  function Op(fetch: nat -> Fetch): nat -> Result<Jwks, InfraError> {
    (i: nat) => AttemptResult(fetch(i))
  }

  /** One refresh: when it asks the breaker, when it records its result, and what its requests return. */
  datatype Call = Call(start: nat, end: nat, fetch: nat -> Fetch)

  /** The breaker's history after one refresh with nothing running beside it. */
  function Recorded(config: BreakerConfig, policy: RetryPolicy, before: seq<Event>, r: Call): seq<Event> {
    var asked := before + [Acquire(r.start)];
    if !Admits(config, Breaker.Run(config, before), r.start) then asked
    else if Retry.Outcome(policy, Op(r.fetch)).Ok? then asked + [Success(r.end)]
    else asked + [Failure(r.end)]
  }

  /** The allowed number of requests, in the policy's own field. */
  function Most(policy: RetryPolicy): nat {
    if policy.maxAttempts == 0 then 1 else policy.maxAttempts
  }

  ghost predicate Decoded(fetch: nat -> Fetch, i: nat) {
    fetch(i).Done? && fetch(i).result.Ok?
  }

  /**
   * What a refresh comes to: the first set a request within the limit decodes; when none does, the
   * error of the last request, and a timeout is one.
   */
  lemma {:induction false} OutcomeExact(policy: RetryPolicy, fetch: nat -> Fetch)
    ensures forall jwks :: Retry.Outcome(policy, Op(fetch)) == Ok(jwks) <==>
              exists i :: 0 <= i < Most(policy) && fetch(i) == Done(Ok(jwks))
                          && forall j :: 0 <= j < i ==> !Decoded(fetch, j)
    ensures forall e :: Retry.Outcome(policy, Op(fetch)) == Err(e) <==>
              && (forall j :: 0 <= j < Most(policy) ==> !Decoded(fetch, j))
              && var last := fetch(Most(policy) - 1); if last == Elapsed then e == Timeout else last == Done(Err(e))
  {
    var op := Op(fetch);
    var calls := Retry.Calls(policy, op);
    Retry.CallsExact(policy, op, calls);
    Retry.CallsWithinMaximum(policy, op);
    assert forall i: nat :: op(i) == AttemptResult(fetch(i));
    assert forall i: nat :: Decoded(fetch, i) <==> op(i).Ok?;
    assert Retry.Outcome(policy, op) == op(calls - 1);
  }

  class CachedJwksProvider {
    var cache: Jwks
    const breaker: CircuitBreaker
    const retryPolicy: RetryPolicy

    ghost predicate Valid()
      reads this, breaker
    {
      breaker.Valid()
    }

    constructor (initial: Jwks, config: BreakerConfig, retryPolicy: RetryPolicy)
      ensures Valid() && cache == initial && fresh(breaker)
      ensures breaker.config == config && breaker.history == [] && this.retryPolicy == retryPolicy
    {
      cache := initial;
      breaker := new CircuitBreaker(config);
      this.retryPolicy := retryPolicy;
    }

    method Current() returns (jwks: Jwks)
      ensures jwks == cache
    {
      jwks := cache;
    }

    /** One refresh with nothing running beside it; `fetches` is the number of requests made. */
    method Refresh(call: Call) returns (r: Result<(), InfraError>, fetches: nat)
      requires Valid()
      modifies this, breaker
      ensures Valid()
      ensures breaker.history == Recorded(breaker.config, retryPolicy, old(breaker.history), call)
      ensures var op := Op(call.fetch);
        if !Breaker.Admits(breaker.config, Breaker.Run(breaker.config, old(breaker.history)), call.start) then
          r == Err(CircuitOpen) && fetches == 0 && cache == old(cache)
        else
          && fetches == Retry.Calls(retryPolicy, op)
          && match Retry.Outcome(retryPolicy, op)
             case Ok(jwks) => r == Ok(()) && cache == jwks
             case Err(e) => r == Err(e) && cache == old(cache)
    {
      var admitted := breaker.Acquire(call.start);
      if !admitted {
        return Err(CircuitOpen), 0;
      }
      var fetched, calls, sleeps := Retry.Run(retryPolicy, Op(call.fetch));
      fetches := calls;
      match fetched
      case Ok(jwks) =>
        cache := jwks;
        breaker.RecordSuccess(call.end);
        r := Ok(());
      case Err(e) =>
        breaker.RecordFailure(call.end);
        r := Err(e);
    }
  }

  // ------------------------------------------------------------- load on the endpoint

  /** When each refresh asks and when it records. */
  function Timing(refreshes: seq<Call>): (attempts: seq<Attempt>)
    ensures |attempts| == |refreshes|
  {
    if |refreshes| == 0 then []
    else [Attempt(refreshes[0].start, refreshes[0].end)] + Timing(refreshes[1..])
  }

  /** The breaker after one refresh. */
  function AfterRefresh(config: BreakerConfig, policy: RetryPolicy, inner: Inner, r: Call): Inner {
    if !Admits(config, inner, r.start) then inner
    else if Retry.Outcome(policy, Op(r.fetch)).Ok? then FRESH
    else AfterFailure(config, AfterAcquire(config, inner, r.start), r.end)
  }

  lemma {:induction false} AfterRefreshIsRun(config: BreakerConfig, policy: RetryPolicy, before: seq<Event>, r: Call)
    ensures AfterRefresh(config, policy, Breaker.Run(config, before), r)
         == Breaker.Run(config, Recorded(config, policy, before, r))
  {
    var asked := before + [Acquire(r.start)];
    RunSnoc(config, before, Acquire(r.start));
    RunSnoc(config, asked, Success(r.end));
    RunSnoc(config, asked, Failure(r.end));
  }

  /** The requests made by refreshes that run one after the other. */
  function TotalFetches(config: BreakerConfig, policy: RetryPolicy, inner: Inner, refreshes: seq<Call>): nat
    decreases |refreshes|
  {
    if |refreshes| == 0 then 0
    else (if Admits(config, inner, refreshes[0].start) then Retry.Calls(policy, Op(refreshes[0].fetch)) else 0)
         + TotalFetches(config, policy, AfterRefresh(config, policy, inner, refreshes[0]), refreshes[1..])
  }

  lemma {:induction false} FetchesPerAdmission(config: BreakerConfig, policy: RetryPolicy, inner: Inner,
                                               refreshes: seq<Call>)
    requires forall i :: 0 <= i < |refreshes| ==> Retry.Outcome(policy, Op(refreshes[i].fetch)).Err?
    ensures TotalFetches(config, policy, inner, refreshes)
         == policy.Attempts() * AdmittedAttempts(config, inner, Timing(refreshes))
    decreases |refreshes|
  {
    if |refreshes| > 0 {
      var r := refreshes[0];
      Retry.FailsExact(policy, Op(r.fetch));
      var next := AfterRefresh(config, policy, inner, r);
      var a := Attempt(r.start, r.end);
      assert next == AfterAttempt(config, inner, a);
      FetchesPerAdmission(config, policy, next, refreshes[1..]);
      assert Timing(refreshes)[0] == a && Timing(refreshes)[1..] == Timing(refreshes[1..]);
      var rest := AdmittedAttempts(config, next, Timing(refreshes[1..]));
      assert policy.Attempts() * (1 + rest) == policy.Attempts() + policy.Attempts() * rest;
    }
  }

  /**
   * An endpoint that answers no refresh in a window gets at most the allowed attempts for each of
   * the threshold plus one refresh per whole open duration.
   */
  lemma {:induction false} FetchBound(config: BreakerConfig, policy: RetryPolicy, before: seq<Event>,
                                      refreshes: seq<Call>, from: nat, to: nat)
    requires config.openDuration > 0 && from <= to && OneByOne(Timing(refreshes), from, to)
    requires forall i :: 0 <= i < |refreshes| ==> Retry.Outcome(policy, Op(refreshes[i].fetch)).Err?
    ensures TotalFetches(config, policy, Breaker.Run(config, before), refreshes)
         <= policy.Attempts() * (config.Threshold() + (to - from) / config.openDuration)
  {
    FetchesPerAdmission(config, policy, Breaker.Run(config, before), refreshes);
    LoadBound(config, before, Timing(refreshes), from, to);
    var admitted := AdmittedAttempts(config, Breaker.Run(config, before), Timing(refreshes));
    assert (to - from) / config.openDuration >= 0 by {
      PeriodsIsDivision(to - from, config.openDuration);
    }
    MulMono(admitted, config.Threshold() + (to - from) / config.openDuration, policy.Attempts());
  }
}
