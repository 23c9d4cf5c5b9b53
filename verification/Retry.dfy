/** Retrying a fallible operation with backoff between attempts. */
module Retry {
  import opened Wrappers
  import opened Backoff

  /** How many calls a run makes: up to and including the first success, or all it may. */
  function CallsFrom<T, E>(op: nat -> Result<T, E>, i: nat, attempts: nat): (calls: nat)
    requires i < attempts
    ensures i < calls <= attempts
    decreases attempts - i
  {
    if op(i).Ok? || i + 1 == attempts then i + 1 else CallsFrom(op, i + 1, attempts)
  }

  function Calls<T, E>(policy: RetryPolicy, op: nat -> Result<T, E>): (calls: nat)
    ensures 0 < calls <= policy.Attempts()
  {
    CallsFrom(op, 0, policy.Attempts())
  }

  /** The result of the last call made. */
  function Outcome<T, E>(policy: RetryPolicy, op: nat -> Result<T, E>): Result<T, E> {
    op(Calls(policy, op) - 1)
  }

  // ------------------------------------------------------------- total sleep

  /** The sleeps of a run: before attempt `i + 1`, the delay of attempt `i`. */
  ghost predicate Delays(policy: RetryPolicy, sleeps: seq<duration>) {
    |sleeps| <= U32_MAX && forall i :: 0 <= i < |sleeps| ==> sleeps[i] == BackoffFor(policy, i)
  }

  function Total(sleeps: seq<duration>): nat {
    if |sleeps| == 0 then 0 else Total(sleeps[..|sleeps| - 1]) + sleeps[|sleeps| - 1]
  }

  lemma {:induction false} OneMore(n: nat, k: nat)
    ensures (n + 1) * k == n * k + k
  {
  }

  /** No run sleeps longer than its bound for each sleep. */
  lemma {:induction false} TotalSleepBound(policy: RetryPolicy, sleeps: seq<duration>)
    requires Delays(policy, sleeps)
    ensures Total(sleeps) <= |sleeps| * policy.maxBackoff
  {
    if |sleeps| > 0 {
      var n := |sleeps|;
      TotalSleepBound(policy, sleeps[..n - 1]);
      BackoffAtMostMax(policy, n - 1);
      OneMore(n - 1, policy.maxBackoff);
    }
  }

  /** A run sleeps at most once less than it may call. */
  lemma {:induction false} SleepWithin(policy: RetryPolicy, sleeps: seq<duration>)
    requires Delays(policy, sleeps) && |sleeps| < policy.Attempts()
    ensures Total(sleeps) <= (policy.Attempts() - 1) * policy.maxBackoff
  {
    TotalSleepBound(policy, sleeps);
    MulMono(|sleeps|, policy.Attempts() - 1, policy.maxBackoff);
  }

  /**
   * What the number of calls is, without saying how it is found: one, or no more than the configured
   * maximum; every call but the last failed; and the last one succeeded or reached the maximum.
   */
  ghost predicate Exhausts<T, E>(policy: RetryPolicy, op: nat -> Result<T, E>, calls: nat) {
    && 0 < calls && (calls == 1 || calls <= policy.maxAttempts)
    && (forall i :: 0 <= i < calls - 1 ==> op(i).Err?)
    && (op(calls - 1).Ok? || policy.maxAttempts <= calls)
  }

  lemma {:induction false} CallsFromExact<T, E>(op: nat -> Result<T, E>, i: nat, attempts: nat, calls: nat)
    requires i < attempts && forall k :: 0 <= k < i ==> op(k).Err?
    ensures calls == CallsFrom(op, i, attempts) <==>
            i < calls <= attempts && (forall k :: 0 <= k < calls - 1 ==> op(k).Err?)
            && (op(calls - 1).Ok? || calls == attempts)
    decreases attempts - i
  {
    if op(i).Err? && i + 1 < attempts {
      CallsFromExact(op, i + 1, attempts, calls);
    }
  }

  lemma {:induction false} CallsExact<T, E>(policy: RetryPolicy, op: nat -> Result<T, E>, calls: nat)
    ensures calls == Calls(policy, op) <==> Exhausts(policy, op, calls)
  {
    CallsFromExact(op, 0, policy.Attempts(), calls);
  }

  /**
   * Runs `op`, whose `i`-th call returns `op(i)`, and records what it did: the number of calls and
   * the length of each sleep.
   */
  method Run<T, E>(policy: RetryPolicy, op: nat -> Result<T, E>)
    returns (r: Result<T, E>, calls: nat, sleeps: seq<duration>)
    ensures r == Outcome(policy, op) && calls == Calls(policy, op)
    ensures Exhausts(policy, op, calls) && r == op(calls - 1)
    ensures |sleeps| == calls - 1 && Delays(policy, sleeps)
  {
    CallsExact(policy, op, Calls(policy, op));
    var attempts := policy.Attempts();
    var lastErr: Option<E> := None;
    calls, sleeps := 0, [];
    for attempt := 0 to attempts
      invariant calls == attempt
      invariant attempt < attempts ==> CallsFrom(op, attempt, attempts) == Calls(policy, op)
      invariant attempt == attempts ==> Calls(policy, op) == attempts
      invariant attempt > 0 ==> op(attempt - 1).Err? && lastErr == Some(op(attempt - 1).error)
      invariant |sleeps| == (if attempt < attempts then attempt else attempt - 1) && Delays(policy, sleeps)
    {
      var result := op(attempt);
      calls := calls + 1;
      match result
      case Ok(value) =>
        return Ok(value), calls, sleeps;
      case Err(err) =>
        lastErr := Some(err);
        if attempt + 1 < attempts {
          sleeps := sleeps + [BackoffFor(policy, attempt)];
        }
    }
    r := Err(lastErr.value);
  }

  /** The number of calls stays within the configured maximum, and a maximum of zero still allows one. */
  lemma {:induction false} CallsWithinMaximum<T, E>(policy: RetryPolicy, op: nat -> Result<T, E>)
    ensures var most: nat := if policy.maxAttempts == 0 then 1 else policy.maxAttempts;
      && Calls(policy, op) <= most
      && ((forall i :: 0 <= i < most ==> op(i).Err?) ==> Calls(policy, op) == most)
      && policy.Attempts() == most
  {
    CallsExact(policy, op, Calls(policy, op));
  }

  /** The operation fails as a whole exactly when every allowed attempt fails. */
  lemma {:induction false} FailsExact<T, E>(policy: RetryPolicy, op: nat -> Result<T, E>)
    ensures Outcome(policy, op).Err? <==> forall i :: 0 <= i < policy.Attempts() ==> op(i).Err?
    ensures Outcome(policy, op).Err? ==> Calls(policy, op) == policy.Attempts()
  {
    var calls := Calls(policy, op);
    CallsExact(policy, op, calls);
    assert Outcome(policy, op) == op(calls - 1);
  }

  /** The delay of this attempt is below the cap and its power is not saturated. */
  predicate Uncapped(policy: RetryPolicy, attempt: nat) {
    && Pow(policy.multiplier, attempt) <= U32_MAX
    && AsMillis(policy.initialBackoff) * Pow(policy.multiplier, attempt) <= AsMillis(policy.maxBackoff)
    && AsMillis(policy.maxBackoff) < U64_RANGE
  }

  lemma {:induction false} UncappedDelay(policy: RetryPolicy, attempt: u32)
    requires Uncapped(policy, attempt)
    ensures BackoffFor(policy, attempt)
         == AsMillis(policy.initialBackoff) * NANOS_PER_MILLI * Pow(policy.multiplier, attempt)
  {
    BackoffExact(policy, attempt);
    var initial, power := AsMillis(policy.initialBackoff), Pow(policy.multiplier, attempt);
    assert initial * power * NANOS_PER_MILLI == initial * NANOS_PER_MILLI * power;
  }

  lemma {:induction false} PowOne(n: nat)
    ensures Pow(1, n) == 1
  {
    if n > 0 { PowOne(n - 1); }
  }

  /** With a multiplier of one and no delay capped, every sleep is the initial delay. */
  lemma {:induction false} TotalSleepConstant(policy: RetryPolicy, sleeps: seq<duration>)
    requires Delays(policy, sleeps) && policy.multiplier == 1 && forall i :: 0 <= i < |sleeps| ==> Uncapped(policy, i)
    ensures Total(sleeps) == |sleeps| * (AsMillis(policy.initialBackoff) * NANOS_PER_MILLI)
  {
    if |sleeps| > 0 {
      var n := |sleeps| - 1;
      TotalSleepConstant(policy, sleeps[..n]);
      UncappedDelay(policy, n);
      PowOne(n);
      OneMore(n, AsMillis(policy.initialBackoff) * NANOS_PER_MILLI);
    }
  }

  /** While no delay is capped, the sleeps are a geometric series; with a multiplier of one, a multiple. */
  lemma {:induction false} TotalSleepGeometric(policy: RetryPolicy, sleeps: seq<duration>)
    requires Delays(policy, sleeps) && forall i :: 0 <= i < |sleeps| ==> Uncapped(policy, i)
    ensures Total(sleeps) * (policy.multiplier - 1)
         == AsMillis(policy.initialBackoff) * NANOS_PER_MILLI * (Pow(policy.multiplier, |sleeps|) - 1)
    ensures policy.multiplier == 1 ==> Total(sleeps) == |sleeps| * (AsMillis(policy.initialBackoff) * NANOS_PER_MILLI)
  {
    if |sleeps| > 0 {
      var n := |sleeps| - 1;
      TotalSleepGeometric(policy, sleeps[..n]);
      UncappedDelay(policy, n);
      GeometricStep(Total(sleeps[..n]), AsMillis(policy.initialBackoff) * NANOS_PER_MILLI,
                    policy.multiplier, Pow(policy.multiplier, n));
    }
    if policy.multiplier == 1 {
      TotalSleepConstant(policy, sleeps);
    }
  }

  lemma {:induction false} GeometricStep(sum: int, unit: int, m: int, power: int)
    requires sum * (m - 1) == unit * (power - 1)
    ensures (sum + unit * power) * (m - 1) == unit * (m * power - 1)
  {
    assert (sum + unit * power) * (m - 1) == sum * (m - 1) + unit * power * (m - 1);
    assert unit * power * (m - 1) == unit * (m * power) - unit * power;
  }
}
