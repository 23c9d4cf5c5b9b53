/** The three-state circuit breaker: its steps, its runs, and the class that holds its state. */
module Breaker {
  import opened Backoff

  datatype BreakerConfig = BreakerConfig(failureThreshold: u32, openDuration: duration)
  {
    /** A threshold of zero trips on the first failure, like a threshold of one. */
    function Threshold(): nat {
      if failureThreshold == 0 then 1 else failureThreshold
    }
  }

  datatype RawState = Closed | Open(openedAt: nat) | HalfOpen

  datatype CircuitState = ShowsClosed | ShowsOpen | ShowsHalfOpen

  datatype Inner = Inner(failures: u32, state: RawState)

  const FRESH := Inner(0, Closed)

  /** Time elapsed since an instant; zero for an instant in the future. */
  function Since(now: nat, earlier: nat): nat {
    if now >= earlier then now - earlier else 0
  }

  function Admits(config: BreakerConfig, inner: Inner, now: nat): bool {
    inner.state.Open? ==> Since(now, inner.state.openedAt) >= config.openDuration
  }

  function AfterAcquire(config: BreakerConfig, inner: Inner, now: nat): Inner {
    if inner.state.Open? && Admits(config, inner, now) then inner.(state := HalfOpen) else inner
  }

  function SaturatingInc(n: u32): u32 {
    if n == U32_MAX then n else n + 1
  }

  function AfterFailure(config: BreakerConfig, inner: Inner, now: nat): Inner {
    match inner.state
    case HalfOpen => inner.(state := Open(now))
    case Closed =>
      var failures := SaturatingInc(inner.failures);
      Inner(failures, if failures >= config.failureThreshold then Open(now) else Closed)
    case Open(_) => inner
  }

  /** One operation on the breaker, at the time it held the lock. */
  datatype Event = Acquire(at: nat) | Success(at: nat) | Failure(at: nat)

  function Step(config: BreakerConfig, inner: Inner, e: Event): Inner {
    match e
    case Acquire(at) => AfterAcquire(config, inner, at)
    case Success(_) => FRESH
    case Failure(at) => AfterFailure(config, inner, at)
  }

  /** The state after a history of operations by any number of callers. */
  function Run(config: BreakerConfig, events: seq<Event>): Inner {
    if |events| == 0 then FRESH
    else Step(config, Run(config, events[..|events| - 1]), events[|events| - 1])
  }

  lemma {:induction false} RunSnoc(config: BreakerConfig, events: seq<Event>, e: Event)
    ensures Run(config, events + [e]) == Step(config, Run(config, events), e)
  {
    assert (events + [e])[..|events|] == events;
  }

  /** The history is a ghost: what the breaker remembers is the counter and the state. */
  class CircuitBreaker {
    const config: BreakerConfig
    var failures: u32
    var state: RawState
    ghost var history: seq<Event>

    ghost predicate Valid()
      reads this
    {
      Inner(failures, state) == Run(config, history)
    }

    constructor (config: BreakerConfig)
      ensures Valid() && this.config == config && history == []
    {
      this.config := config;
      failures := 0;
      state := Closed;
      history := [];
    }

    method State() returns (s: CircuitState)
      requires Valid()
      ensures s == match Run(config, history).state
                   case Closed => ShowsClosed case Open(_) => ShowsOpen case HalfOpen => ShowsHalfOpen
    {
      match state
      case Closed => s := ShowsClosed;
      case Open(_) => s := ShowsOpen;
      case HalfOpen => s := ShowsHalfOpen;
    }

    method Acquire(now: nat) returns (admitted: bool)
      requires Valid()
      modifies this
      ensures Valid() && history == old(history) + [Event.Acquire(now)]
      ensures admitted == Admits(config, Run(config, old(history)), now)
      ensures !admitted ==> failures == old(failures) && state == old(state)
    {
      RunSnoc(config, history, Event.Acquire(now));
      match state {
        case Closed => admitted := true;
        case HalfOpen => admitted := true;
        case Open(openedAt) =>
          admitted := Since(now, openedAt) >= config.openDuration;
          if admitted {
            state := HalfOpen;
          }
      }
      history := history + [Event.Acquire(now)];
    }

    method RecordSuccess(now: nat)
      requires Valid()
      modifies this
      ensures Valid() && history == old(history) + [Success(now)]
    {
      RunSnoc(config, history, Success(now));
      failures := 0;
      state := Closed;
      history := history + [Success(now)];
    }

    method RecordFailure(now: nat)
      requires Valid()
      modifies this
      ensures Valid() && history == old(history) + [Failure(now)]
    {
      RunSnoc(config, history, Failure(now));
      match state {
        case HalfOpen =>
          state := Open(now);
        case Closed =>
          failures := SaturatingInc(failures);
          if failures >= config.failureThreshold {
            state := Open(now);
          }
        case Open(_) =>
      }
      history := history + [Failure(now)];
    }
  }
}
