/** The service around the engine: counters, the audit trail, and their agreement over runs. */
module Service {
  import opened Wrappers
  import opened Ed25519
  import opened Errors
  import opened Fields
  import opened Policy
  import opened Jwt
  import opened Verifier
  import opened Overrides

  datatype VerificationEvent = VerificationEvent(
    kind: TokenKind, valid: bool,
    subject: Option<string>, issuer: Option<string>, reason: Option<string>, at: i64)

  function EventOf(out: VerificationOutcome, at: i64): VerificationEvent {
    VerificationEvent(out.kind, out.valid, out.subject, out.issuer, out.reason, at)
  }

  type u64 = n: int | 0 <= n < 0x1_0000_0000_0000_0000

  /** `fetch_add(1)` on a 64-bit counter wraps. */
  function Increment(n: u64): u64 {
    if n == TWO64 - 1 then 0 else n + 1
  }

  datatype Counters = Counters(jwtAccepted: u64, jwtRejected: u64, vcAccepted: u64, vcRejected: u64)
  {
    function Count(e: VerificationEvent): Counters {
      match (e.kind, e.valid)
      case (JwtToken, true) => this.(jwtAccepted := Increment(jwtAccepted))
      case (JwtToken, false) => this.(jwtRejected := Increment(jwtRejected))
      case (CredentialToken, true) => this.(vcAccepted := Increment(vcAccepted))
      case (CredentialToken, false) => this.(vcRejected := Increment(vcRejected))
    }

    function Of(kind: TokenKind, valid: bool): u64 {
      match (kind, valid)
      case (JwtToken, true) => jwtAccepted
      case (JwtToken, false) => jwtRejected
      case (CredentialToken, true) => vcAccepted
      case (CredentialToken, false) => vcRejected
    }
  }

  const NO_COUNTS := Counters(0, 0, 0, 0)

  predicate Matches(e: VerificationEvent, kind: TokenKind, valid: bool) {
    e.kind == kind && e.valid == valid
  }

  /** How many events of a trail have this kind and verdict. */
  function Tally(trail: seq<VerificationEvent>, kind: TokenKind, valid: bool): nat {
    if |trail| == 0 then 0
    else Tally(trail[..|trail| - 1], kind, valid)
         + (if Matches(trail[|trail| - 1], kind, valid) then 1 else 0)
  }

  lemma {:induction false} TallySnoc(trail: seq<VerificationEvent>, e: VerificationEvent, kind: TokenKind, valid: bool)
    ensures Tally(trail + [e], kind, valid)
         == Tally(trail, kind, valid) + (if Matches(e, kind, valid) then 1 else 0)
  {
    assert (trail + [e])[..|trail|] == trail;
  }

  lemma {:induction false} CountedOnce(c: Counters, e: VerificationEvent, kind: TokenKind, valid: bool, n: nat)
    requires c.Of(kind, valid) == n % TWO64
    ensures c.Count(e).Of(kind, valid)
         == (n + (if Matches(e, kind, valid) then 1 else 0)) % TWO64
  {
  }

  /** The verdict of a credential call; None when the document does not parse. */
  function CredentialEvent(scheme: Scheme, policy: TrustPolicy, json: string, over: Option<PolicyOverride>, now: i64)
    : Option<VerificationEvent>
  {
    match VerifyCredentialJson(scheme, json, EffectivePolicy(policy, over), now)
    case Err(_) => None
    case Ok(out) => Some(EventOf(out, now))
  }

  /** One caller at a time. The key set and the time are what the ports returned to the call. */
  class EdgeVerifier {
    const scheme: Scheme
    const policy: TrustPolicy
    var counters: Counters
    var trail: seq<VerificationEvent>

    ghost predicate Valid()
      reads this
    {
      forall kind, valid :: counters.Of(kind, valid) == Tally(trail, kind, valid) % TWO64
    }

    constructor (scheme: Scheme, policy: TrustPolicy)
      ensures Valid() && this.scheme == scheme && this.policy == policy
      ensures counters == NO_COUNTS && trail == []
    {
      this.scheme := scheme;
      this.policy := policy;
      counters := NO_COUNTS;
      trail := [];
    }

    /** Counts the outcome and publishes its event. */
    method Record(out: VerificationOutcome, now: i64)
      requires Valid()
      modifies this
      ensures Valid() && counters == old(counters).Count(EventOf(out, now))
      ensures trail == old(trail) + [VerificationEvent(out.kind, out.valid, out.subject, out.issuer, out.reason, now)]
    {
      var e := EventOf(out, now);
      match (out.kind, out.valid) {
        case (JwtToken, true) => counters := counters.(jwtAccepted := Increment(counters.jwtAccepted));
        case (JwtToken, false) => counters := counters.(jwtRejected := Increment(counters.jwtRejected));
        case (CredentialToken, true) => counters := counters.(vcAccepted := Increment(counters.vcAccepted));
        case (CredentialToken, false) => counters := counters.(vcRejected := Increment(counters.vcRejected));
      }
      trail := trail + [e];
      forall kind, valid ensures counters.Of(kind, valid) == Tally(trail, kind, valid) % TWO64 {
        CountedOnce(old(counters), e, kind, valid, Tally(old(trail), kind, valid));
        TallySnoc(old(trail), e, kind, valid);
      }
    }

    method VerifyJwt(token: string, over: Option<PolicyOverride>, jwks: Jwks, now: i64)
      returns (out: VerificationOutcome)
      requires Valid()
      modifies this
      ensures Valid()
      ensures out == Verifier.VerifyJwt(scheme, token, jwks, EffectivePolicy(policy, over), now)
      ensures trail == old(trail) + [EventOf(out, now)] && counters == old(counters).Count(EventOf(out, now))
      ensures out.kind == JwtToken && (Jwt.Parse(token).Err? ==> !out.valid)
    {
      var effective := EffectivePolicy(policy, over);
      out := Verifier.VerifyJwt(scheme, token, jwks, effective, now);
      Record(out, now);
    }

    /** A document that does not parse is an error and leaves no trace. */
    method VerifyCredentialJson(json: string, over: Option<PolicyOverride>, now: i64)
      returns (r: Result<VerificationOutcome, VerifyError>)
      requires Valid()
      modifies this
      ensures Valid()
      ensures r == Verifier.VerifyCredentialJson(scheme, json, EffectivePolicy(policy, over), now)
      ensures r.Err? ==> counters == old(counters) && trail == old(trail)
      ensures r.Ok? ==> trail == old(trail) + [EventOf(r.value, now)]
                        && counters == old(counters).Count(EventOf(r.value, now))
    {
      var effective := EffectivePolicy(policy, over);
      r := Verifier.VerifyCredentialJson(scheme, json, effective, now);
      if r.Ok? {
        Record(r.value, now);
      }
    }

    /** What the counters say about the trail, with no call running beside this one. */
    method Stats() returns (snapshot: Counters)
      requires Valid()
      ensures snapshot == counters
      ensures forall kind, valid :: snapshot.Of(kind, valid) == Tally(trail, kind, valid) % 0x1_0000_0000_0000_0000
    {
      snapshot := counters;
    }
  }

  /** An event is the outcome it reports, without scopes, roles and checks, at its time. */
  lemma {:induction false} EventExact(out: VerificationOutcome, at: i64, e: VerificationEvent)
    ensures e == EventOf(out, at) <==>
            && e.kind == out.kind && e.valid == out.valid && e.subject == out.subject
            && e.issuer == out.issuer && e.reason == out.reason && e.at == at
  {
  }

  // --------------------------------------------------------- concurrent callers

  /** Many callers share the counters and the trail; `pending` holds who has counted but not published. */
  datatype State = State(counters: Counters, trail: seq<VerificationEvent>, pending: map<nat, VerificationEvent>)

  datatype Action =
    | CountJwt(caller: nat, token: string, over: Option<PolicyOverride>, jwks: Jwks, now: i64)
    | CountCredential(caller: nat, json: string, over: Option<PolicyOverride>, now: i64)
    | Publish(caller: nat)

  const START := State(NO_COUNTS, [], map[])

  function CountEvent(s: State, caller: nat, e: VerificationEvent): State {
    if caller in s.pending then s
    else State(s.counters.Count(e), s.trail, s.pending[caller := e])
  }

  /** One atomic step of one caller; a step its caller is not ready for changes nothing. */
  function Step(scheme: Scheme, policy: TrustPolicy, s: State, a: Action): State {
    match a
    case CountJwt(caller, token, over, jwks, now) =>
      CountEvent(s, caller, EventOf(Verifier.VerifyJwt(scheme, token, jwks, EffectivePolicy(policy, over), now), now))
    case CountCredential(caller, json, over, now) =>
      (match CredentialEvent(scheme, policy, json, over, now)
       case None => s
       case Some(e) => CountEvent(s, caller, e))
    case Publish(caller) =>
      if caller in s.pending
      then State(s.counters, s.trail + [s.pending[caller]], s.pending - {caller})
      else s
  }

  function Run(scheme: Scheme, policy: TrustPolicy, actions: seq<Action>): State {
    if |actions| == 0 then START
    else Step(scheme, policy, Run(scheme, policy, actions[..|actions| - 1]), actions[|actions| - 1])
  }

  /** A token call whose two steps run with nothing between them does what the method does. */
  lemma {:induction false} AloneIsVerifyJwt(scheme: Scheme, policy: TrustPolicy, s: State, caller: nat, token: string,
                                            over: Option<PolicyOverride>, jwks: Jwks, now: i64)
    requires caller !in s.pending
    ensures var out := Verifier.VerifyJwt(scheme, token, jwks, EffectivePolicy(policy, over), now);
      var e := VerificationEvent(JwtToken, out.valid, out.subject, out.issuer, out.reason, now);
      Step(scheme, policy, Step(scheme, policy, s, CountJwt(caller, token, over, jwks, now)), Publish(caller))
      == State(s.counters.Count(e), s.trail + [e], s.pending)
  {
    var counted := Step(scheme, policy, s, CountJwt(caller, token, over, jwks, now));
    assert counted.pending - {caller} == s.pending;
  }

  /** A credential call likewise; one whose document does not parse changes nothing. */
  lemma {:induction false} AloneIsVerifyCredential(scheme: Scheme, policy: TrustPolicy, s: State, caller: nat,
                                                   json: string, over: Option<PolicyOverride>, now: i64)
    requires caller !in s.pending
    ensures var r := Verifier.VerifyCredentialJson(scheme, json, EffectivePolicy(policy, over), now);
      var t := Step(scheme, policy, Step(scheme, policy, s, CountCredential(caller, json, over, now)), Publish(caller));
      match r
      case Err(_) => t == s
      case Ok(out) =>
        var e := VerificationEvent(CredentialToken, out.valid, out.subject, out.issuer, out.reason, now);
        t == State(s.counters.Count(e), s.trail + [e], s.pending)
  {
    var r := Verifier.VerifyCredentialJson(scheme, json, EffectivePolicy(policy, over), now);
    if r.Ok? {
      var e := EventOf(r.value, now);
      assert CredentialEvent(scheme, policy, json, over, now) == Some(e);
      assert CountEvent(s, caller, e).pending - {caller} == s.pending;
    }
  }

  /** The callers between their increment and their publish, for one kind and verdict. */
  ghost function InFlight(s: State, kind: TokenKind, valid: bool): set<nat> {
    set c | c in s.pending && Matches(s.pending[c], kind, valid)
  }

  ghost predicate Agreement(s: State, kind: TokenKind, valid: bool) {
    s.counters.Of(kind, valid)
    == (Tally(s.trail, kind, valid) + |InFlight(s, kind, valid)|) % 0x1_0000_0000_0000_0000
  }

  lemma {:induction false} EnterFlight(s: State, caller: nat, e: VerificationEvent, kind: TokenKind, valid: bool)
    requires caller !in s.pending
    ensures InFlight(CountEvent(s, caller, e), kind, valid)
         == InFlight(s, kind, valid) + (if Matches(e, kind, valid) then {caller} else {})
    ensures caller !in InFlight(s, kind, valid)
  {
  }

  lemma {:induction false} LeaveFlight(s: State, t: State, caller: nat, kind: TokenKind, valid: bool)
    requires caller in s.pending && t.pending == s.pending - {caller}
    ensures InFlight(s, kind, valid)
         == InFlight(t, kind, valid) + (if Matches(s.pending[caller], kind, valid) then {caller} else {})
    ensures caller !in InFlight(t, kind, valid)
  {
  }

  lemma {:induction false} OneMore(before: set<nat>, caller: nat, more: bool)
    requires caller !in before
    ensures |before + (if more then {caller} else {})| == |before| + (if more then 1 else 0)
  {
    assert !more ==> before + {} == before;
  }

  lemma {:induction false} CountAgrees(s: State, caller: nat, e: VerificationEvent, kind: TokenKind, valid: bool)
    requires Agreement(s, kind, valid)
    ensures Agreement(CountEvent(s, caller, e), kind, valid)
  {
    if caller !in s.pending {
      var before := InFlight(s, kind, valid);
      CountedOnce(s.counters, e, kind, valid, Tally(s.trail, kind, valid) + |before|);
      EnterFlight(s, caller, e, kind, valid);
      OneMore(before, caller, Matches(e, kind, valid));
    }
  }

  lemma {:induction false} PublishAgrees(s: State, caller: nat, kind: TokenKind, valid: bool)
    requires Agreement(s, kind, valid) && caller in s.pending
    ensures Agreement(State(s.counters, s.trail + [s.pending[caller]], s.pending - {caller}), kind, valid)
  {
    var e := s.pending[caller];
    var t := State(s.counters, s.trail + [e], s.pending - {caller});
    TallySnoc(s.trail, e, kind, valid);
    LeaveFlight(s, t, caller, kind, valid);
    OneMore(InFlight(t, kind, valid), caller, Matches(e, kind, valid));
  }

  /** After any interleaving, each counter is what was published plus what is in flight, modulo 2^64. */
  lemma {:induction false} CountersAgree(scheme: Scheme, policy: TrustPolicy, actions: seq<Action>,
                                         kind: TokenKind, valid: bool)
    ensures Agreement(Run(scheme, policy, actions), kind, valid)
  {
    if |actions| == 0 {
      assert InFlight(START, kind, valid) == {};
    } else {
      var s, a := Run(scheme, policy, actions[..|actions| - 1]), actions[|actions| - 1];
      CountersAgree(scheme, policy, actions[..|actions| - 1], kind, valid);
      match a
      case CountJwt(caller, token, over, jwks, now) =>
        CountAgrees(s, caller,
          EventOf(Verifier.VerifyJwt(scheme, token, jwks, EffectivePolicy(policy, over), now), now), kind, valid);
      case CountCredential(caller, json, over, now) =>
        var e := CredentialEvent(scheme, policy, json, over, now);
        if e.Some? { CountAgrees(s, caller, e.value, kind, valid); }
      case Publish(caller) =>
        if caller in s.pending { PublishAgrees(s, caller, kind, valid); }
    }
  }

  /** The actions so far when each counter is loaded, in the order of the loads. */
  datatype Loads = Loads(jwtAccepted: nat, jwtRejected: nat, vcAccepted: nat, vcRejected: nat)
  {
    predicate InOrder(end: nat) {
      jwtAccepted <= jwtRejected <= vcAccepted <= vcRejected <= end
    }

    function Of(kind: TokenKind, valid: bool): nat {
      match (kind, valid)
      case (JwtToken, true) => jwtAccepted
      case (JwtToken, false) => jwtRejected
      case (CredentialToken, true) => vcAccepted
      case (CredentialToken, false) => vcRejected
    }
  }

  /** The snapshot of a caller that loads the four counters one after the other while others run. */
  function Loaded(scheme: Scheme, policy: TrustPolicy, actions: seq<Action>, loads: Loads): Counters
    requires loads.InOrder(|actions|)
  {
    Counters(Run(scheme, policy, actions[..loads.jwtAccepted]).counters.jwtAccepted,
             Run(scheme, policy, actions[..loads.jwtRejected]).counters.jwtRejected,
             Run(scheme, policy, actions[..loads.vcAccepted]).counters.vcAccepted,
             Run(scheme, policy, actions[..loads.vcRejected]).counters.vcRejected)
  }

  lemma {:induction false} LoadedField(scheme: Scheme, policy: TrustPolicy, actions: seq<Action>, loads: Loads,
                                       kind: TokenKind, valid: bool)
    requires loads.InOrder(|actions|)
    ensures loads.Of(kind, valid) <= |actions|
    ensures Loaded(scheme, policy, actions, loads).Of(kind, valid)
         == Run(scheme, policy, actions[..loads.Of(kind, valid)]).counters.Of(kind, valid)
  {
    match (kind, valid)
    case (JwtToken, true) =>
    case (JwtToken, false) =>
    case (CredentialToken, true) =>
    case (CredentialToken, false) =>
  }

  /** Each field of a snapshot is what was published and in flight when that field was loaded. */
  lemma {:induction false} SnapshotAgrees(scheme: Scheme, policy: TrustPolicy, actions: seq<Action>, loads: Loads,
                                          kind: TokenKind, valid: bool)
    requires loads.InOrder(|actions|)
    ensures var s := Run(scheme, policy, actions[..loads.Of(kind, valid)]);
      Loaded(scheme, policy, actions, loads).Of(kind, valid) == s.counters.Of(kind, valid) && Agreement(s, kind, valid)
  {
    LoadedField(scheme, policy, actions, loads, kind, valid);
    CountersAgree(scheme, policy, actions[..loads.Of(kind, valid)], kind, valid);
  }
}
