/** Per-request overrides of the trust policy, and when they tighten it. */
module Overrides {
  import opened Wrappers
  import opened Ed25519
  import opened Fields
  import opened Policy
  import opened Jwt
  import opened Credential
  import opened Scopes
  import opened Ordering
  import opened Verifier
  import opened VerifierLaws

  datatype PolicyOverride = PolicyOverride(audience: Option<string>, requiredScopes: set<string>)
  {
    predicate IsEmpty() {
      audience.None? && requiredScopes == {}
    }
  }

  /** The policy of a request: the base itself, or a copy with the override's edits. */
  function EffectivePolicy(base: TrustPolicy, over: Option<PolicyOverride>): TrustPolicy {
    match over
    case None => base
    case Some(o) =>
      if o.IsEmpty() then base
      else
        var p := if o.audience.Some? then base.(expectedAudience := o.audience) else base;
        p.(requiredScopes := p.requiredScopes + o.requiredScopes)
  }

  /** Doing `first` and then `second` in one override: scopes add up, the last audience set wins. */
  function Stack(first: PolicyOverride, second: PolicyOverride): PolicyOverride {
    PolicyOverride(if second.audience.Some? then second.audience else first.audience,
                   first.requiredScopes + second.requiredScopes)
  }

  lemma {:induction false} StackedOverrides(base: TrustPolicy, first: PolicyOverride, second: PolicyOverride)
    ensures EffectivePolicy(EffectivePolicy(base, Some(first)), Some(second))
         == EffectivePolicy(base, Some(Stack(first, second)))
  {
    assert base.requiredScopes + first.requiredScopes + second.requiredScopes
        == base.requiredScopes + (first.requiredScopes + second.requiredScopes);
  }

  /** The audience a request demands: the override's if it has one, else the base policy's. */
  ghost predicate Addressed(claims: JwtClaims, base: TrustPolicy, over: Option<PolicyOverride>) {
    && (over.Some? && over.value.audience.Some? ==> AddressedTo(claims.aud, over.value.audience.value))
    && (over.None? || over.value.audience.None? ==>
          (base.expectedAudience.Some? ==> AddressedTo(claims.aud, base.expectedAudience.value)))
  }

  /** What a request demands of claims, without building a policy for it. */
  ghost predicate PermittedUnder(claims: JwtClaims, base: TrustPolicy, over: Option<PolicyOverride>) {
    && FromTrusted(claims.iss, base.trustedIssuers)
    && Addressed(claims, base, over)
    && (forall w :: w in base.requiredScopes ==> Granted(claims.scope, w))
    && (over.Some? ==> forall w :: w in over.value.requiredScopes ==> Granted(claims.scope, w))
    && Unrevoked(claims.jti, base.revokedJti)
  }

  lemma {:induction false} EffectivePermits(claims: JwtClaims, base: TrustPolicy, over: Option<PolicyOverride>)
    ensures Permitted(claims, EffectivePolicy(base, over)) <==> PermittedUnder(claims, base, over)
    ensures EffectivePolicy(base, over).leewaySecs == base.leewaySecs
  {
  }

  /**
   * A request accepts a token exactly when it is authentic, meets the base policy on issuer, revocation
   * and time, is addressed to the override's audience or else the base one, and has the scopes of both.
   */
  lemma {:induction false} OverrideExact(scheme: Scheme, token: string, jwks: Jwks, base: TrustPolicy,
                                         over: Option<PolicyOverride>, now: i64)
    ensures VerifyJwt(scheme, token, jwks, EffectivePolicy(base, over), now).valid <==>
            exists jwt :: Authentic(scheme, token, jwks, jwt) && PermittedUnder(jwt.claims, base, over)
                          && ClaimsWindow(jwt.claims).Passes(now, base.leewaySecs)
  {
    VerifyJwtExact(scheme, token, jwks, EffectivePolicy(base, over), now);
    forall jwt: SignedJwt
      ensures Permitted(jwt.claims, EffectivePolicy(base, over)) <==> PermittedUnder(jwt.claims, base, over)
    {
      EffectivePermits(jwt.claims, base, over);
    }
    EffectivePermits(JwtClaims(None, None, None, None, None, None, None, None, []), base, over);
  }

  /** Whatever an override accepts passes every check of the base policy but the audience. */
  lemma {:induction false} OverrideKeepsOtherChecks(scheme: Scheme, token: string, jwks: Jwks, base: TrustPolicy,
                                                    over: Option<PolicyOverride>, now: i64)
    ensures VerifyJwt(scheme, token, jwks, EffectivePolicy(base, over), now).valid
            ==> VerifyJwt(scheme, token, jwks, base, now).checks.(audience := true).All()
  {
    if VerifyJwt(scheme, token, jwks, EffectivePolicy(base, over), now).valid {
      var claims := Jwt.Parse(token).value.claims;
      assert ClaimsChecks(claims, EffectivePolicy(base, over), now).All();
      assert base.requiredScopes <= EffectivePolicy(base, over).requiredScopes;
    }
  }

  /** The override leaves the audience check of the base policy in force. */
  predicate KeepsAudience(base: TrustPolicy, over: PolicyOverride) {
    base.expectedAudience.None? || over.audience.None? || over.audience == base.expectedAudience
  }

  /** The scopes an override demands can be granted by some token. */
  ghost predicate Grantable(base: TrustPolicy, over: PolicyOverride) {
    forall w :: w in base.requiredScopes + over.requiredScopes ==> IsWord(w)
  }

  lemma {:induction false} KeptAudienceTightens(scheme: Scheme, token: string, jwks: Jwks, base: TrustPolicy,
                                                over: PolicyOverride, now: i64)
    requires KeepsAudience(base, over)
    ensures VerifyJwt(scheme, token, jwks, EffectivePolicy(base, Some(over)), now).valid
            ==> VerifyJwt(scheme, token, jwks, base, now).valid
  {
    OverrideKeepsOtherChecks(scheme, token, jwks, base, Some(over), now);
  }

  lemma {:induction false} UngrantableAcceptsNothing(scheme: Scheme, token: string, jwks: Jwks, base: TrustPolicy,
                                                     over: PolicyOverride, now: i64)
    ensures VerifyJwt(scheme, token, jwks, EffectivePolicy(base, Some(over)), now).valid ==> Grantable(base, over)
  {
    if VerifyJwt(scheme, token, jwks, EffectivePolicy(base, Some(over)), now).valid {
      var scope := Jwt.Parse(token).value.claims.scope;
      var all := base.requiredScopes + over.requiredScopes;
      assert EffectivePolicy(base, Some(over)).requiredScopes == all;
      GrantedAreWords(scope, all);
    }
  }

  /** Claims that satisfy an override that replaces the base audience. */
  function LooseClaims(base: TrustPolicy, over: PolicyOverride): JwtClaims
    requires over.audience.Some?
  {
    JwtClaims(
      iss := if base.trustedIssuers == {} then None else Some(Least(base.trustedIssuers)),
      sub := None,
      aud := Some(Single(over.audience.value)),
      exp := None, nbf := None, iat := None, jti := None,
      scope := Some(JoinWords(Sorted(base.requiredScopes + over.requiredScopes))),
      roles := [])
  }

  lemma {:induction false} LooseToken(scheme: Scheme, secret: seq<byte>, base: TrustPolicy, over: PolicyOverride,
                                      now: i64)
    returns (token: string, jwks: Jwks)
    requires scheme.Correct() && Grantable(base, over) && !KeepsAudience(base, over)
    ensures VerifyJwt(scheme, token, jwks, EffectivePolicy(base, Some(over)), now).valid
    ensures !VerifyJwt(scheme, token, jwks, base, now).valid
  {
    var header, claims := JwtHeader(JWT_ALG, None, None), LooseClaims(base, over);
    var key := scheme.publicKey(secret);
    var jwk := JwkOfKey(key, "");
    assert scheme.ValidKey(key);
    KeyOfJwkExact(scheme, jwk, key);
    token, jwks := EncodeJwt(scheme, header, claims, secret), Jwks([jwk]);
    ParseMinted(scheme, header, claims, secret);
    VerifyMinted(scheme, header, claims, secret, jwks, jwk);
    ScopeOfWords(base.requiredScopes + over.requiredScopes);
    assert ClaimsChecks(claims, EffectivePolicy(base, Some(over)), now).All();
    assert !ClaimsChecks(claims, base, now).audience;
  }

  /**
   * An override never loosens the base policy exactly when it keeps the base audience, or demands a
   * scope no token can have. Replacing one audience by another accepts tokens the base rejects.
   */
  lemma {:induction false} NeverLoosensExact(scheme: Scheme, secret: seq<byte>, base: TrustPolicy, over: PolicyOverride)
    requires scheme.Correct()
    ensures (forall token, jwks, now: i64 ::
               VerifyJwt(scheme, token, jwks, EffectivePolicy(base, Some(over)), now).valid
               ==> VerifyJwt(scheme, token, jwks, base, now).valid)
            <==> KeepsAudience(base, over) || !Grantable(base, over)
  {
    if KeepsAudience(base, over) || !Grantable(base, over) {
      forall token, jwks, now: i64
          | VerifyJwt(scheme, token, jwks, EffectivePolicy(base, Some(over)), now).valid
        ensures VerifyJwt(scheme, token, jwks, base, now).valid
      {
        UngrantableAcceptsNothing(scheme, token, jwks, base, over, now);
        assert KeepsAudience(base, over);
        KeptAudienceTightens(scheme, token, jwks, base, over, now);
      }
    } else {
      var token, jwks := LooseToken(scheme, secret, base, over, 0);
    }
  }

  /** Overrides do not apply to credentials: their outcome is that of the base policy. */
  lemma {:induction false} CredentialsIgnoreOverrides(scheme: Scheme, vc: VerifiableCredential, base: TrustPolicy,
                                                      over: Option<PolicyOverride>, now: i64)
    ensures VerifyCredential(scheme, vc, EffectivePolicy(base, over), now)
         == VerifyCredential(scheme, vc, base, now)
  {
  }
}
