/** What acceptance means, and how it moves with time, leeway and the way a token is written. */
module VerifierLaws {
  import opened Wrappers
  import opened Ed25519
  import opened Fields
  import opened Policy
  import opened Jwt
  import opened Credential
  import opened Scopes
  import opened Verifier
  import opened Ordering
  import CredentialReading
  import Errors
  import Json

  // -------------------------------------------------- declarative specification

  /** No issuer is demanded, or the token names one of those that are. */
  ghost predicate FromTrusted(iss: Option<string>, issuers: set<string>) {
    issuers == {} || exists i :: i in issuers && iss == Some(i)
  }

  /** The audience is this one, or a list in which it stands anywhere. */
  ghost predicate AddressedTo(aud: Option<Audience>, audience: string) {
    || aud == Some(Single(audience))
    || exists list, i :: aud == Some(Multiple(list)) && 0 <= i < |list| && list[i] == audience
  }

  ghost predicate Granted(scope: Option<string>, w: string) {
    scope.Some? && w in Words(scope.value)
  }

  ghost predicate Unrevoked(jti: Option<string>, revoked: set<string>) {
    forall j :: j in revoked ==> jti != Some(j)
  }

  /** Every condition of the policy except time. */
  ghost predicate Permitted(claims: JwtClaims, policy: TrustPolicy) {
    && FromTrusted(claims.iss, policy.trustedIssuers)
    && (policy.expectedAudience.Some? ==> AddressedTo(claims.aud, policy.expectedAudience.value))
    && (forall w :: w in policy.requiredScopes ==> Granted(claims.scope, w))
    && Unrevoked(claims.jti, policy.revokedJti)
  }

  lemma {:induction false} AudienceExact(aud: Audience, audience: string)
    ensures aud.Contains(audience) <==> AddressedTo(Some(aud), audience)
  {
    if aud.Multiple? && audience in aud.values {
      var i :| 0 <= i < |aud.values| && aud.values[i] == audience;
      assert Some(aud) == Some(Multiple(aud.values));
    }
  }

  /** What each reported check of a token means. */
  ghost predicate ChecksMean(checks: VerificationChecks, claims: JwtClaims, policy: TrustPolicy, now: i64) {
    && checks.signature
    && (checks.issuerTrusted <==> FromTrusted(claims.iss, policy.trustedIssuers))
    && (checks.notBefore <==> Started(claims.nbf, now, policy.leewaySecs))
    && (checks.notExpired <==> NotEnded(claims.exp, now, policy.leewaySecs))
    && (checks.audience <==> (policy.expectedAudience.Some? ==> AddressedTo(claims.aud, policy.expectedAudience.value)))
    && (checks.scopes <==> forall w :: w in policy.requiredScopes ==> Granted(claims.scope, w))
    && (checks.notRevoked <==> Unrevoked(claims.jti, policy.revokedJti))
  }

  lemma {:induction false} ClaimsChecksMean(claims: JwtClaims, policy: TrustPolicy, now: i64)
    ensures ChecksMean(ClaimsChecks(claims, policy, now), claims, policy, now)
  {
    if claims.aud.Some? && policy.expectedAudience.Some? {
      AudienceExact(claims.aud.value, policy.expectedAudience.value);
    }
    forall w ensures w in ScopeSet(claims.scope) <==> Granted(claims.scope, w) {
    }
    if policy.IssuerTrusted(claims.iss) && policy.trustedIssuers != {} {
      assert claims.iss.value in policy.trustedIssuers && claims.iss == Some(claims.iss.value);
    }
    if claims.jti.Some? && claims.jti.value in policy.revokedJti {
      assert claims.jti == Some(claims.jti.value);
    }
  }

  function ClaimsWindow(claims: JwtClaims): Window {
    Window(claims.nbf, claims.exp)
  }

  function CredentialWindow(vc: VerifiableCredential): Window {
    Window(Some(vc.issuedAt), vc.expiresAt)
  }

  /** A canonical compact text whose signature the key set vouches for. */
  ghost predicate Authentic(scheme: Scheme, token: string, jwks: Jwks, jwt: SignedJwt) {
    && (exists header, payload :: Compact(token, jwt, header, payload))
    && (exists jwk, key :: Signed(scheme, jwt, jwks, jwk, key))
  }

  lemma {:induction false} AuthenticExact(scheme: Scheme, token: string, jwks: Jwks, jwt: SignedJwt)
    ensures Authentic(scheme, token, jwks, jwt)
            <==> Jwt.Parse(token) == Ok(jwt) && VerifyWith(scheme, jwt, jwks).Ok?
  {
    ParseExact(token, jwt);
    VerifyWithExact(scheme, jwt, jwks);
  }

  lemma {:induction false} ClaimsChecksExact(claims: JwtClaims, policy: TrustPolicy, now: i64)
    ensures ClaimsChecks(claims, policy, now).All() <==>
            Permitted(claims, policy) && ClaimsWindow(claims).Passes(now, policy.leewaySecs)
  {
    ClaimsChecksMean(claims, policy, now);
  }

  /** An authentic token with permitted claims. */
  ghost predicate Acceptable(scheme: Scheme, token: string, jwks: Jwks, policy: TrustPolicy, jwt: SignedJwt) {
    Authentic(scheme, token, jwks, jwt) && Permitted(jwt.claims, policy)
  }

  /**
   * The verifier accepts a token exactly when it is an authentic compact text whose claims the
   * policy permits and whose window passes the time checks; unless a sum overflows, those hold
   * exactly when the window, widened by the leeway, holds the present.
   */
  lemma {:induction false} VerifyJwtExact(scheme: Scheme, token: string, jwks: Jwks, policy: TrustPolicy, now: i64)
    ensures VerifyJwt(scheme, token, jwks, policy, now).valid <==>
            exists jwt :: Acceptable(scheme, token, jwks, policy, jwt)
                          && ClaimsWindow(jwt.claims).Passes(now, policy.leewaySecs)
    ensures NoOverflow(now, policy.leewaySecs) ==>
              (VerifyJwt(scheme, token, jwks, policy, now).valid <==>
               exists jwt :: Acceptable(scheme, token, jwks, policy, jwt)
                             && ClaimsWindow(jwt.claims).Admits(now, policy.leewaySecs))
  {
    var leeway := policy.leewaySecs;
    forall jwt | Acceptable(scheme, token, jwks, policy, jwt)
      ensures VerifyJwt(scheme, token, jwks, policy, now).valid <==> ClaimsWindow(jwt.claims).Passes(now, leeway)
    {
      AuthenticExact(scheme, token, jwks, jwt);
      ClaimsChecksExact(jwt.claims, policy, now);
    }
    if VerifyJwt(scheme, token, jwks, policy, now).valid {
      var jwt := Jwt.Parse(token).value;
      AuthenticExact(scheme, token, jwks, jwt);
      ClaimsChecksExact(jwt.claims, policy, now);
      assert Acceptable(scheme, token, jwks, policy, jwt) && ClaimsWindow(jwt.claims).Passes(now, leeway);
    }
    if NoOverflow(now, leeway) {
      forall w: Window ensures w.Passes(now, leeway) <==> w.Admits(now, leeway) {
        ChecksAreWindow(w, now, leeway);
      }
    }
  }

  /** The same for a credential: a proven signature, a trusted issuer, the window, no revocation. */
  lemma {:induction false} VerifyCredentialExact(scheme: Scheme, vc: VerifiableCredential,
                                                 policy: TrustPolicy, now: i64)
    ensures VerifyCredential(scheme, vc, policy, now).valid <==>
            (exists key, signature :: Proven(scheme, vc, key, signature))
            && (policy.trustedIssuers == {} || vc.issuer.text in policy.trustedIssuers)
            && CredentialWindow(vc).Passes(now, policy.leewaySecs) && vc.id !in policy.revokedJti
    ensures NoOverflow(now, policy.leewaySecs) ==>
              (CredentialWindow(vc).Passes(now, policy.leewaySecs)
               <==> CredentialWindow(vc).Admits(now, policy.leewaySecs))
  {
    VerifySignatureExact(scheme, vc);
    if NoOverflow(now, policy.leewaySecs) {
      ChecksAreWindow(CredentialWindow(vc), now, policy.leewaySecs);
    }
  }

  // -------------------------------------------------------- shape of an outcome

  /** The order in which failing checks are reported. */
  function Ranked(checks: VerificationChecks): seq<bool> {
    [checks.signature, checks.issuerTrusted, checks.notBefore, checks.notExpired,
     checks.audience, checks.scopes, checks.notRevoked]
  }

  const REASONS: seq<string> :=
    ["signature verification failed", "issuer is not trusted", "artifact is not yet valid (nbf)",
     "artifact has expired (exp)", "audience mismatch (aud)", "required scope missing",
     "artifact has been revoked"]

  lemma {:induction false} ReasonsDistinct(i: nat, j: nat)
    requires i < |REASONS| && j < |REASONS| && REASONS[i] == REASONS[j]
    ensures i == j
  {
    assert |REASONS[0]| == 29 && |REASONS[1]| == 21 && |REASONS[2]| == 31 && |REASONS[3]| == 26
        && |REASONS[4]| == 23 && |REASONS[5]| == 22 && |REASONS[6]| == 25;
  }

  ghost predicate FirstFalse(checks: seq<bool>, i: nat) {
    i < |checks| && !checks[i] && forall j :: 0 <= j < i ==> checks[j]
  }

  /** The reason names the first failing check of the ranking, and there is none exactly when all pass. */
  lemma {:induction false} FirstFailureExact(checks: VerificationChecks)
    ensures FirstFailure(checks).None? <==> checks.All()
    ensures forall i :: 0 <= i < |REASONS| ==>
              (FirstFailure(checks) == Some(REASONS[i]) <==> FirstFalse(Ranked(checks), i))
  {
    if !checks.All() {
      var k := FirstFailureIndex(checks);
      forall i | 0 <= i < |REASONS| && FirstFailure(checks) == Some(REASONS[i]) ensures i == k {
        ReasonsDistinct(i, k);
      }
      assert forall i :: 0 <= i < |REASONS| && FirstFalse(Ranked(checks), i) ==> i == k;
    } else {
      assert forall i :: 0 <= i < 7 ==> Ranked(checks)[i];
    }
  }

  lemma {:induction false} FirstFailureIndex(checks: VerificationChecks) returns (k: nat)
    requires !checks.All()
    ensures k < |REASONS| && FirstFalse(Ranked(checks), k) && FirstFailure(checks) == Some(REASONS[k])
  {
    var r := Ranked(checks);
    k := if !r[0] then 0 else if !r[1] then 1 else if !r[2] then 2 else if !r[3] then 3
         else if !r[4] then 4 else if !r[5] then 5 else 6;
  }

  /** Nothing is reported about a token that did not authenticate; validity and reason agree. */
  ghost predicate WellFormed(out: VerificationOutcome) {
    && (out.valid <==> out.checks.All()) && (out.valid <==> out.reason.None?)
    && (!out.checks.signature ==>
          out.subject.None? && out.issuer.None? && out.scopes == [] && out.roles == []
          && out.checks == VerificationChecks(false, false, false, false, false, false, false))
  }

  lemma {:induction false} JwtOutcomeWellFormed(scheme: Scheme, token: string, jwks: Jwks, policy: TrustPolicy,
                                                now: i64)
    ensures var out := VerifyJwt(scheme, token, jwks, policy, now);
      && WellFormed(out) && out.kind == JwtToken && StrictlySorted(out.scopes)
      && (out.checks.signature <==> exists jwt :: Authentic(scheme, token, jwks, jwt))
  {
    var out := VerifyJwt(scheme, token, jwks, policy, now);
    FirstFailureExact(out.checks);
    if out.checks.signature {
      AuthenticExact(scheme, token, jwks, Jwt.Parse(token).value);
    }
    if jwt :| Authentic(scheme, token, jwks, jwt) {
      AuthenticExact(scheme, token, jwks, jwt);
    }
  }

  lemma {:induction false} CredentialOutcomeWellFormed(scheme: Scheme, vc: VerifiableCredential, policy: TrustPolicy,
                                                       now: i64)
    ensures var out := VerifyCredential(scheme, vc, policy, now);
      && WellFormed(out) && out.kind == CredentialToken
      && (out.checks.signature <==> exists key, signature :: Proven(scheme, vc, key, signature))
  {
    FirstFailureExact(VerifyCredential(scheme, vc, policy, now).checks);
    VerifySignatureExact(scheme, vc);
  }

  /** The report on an authentic token: its own claims, its scopes in order, and what each check means. */
  lemma {:induction false} JwtReport(scheme: Scheme, token: string, jwks: Jwks, jwt: SignedJwt,
                                     policy: TrustPolicy, now: i64)
    requires Authentic(scheme, token, jwks, jwt)
    ensures var out := VerifyJwt(scheme, token, jwks, policy, now);
      && out.subject == jwt.claims.sub && out.issuer == jwt.claims.iss && out.roles == jwt.claims.roles
      && StrictlySorted(out.scopes) && (forall w :: w in out.scopes <==> Granted(jwt.claims.scope, w))
      && ChecksMean(out.checks, jwt.claims, policy, now)
  {
    AuthenticExact(scheme, token, jwks, jwt);
    ClaimsChecksMean(jwt.claims, policy, now);
  }

  /** What a caller is told about a token that is not three segments. */
  lemma {:induction false} MalformedReason(scheme: Scheme, token: string, jwks: Jwks, policy: TrustPolicy, now: i64)
    requires multiset(token)['.'] != 2
    ensures VerifyJwt(scheme, token, jwks, policy, now).reason
         == Some("malformed JWT: expected exactly three dot-separated segments")
  {
    MalformedExact(token);
  }

  ghost predicate NoKey(jwks: Jwks, kid: Option<string>) {
    forall jwk :: !Selects(jwks, kid, jwk)
  }

  /** The token resolves to a key, which refuses the signature. */
  ghost predicate Refused(scheme: Scheme, jwt: SignedJwt, jwks: Jwks) {
    exists jwk, key :: Resolved(scheme, jwt, jwks, jwk, key) && !Signed(scheme, jwt, jwks, jwk, key)
  }

  /** What a caller is told about a parsed token with another algorithm. */
  lemma {:induction false} AlgorithmReason(scheme: Scheme, token: string, jwks: Jwks, jwt: SignedJwt,
                                           policy: TrustPolicy, now: i64)
    requires Jwt.Parse(token) == Ok(jwt) && jwt.header.alg != "EdDSA"
    ensures VerifyJwt(scheme, token, jwks, policy, now).reason
         == Some("unsupported JWS algorithm: expected EdDSA, got " + jwt.header.alg)
  {
    VerifyWithErrors(scheme, jwt, jwks);
  }

  /** What a caller is told when the key set has no key for the token. */
  lemma {:induction false} KeyIdReason(scheme: Scheme, token: string, jwks: Jwks, jwt: SignedJwt,
                                       policy: TrustPolicy, now: i64)
    requires Jwt.Parse(token) == Ok(jwt) && jwt.header.alg == "EdDSA" && NoKey(jwks, jwt.header.kid)
    ensures VerifyJwt(scheme, token, jwks, policy, now).reason
         == Some("unknown key id: " + if jwt.header.kid.Some? then jwt.header.kid.value else "")
  {
    VerifyWithErrors(scheme, jwt, jwks);
  }

  /** What a caller is told when the key refuses the signature. */
  lemma {:induction false} SignatureReason(scheme: Scheme, token: string, jwks: Jwks, jwt: SignedJwt,
                                           policy: TrustPolicy, now: i64)
    requires Jwt.Parse(token) == Ok(jwt) && Refused(scheme, jwt, jwks)
    ensures VerifyJwt(scheme, token, jwks, policy, now).reason == Some("signature verification failed")
  {
    VerifyWithErrors(scheme, jwt, jwks);
  }

  /** What a caller is told about a credential without a proof. */
  lemma {:induction false} NoProofReason(scheme: Scheme, vc: VerifiableCredential, policy: TrustPolicy, now: i64)
    requires vc.proof.None?
    ensures VerifyCredential(scheme, vc, policy, now).reason == Some("credential has no proof")
  {
  }

  /** What a caller is told about a credential with the proof of another. */
  lemma {:induction false} OtherProofReason(scheme: Scheme, vc: VerifiableCredential, policy: TrustPolicy, now: i64)
    requires vc.proof.Some? && vc.proof.value.verificationMethod != vc.issuer
    ensures VerifyCredential(scheme, vc, policy, now).reason
         == Some("proof verification method does not match issuer")
  {
  }

  /** What a caller is told about a credential whose proof the issuer's key refuses. */
  lemma {:induction false} BadProofReason(scheme: Scheme, vc: VerifiableCredential, key: seq<byte>,
                                          signature: seq<byte>, policy: TrustPolicy, now: i64)
    requires Presented(scheme, vc, key, signature) && !Proven(scheme, vc, key, signature)
    ensures VerifyCredential(scheme, vc, policy, now).reason == Some("signature verification failed")
  {
    PresentedDecides(scheme, vc, key, signature);
  }

  /** A token that is refused outright is reported with the message of what refused it. */
  lemma {:induction false} JwtRefusal(scheme: Scheme, token: string, jwks: Jwks, policy: TrustPolicy, now: i64)
    ensures Jwt.Parse(token).Err? ==>
              VerifyJwt(scheme, token, jwks, policy, now).reason == Some(Jwt.Parse(token).error.Message())
    ensures Jwt.Parse(token).Ok? && VerifyWith(scheme, Jwt.Parse(token).value, jwks).Err? ==>
              VerifyJwt(scheme, token, jwks, policy, now).reason
              == Some(VerifyWith(scheme, Jwt.Parse(token).value, jwks).error.Message())
  {
  }

  /** The report on a proven credential; audience and scopes do not apply to it. */
  lemma {:induction false} CredentialReport(scheme: Scheme, vc: VerifiableCredential, key: seq<byte>,
                                            signature: seq<byte>, policy: TrustPolicy, now: i64)
    requires Proven(scheme, vc, key, signature)
    ensures var out := VerifyCredential(scheme, vc, policy, now);
      && out.subject == Some(vc.subject.id.text) && out.issuer == Some(vc.issuer.text)
      && out.scopes == [] && out.roles == [] && out.checks.signature && out.checks.audience && out.checks.scopes
      && (out.checks.issuerTrusted <==> FromTrusted(Some(vc.issuer.text), policy.trustedIssuers))
      && (out.checks.notBefore <==> Started(Some(vc.issuedAt), now, policy.leewaySecs))
      && (out.checks.notExpired <==> NotEnded(vc.expiresAt, now, policy.leewaySecs))
      && (out.checks.notRevoked <==> vc.id !in policy.revokedJti)
  {
    VerifySignatureExact(scheme, vc);
  }

  /** A credential that is refused outright is reported with the message of what refused it. */
  lemma {:induction false} CredentialRefusal(scheme: Scheme, vc: VerifiableCredential, policy: TrustPolicy, now: i64)
    ensures VerifySignature(scheme, vc).Err? ==>
              VerifyCredential(scheme, vc, policy, now).reason == Some(VerifySignature(scheme, vc).error.Message())
  {
  }

  // ------------------------------------------------------------ time and leeway

  /**
   * With the token, the keys and the policy fixed, acceptance in time is one interval: either no
   * authentic, permitted token is there and it is never accepted, or it is accepted exactly within
   * the widened window of its own claims.
   */
  lemma {:induction false} AcceptedInOneInterval(scheme: Scheme, token: string, jwks: Jwks, policy: TrustPolicy)
    returns (w: Option<Window>)
    ensures w.None? ==> forall jwt :: !Acceptable(scheme, token, jwks, policy, jwt)
    ensures w.Some? ==>
              exists jwt :: Acceptable(scheme, token, jwks, policy, jwt) && w.value == ClaimsWindow(jwt.claims)
    ensures forall now: i64 :: NoOverflow(now, policy.leewaySecs) ==>
              (VerifyJwt(scheme, token, jwks, policy, now).valid
               <==> w.Some? && w.value.Admits(now, policy.leewaySecs))
  {
    var parsed := Jwt.Parse(token);
    forall jwt ensures Authentic(scheme, token, jwks, jwt)
                       <==> parsed == Ok(jwt) && VerifyWith(scheme, jwt, jwks).Ok? {
      AuthenticExact(scheme, token, jwks, jwt);
    }
    if parsed.Ok? && VerifyWith(scheme, parsed.value, jwks).Ok? && Permitted(parsed.value.claims, policy) {
      w := Some(ClaimsWindow(parsed.value.claims));
      assert Acceptable(scheme, token, jwks, policy, parsed.value);
    } else {
      w := None;
    }
    forall now: i64 | NoOverflow(now, policy.leewaySecs)
      ensures VerifyJwt(scheme, token, jwks, policy, now).valid
              <==> w.Some? && w.value.Admits(now, policy.leewaySecs)
    {
      if parsed.Ok? {
        ClaimsChecksExact(parsed.value.claims, policy, now);
        ChecksAreWindow(ClaimsWindow(parsed.value.claims), now, policy.leewaySecs);
      }
    }
  }

  /** A window that passes with one leeway passes with a larger one on the same side of the range. */
  lemma {:induction false} PassesMonotone(w: Window, now: i64, leeway: i64, more: i64)
    requires leeway <= more && KeepsAccepting(now, leeway, more)
    ensures w.Passes(now, leeway) ==> w.Passes(now, more)
  {
    StartedMonotoneExact(now, leeway, more);
    NotEndedMonotoneExact(now, leeway, more);
    if w.Passes(now, leeway) {
      assert w.start.Some? ==> Started(Some(w.start.value), now, leeway);
      assert w.end.Some? ==> NotEnded(Some(w.end.value), now, leeway);
    }
  }

  lemma {:induction false} LeewayMonotone(scheme: Scheme, token: string, jwks: Jwks,
                                          policy: TrustPolicy, more: i64, now: i64)
    requires policy.leewaySecs <= more && KeepsAccepting(now, policy.leewaySecs, more)
    ensures VerifyJwt(scheme, token, jwks, policy, now).valid
            ==> VerifyJwt(scheme, token, jwks, policy.(leewaySecs := more), now).valid
  {
    if VerifyJwt(scheme, token, jwks, policy, now).valid {
      var claims := Jwt.Parse(token).value.claims;
      ClaimsChecksExact(claims, policy, now);
      ClaimsChecksExact(claims, policy.(leewaySecs := more), now);
      PassesMonotone(ClaimsWindow(claims), now, policy.leewaySecs, more);
    }
  }

  lemma {:induction false} CredentialLeewayMonotone(scheme: Scheme, vc: VerifiableCredential,
                                                    policy: TrustPolicy, more: i64, now: i64)
    requires policy.leewaySecs <= more && KeepsAccepting(now, policy.leewaySecs, more)
    ensures VerifyCredential(scheme, vc, policy, now).valid
            ==> VerifyCredential(scheme, vc, policy.(leewaySecs := more), now).valid
  {
    VerifyCredentialExact(scheme, vc, policy, now);
    VerifyCredentialExact(scheme, vc, policy.(leewaySecs := more), now);
    PassesMonotone(CredentialWindow(vc), now, policy.leewaySecs, more);
  }

  // ---------------------------------------------------------- minting and JSON

  /** A minted token is accepted exactly when the policy permits its claims and its window passes. */
  lemma {:induction false} MintedAcceptance(scheme: Scheme, header: JwtHeader, claims: JwtClaims, secret: seq<byte>,
                                            jwks: Jwks, jwk: Jwk, policy: TrustPolicy, now: i64)
    requires scheme.Correct() && header.alg == JWT_ALG
    requires Find(jwks, header.kid) == Some(jwk) && KeyOfJwk(scheme, jwk) == Ok(scheme.publicKey(secret))
    ensures VerifyJwt(scheme, EncodeJwt(scheme, header, claims, secret), jwks, policy, now).valid
            <==> Permitted(claims, policy) && ClaimsWindow(claims).Passes(now, policy.leewaySecs)
    ensures NoOverflow(now, policy.leewaySecs) ==>
              (ClaimsWindow(claims).Passes(now, policy.leewaySecs)
               <==> ClaimsWindow(claims).Admits(now, policy.leewaySecs))
  {
    ParseMinted(scheme, header, claims, secret);
    VerifyMinted(scheme, header, claims, secret, jwks, jwk);
    ClaimsChecksExact(claims, policy, now);
    if NoOverflow(now, policy.leewaySecs) {
      ChecksAreWindow(ClaimsWindow(claims), now, policy.leewaySecs);
    }
  }

  /** The policy that permits everything. */
  function Permissive(leeway: i64): TrustPolicy {
    TrustPolicy({}, None, {}, {}, leeway)
  }

  /** A token with exactly this window, and the key set that vouches for it. */
  function WindowToken(scheme: Scheme, secret: seq<byte>, w: Window): string {
    EncodeJwt(scheme, JwtHeader(JWT_ALG, None, None), WindowClaims(w), secret)
  }

  function WindowClaims(w: Window): JwtClaims {
    JwtClaims(None, None, None, w.end, w.start, None, None, None, [])
  }

  function WindowKeys(scheme: Scheme, secret: seq<byte>): Jwks {
    Jwks([JwkOfKey(scheme.publicKey(secret), "")])
  }

  lemma {:induction false} WindowKey(scheme: Scheme, secret: seq<byte>)
    requires scheme.Correct()
    ensures var jwk := JwkOfKey(scheme.publicKey(secret), "");
      && Find(WindowKeys(scheme, secret), None) == Some(jwk)
      && KeyOfJwk(scheme, jwk) == Ok(scheme.publicKey(secret))
  {
    assert scheme.ValidKey(scheme.publicKey(secret));
    KeyOfJwkExact(scheme, JwkOfKey(scheme.publicKey(secret), ""), scheme.publicKey(secret));
  }

  lemma {:induction false} WindowPermitted(w: Window, leeway: i64)
    ensures Permitted(WindowClaims(w), Permissive(leeway)) && ClaimsWindow(WindowClaims(w)) == w
  {
  }

  lemma {:induction false} WindowAcceptance(scheme: Scheme, secret: seq<byte>, w: Window, leeway: i64, now: i64)
    requires scheme.Correct()
    ensures VerifyJwt(scheme, WindowToken(scheme, secret, w), WindowKeys(scheme, secret), Permissive(leeway), now).valid
            <==> w.Passes(now, leeway)
  {
    var header, claims, policy := JwtHeader(JWT_ALG, None, None), WindowClaims(w), Permissive(leeway);
    WindowKey(scheme, secret);
    WindowPermitted(w, leeway);
    MintedAcceptance(scheme, header, claims, secret, WindowKeys(scheme, secret),
                     JwkOfKey(scheme.publicKey(secret), ""), policy, now);
  }

  /** Where raising the leeway can lose an acceptance, some window loses it. */
  lemma {:induction false} LosingWindow(now: i64, leeway: i64, more: i64) returns (w: Window)
    requires leeway <= more && !KeepsAccepting(now, leeway, more)
    ensures w.Passes(now, leeway) && !w.Passes(now, more)
  {
    StartedMonotoneExact(now, leeway, more);
    NotEndedMonotoneExact(now, leeway, more);
    if !SameSide(now + leeway, now + more) {
      var start: i64 :| Started(Some(start), now, leeway) && !Started(Some(start), now, more);
      w := Window(Some(start), None);
    } else {
      var end: i64 :| NotEnded(Some(end), now, leeway) && !NotEnded(Some(end), now, more);
      w := Window(None, Some(end));
    }
  }

  /**
   * At a given time, raising the leeway never turns an acceptance into a rejection, for any token,
   * exactly when neither sum leaves the side of the 64-bit range it was on.
   */
  lemma {:induction false} LeewayMonotoneExact(scheme: Scheme, secret: seq<byte>, now: i64, leeway: i64, more: i64)
    requires scheme.Correct() && leeway <= more
    ensures (forall token, jwks, policy: TrustPolicy | policy.leewaySecs == leeway ::
               VerifyJwt(scheme, token, jwks, policy, now).valid
               ==> VerifyJwt(scheme, token, jwks, policy.(leewaySecs := more), now).valid)
            <==> KeepsAccepting(now, leeway, more)
  {
    if KeepsAccepting(now, leeway, more) {
      forall token, jwks, policy: TrustPolicy | policy.leewaySecs == leeway
        ensures VerifyJwt(scheme, token, jwks, policy, now).valid
                ==> VerifyJwt(scheme, token, jwks, policy.(leewaySecs := more), now).valid
      {
        LeewayMonotone(scheme, token, jwks, policy, more, now);
      }
    } else {
      var w := LosingWindow(now, leeway, more);
      WindowAcceptance(scheme, secret, w, leeway, now);
      WindowAcceptance(scheme, secret, w, more, now);
      assert Permissive(leeway).(leewaySecs := more) == Permissive(more);
    }
  }

  /** A text that is a document of some credential gives that credential's outcome. */
  lemma {:induction false} CredentialJsonDecides(scheme: Scheme, json: string, vc: VerifiableCredential,
                                                 policy: TrustPolicy, now: i64)
    requires CredentialReading.IsDocumentOf(json, vc)
    ensures VerifyCredentialJson(scheme, json, policy, now) == Ok(VerifyCredential(scheme, vc, policy, now))
  {
    CredentialReading.ParseCredentialExact(json, vc);
  }

  /** Any other text is an error, and the error is that it is not such JSON. */
  lemma {:induction false} CredentialJsonError(scheme: Scheme, json: string, policy: TrustPolicy, now: i64)
    ensures VerifyCredentialJson(scheme, json, policy, now) == Err(Errors.BadJson)
            <==> forall vc :: !CredentialReading.IsDocumentOf(json, vc)
  {
    if ParseCredential(json).Some? {
      CredentialReading.ParseCredentialExact(json, ParseCredential(json).value);
    }
    if vc :| CredentialReading.IsDocumentOf(json, vc) {
      CredentialReading.ParseCredentialExact(json, vc);
    }
  }

  /** Verifying the printed JSON of a credential is verifying the credential. */
  lemma {:induction false} PrintedCredentialVerifies(scheme: Scheme, vc: VerifiableCredential, policy: TrustPolicy,
                                                     now: i64)
    ensures VerifyCredentialJson(scheme, Json.Print(ToJson(vc)), policy, now)
         == Ok(VerifyCredential(scheme, vc, policy, now))
  {
    Credential.DocumentRoundTrip(vc);
  }
}
