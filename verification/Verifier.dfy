/** The decision engine: one outcome from an artifact, a policy and the time. */
module Verifier {
  import opened Wrappers
  import opened Ed25519
  import opened Errors
  import opened Fields
  import opened Policy
  import opened Jwt
  import opened Credential
  import opened Scopes

  function FirstFailure(checks: VerificationChecks): Option<string> {
    if !checks.signature then Some("signature verification failed")
    else if !checks.issuerTrusted then Some("issuer is not trusted")
    else if !checks.notBefore then Some("artifact is not yet valid (nbf)")
    else if !checks.notExpired then Some("artifact has expired (exp)")
    else if !checks.audience then Some("audience mismatch (aud)")
    else if !checks.scopes then Some("required scope missing")
    else if !checks.notRevoked then Some("artifact has been revoked")
    else None
  }

  function ClaimsChecks(claims: JwtClaims, policy: TrustPolicy, now: i64): VerificationChecks {
    VerificationChecks(
      signature := true,
      notExpired := NotEnded(claims.exp, now, policy.leewaySecs),
      notBefore := Started(claims.nbf, now, policy.leewaySecs),
      issuerTrusted := policy.IssuerTrusted(claims.iss),
      audience := policy.expectedAudience.None?
                  || (claims.aud.Some? && claims.aud.value.Contains(policy.expectedAudience.value)),
      scopes := policy.requiredScopes <= ScopeSet(claims.scope),
      notRevoked := claims.jti.None? || claims.jti.value !in policy.revokedJti)
  }

  function VerifyJwt(scheme: Scheme, token: string, jwks: Jwks, policy: TrustPolicy, now: i64): VerificationOutcome {
    match Jwt.Parse(token)
    case Err(e) => Rejected(JwtToken, e.Message())
    case Ok(signed) =>
      match VerifyWith(scheme, signed, jwks)
      case Err(e) => Rejected(JwtToken, e.Message())
      case Ok(_) =>
        var claims := signed.claims;
        var checks := ClaimsChecks(claims, policy, now);
        VerificationOutcome(checks.All(), JwtToken, claims.sub, claims.iss, ScopeList(claims.scope),
                            claims.roles, checks, FirstFailure(checks))
  }

  function CredentialChecks(vc: VerifiableCredential, policy: TrustPolicy, now: i64): VerificationChecks {
    VerificationChecks(
      signature := true,
      notExpired := NotEnded(vc.expiresAt, now, policy.leewaySecs),
      notBefore := Started(Some(vc.issuedAt), now, policy.leewaySecs),
      issuerTrusted := policy.IssuerTrusted(Some(vc.issuer.text)),
      audience := true,
      scopes := true,
      notRevoked := vc.id !in policy.revokedJti)
  }

  function VerifyCredential(scheme: Scheme, vc: VerifiableCredential, policy: TrustPolicy, now: i64)
    : VerificationOutcome
  {
    match VerifySignature(scheme, vc)
    case Err(e) => Rejected(CredentialToken, e.Message())
    case Ok(_) =>
      var checks := CredentialChecks(vc, policy, now);
      VerificationOutcome(checks.All(), CredentialToken, Some(vc.subject.id.text), Some(vc.issuer.text),
                          [], [], checks, FirstFailure(checks))
  }

  function VerifyCredentialJson(scheme: Scheme, json: string, policy: TrustPolicy, now: i64)
    : Result<VerificationOutcome, VerifyError>
  {
    match ParseCredential(json)
    case None => Err(BadJson)
    case Some(vc) => Ok(VerifyCredential(scheme, vc, policy, now))
  }
}
