/** The trust policy, the per-check outcome, and time windows under clock skew. */
module Policy {
  import opened Wrappers
  import opened Fields

  datatype TrustPolicy = TrustPolicy(
    trustedIssuers: set<string>,
    expectedAudience: Option<string>,
    requiredScopes: set<string>,
    revokedJti: set<string>,
    leewaySecs: i64)
  {
    /** An empty set of issuers trusts every issuer, even a missing one. */
    predicate IssuerTrusted(issuer: Option<string>) {
      trustedIssuers == {} || (issuer.Some? && issuer.value in trustedIssuers)
    }
  }

  datatype TokenKind = JwtToken | CredentialToken

  datatype VerificationChecks = VerificationChecks(
    signature: bool, notExpired: bool, notBefore: bool, issuerTrusted: bool,
    audience: bool, scopes: bool, notRevoked: bool)
  {
    predicate All() {
      signature && notExpired && notBefore && issuerTrusted && audience && scopes && notRevoked
    }
  }

  const HARD_FAILURE := VerificationChecks(false, false, false, false, false, false, false)

  datatype VerificationOutcome = VerificationOutcome(
    valid: bool,
    kind: TokenKind,
    subject: Option<string>,
    issuer: Option<string>,
    scopes: seq<string>,
    roles: seq<string>,
    checks: VerificationChecks,
    reason: Option<string>)

  function Rejected(kind: TokenKind, reason: string): VerificationOutcome {
    VerificationOutcome(false, kind, None, None, [], [], HARD_FAILURE, Some(reason))
  }

  // ------------------------------------------------------------------- time

  const TWO64: int := 0x1_0000_0000_0000_0000

  /** 64-bit addition and subtraction as release builds do them: modulo 2^64. */
  function WrapI64(n: int): (r: i64)
    ensures (n - r) % TWO64 == 0
  {
    var m := n % TWO64;
    if m > I64_MAX then m - TWO64 else m
  }

  /** `now + leeway >= start`. */
  predicate Started(start: Option<i64>, now: i64, leeway: i64) {
    start.None? || WrapI64(now + leeway) >= start.value
  }

  /** `now - leeway < end`. */
  predicate NotEnded(end: Option<i64>, now: i64, leeway: i64) {
    end.None? || WrapI64(now - leeway) < end.value
  }

  /** Whether the two sums stay within 64 bits. */
  predicate NoOverflow(now: i64, leeway: i64) {
    InI64(now + leeway) && InI64(now - leeway)
  }

  /** A validity period; a missing bound is unbounded. */
  datatype Window = Window(start: Option<i64>, end: Option<i64>)
  {
    /** The interval from `start - leeway`, included, to `end + leeway`, excluded. */
    predicate Admits(now: int, leeway: int) {
      && (start.Some? ==> start.value - leeway <= now)
      && (end.Some? ==> now < end.value + leeway)
    }

    /** What the machine arithmetic checks, overflow or not. */
    predicate Passes(now: i64, leeway: i64) {
      Started(start, now, leeway) && NotEnded(end, now, leeway)
    }
  }

  lemma {:induction false} WrapExact(n: int)
    ensures WrapI64(n) == n <==> InI64(n)
  {
  }

  /** Without overflow the two checks are membership in one interval. */
  lemma {:induction false} ChecksAreWindow(w: Window, now: i64, leeway: i64)
    requires NoOverflow(now, leeway)
    ensures w.Passes(now, leeway) <==> w.Admits(now, leeway)
  {
    WrapExact(now + leeway);
    WrapExact(now - leeway);
  }

  /** The not-before check means what it says for every bound exactly when the sum does not overflow. */
  lemma {:induction false} StartedExact(now: i64, leeway: i64)
    ensures (forall start: i64 :: Started(Some(start), now, leeway) <==> now + leeway >= start)
            <==> InI64(now + leeway)
  {
    WrapExact(now + leeway);
    var low: i64, high: i64 := I64_MIN, I64_MAX;
    if !InI64(now + leeway) {
      var wrapped := WrapI64(now + leeway);
      if now + leeway > I64_MAX {
        assert !Started(Some(high), now, leeway);
      } else {
        assert Started(Some(low), now, leeway);
      }
    }
  }

  /** The expiry check means what it says for every bound exactly when the difference does not overflow. */
  lemma {:induction false} NotEndedExact(now: i64, leeway: i64)
    ensures (forall end: i64 :: NotEnded(Some(end), now, leeway) <==> now - leeway < end)
            <==> InI64(now - leeway)
  {
    WrapExact(now - leeway);
    var high: i64 := I64_MAX;
    if now - leeway > I64_MAX {
      assert NotEnded(Some(high), now, leeway);
    } else if now - leeway < I64_MIN {
      var wrapped := WrapI64(now - leeway);
      assert !NotEnded(Some(wrapped), now, leeway);
    }
  }

  /** Both sums are in range, or both are above it, or both below. */
  predicate SameSide(a: int, b: int) {
    (InI64(a) && InI64(b)) || (a > I64_MAX && b > I64_MAX) || (a < I64_MIN && b < I64_MIN)
  }

  /** Wrapping keeps the order of two sums less than 2^64 apart exactly when they lie on the same side. */
  lemma {:induction false} WrapMonotoneExact(a: int, b: int)
    requires -TWO64 <= a <= b < TWO64 && b - a < TWO64
    ensures WrapI64(a) <= WrapI64(b) <==> SameSide(a, b)
  {
    WrapOnce(a);
    WrapOnce(b);
  }

  lemma {:induction false} WrapOnce(n: int)
    requires -TWO64 <= n < TWO64
    ensures WrapI64(n) == if n > I64_MAX then n - TWO64 else if n < I64_MIN then n + TWO64 else n
  {
  }

  /** Raising the leeway keeps the not-before check for every bound exactly when neither sum changes side. */
  lemma {:induction false} StartedMonotoneExact(now: i64, leeway: i64, more: i64)
    requires leeway <= more
    ensures (forall start: i64 :: Started(Some(start), now, leeway) ==> Started(Some(start), now, more))
            <==> SameSide(now + leeway, now + more)
  {
    WrapMonotoneExact(now + leeway, now + more);
    assert Started(Some(WrapI64(now + leeway)), now, leeway);
  }

  /** The same for the expiry check and the differences. */
  lemma {:induction false} NotEndedMonotoneExact(now: i64, leeway: i64, more: i64)
    requires leeway <= more
    ensures (forall end: i64 :: NotEnded(Some(end), now, leeway) ==> NotEnded(Some(end), now, more))
            <==> SameSide(now - leeway, now - more)
  {
    WrapMonotoneExact(now - more, now - leeway);
    if !SameSide(now - leeway, now - more) {
      var end: i64 := WrapI64(now - more);
      assert NotEnded(Some(end), now, leeway) && !NotEnded(Some(end), now, more);
    }
  }

  /** Raising the leeway loses no acceptance in time, whatever the window. */
  predicate KeepsAccepting(now: i64, leeway: i64, more: i64) {
    SameSide(now + leeway, now + more) && SameSide(now - leeway, now - more)
  }

  /** A leeway so large that the sum wraps turns an acceptance into a rejection. */
  lemma {:induction false} LargeLeewayRejects()
    ensures Started(Some(0), 1, 0) && !Started(Some(0), 1, I64_MAX)
  {
  }
}
