/** Capped exponential backoff in the machine arithmetic of the retry policy. */
module Backoff {
  import opened Wrappers

  const U32_MAX: nat := 0xFFFF_FFFF
  const U64_RANGE: nat := 0x1_0000_0000_0000_0000
  const U128_MAX: nat := 0xFFFF_FFFF_FFFF_FFFF_FFFF_FFFF_FFFF_FFFF
  const NANOS_PER_MILLI: nat := 1_000_000

  type u32 = n: int | 0 <= n <= 0xFFFF_FFFF

  /** A span of time in nanoseconds: 64-bit seconds and a fraction below one second. */
  type duration = n: int | 0 <= n < 0x1_0000_0000_0000_0000 * 1_000_000_000

  datatype RetryPolicy = RetryPolicy(
    maxAttempts: u32, initialBackoff: duration, multiplier: u32, maxBackoff: duration)
  {
    function Attempts(): nat {
      if maxAttempts == 0 then 1 else maxAttempts
    }
  }

  function Min(a: nat, b: nat): nat { if a <= b then a else b }

  function Pow(b: nat, e: nat): nat {
    if e == 0 then 1 else b * Pow(b, e - 1)
  }

  /** The square-and-multiply loop behind `u32::checked_pow`; None on overflow. */
  function CheckedPow(base: u32, exp: nat, acc: u32): Option<u32>
    requires exp > 0
    decreases exp
  {
    var product := if exp % 2 == 1 then acc * base else acc;
    if product > U32_MAX then None
    else if exp == 1 then Some(product)
    else if base * base > U32_MAX then None
    else CheckedPow(base * base, exp / 2, product)
  }

  function SaturatingPow(base: u32, exp: u32): u32 {
    if exp == 0 then 1
    else match CheckedPow(base, exp, 1)
      case None => U32_MAX
      case Some(p) => p
  }

  function AsMillis(d: duration): nat { d / NANOS_PER_MILLI }

  /** The delay before the next attempt; the final cast to 64 bits truncates. */
  function BackoffFor(p: RetryPolicy, attempt: u32): duration {
    var factor := SaturatingPow(p.multiplier, attempt);
    var millis := Min(AsMillis(p.initialBackoff) * factor, U128_MAX);
    var capped := Min(millis, AsMillis(p.maxBackoff));
    capped % U64_RANGE * NANOS_PER_MILLI
  }

  // ---------------------------------------------------------------- powers

  lemma {:induction false} MulMono(a: nat, b: nat, k: nat)
    requires a <= b
    ensures a * k <= b * k && k * a <= k * b
  {
  }

  lemma {:induction false} PowSquare(b: nat, k: nat)
    ensures Pow(b * b, k) == Pow(b, 2 * k)
  {
    if k > 0 {
      PowSquare(b, k - 1);
      assert Pow(b, 2 * k) == b * Pow(b, 2 * k - 1) == b * (b * Pow(b, 2 * k - 2));
      assert b * (b * Pow(b, 2 * k - 2)) == (b * b) * Pow(b, 2 * k - 2);
    }
  }

  lemma {:induction false} PowPositive(b: nat, k: nat)
    ensures b >= 1 ==> Pow(b, k) >= 1
    ensures b >= 1 && k >= 1 ==> Pow(b, k) >= b
  {
    if k > 0 && b >= 1 {
      PowPositive(b, k - 1);
      MulMono(1, Pow(b, k - 1), b);
    }
  }

  lemma {:induction false} PowMonotone(b: nat, i: nat, j: nat)
    requires b >= 1 && i <= j
    ensures Pow(b, i) <= Pow(b, j)
    decreases j
  {
    if i < j {
      PowMonotone(b, i, j - 1);
      MulMono(1, b, Pow(b, j - 1));
    }
  }

  lemma {:induction false} PowZero(k: nat)
    requires k > 0
    ensures Pow(0, k) == 0
  {
  }

  lemma {:induction false} HalfStep(base: nat, exp: nat, acc: nat)
    requires exp > 1
    ensures var product := if exp % 2 == 1 then acc * base else acc;
      acc * Pow(base, exp) == product * Pow(base * base, exp / 2)
  {
    PowSquare(base, exp / 2);
    if exp % 2 == 1 {
      assert 2 * (exp / 2) == exp - 1;
      assert acc * (base * Pow(base, exp - 1)) == (acc * base) * Pow(base, exp - 1);
    }
  }

  /** Square-and-multiply gives the power exactly, and None exactly when it does not fit. */
  lemma {:induction false} CheckedPowExact(base: u32, exp: nat, acc: u32)
    requires exp > 0 && (acc >= 1 || base == 0)
    ensures CheckedPow(base, exp, acc)
         == if acc * Pow(base, exp) <= U32_MAX then Some(acc * Pow(base, exp)) else None
    decreases exp
  {
    var product := if exp % 2 == 1 then acc * base else acc;
    if base == 0 {
      PowZero(exp);
      if exp > 1 { CheckedPowExact(0, exp / 2, product); PowZero(exp / 2); }
    } else if exp == 1 {
      assert Pow(base, 1) == base * Pow(base, 0) == base;
    } else {
      MulMono(1, base, acc);
      HalfStep(base, exp, acc);
      PowPositive(base * base, exp / 2);
      MulMono(1, Pow(base * base, exp / 2), product);
      MulMono(1, product, Pow(base * base, exp / 2));
      if product <= U32_MAX && base * base <= U32_MAX {
        CheckedPowExact(base * base, exp / 2, product);
      }
    }
  }

  lemma {:induction false} SaturatingPowExact(base: u32, exp: u32)
    ensures SaturatingPow(base, exp) == Min(Pow(base, exp), 0xFFFF_FFFF)
  {
    if exp > 0 { CheckedPowExact(base, exp, 1); }
  }

  // --------------------------------------------------------------- the delay

  /** The delay the policy describes, in unbounded milliseconds. */
  function IdealMillis(p: RetryPolicy, attempt: nat): nat {
    Min(AsMillis(p.initialBackoff) * Pow(p.multiplier, attempt), AsMillis(p.maxBackoff))
  }

  /** Whole milliseconds: a millisecond is a million nanoseconds, and what is less than one is dropped. */
  lemma {:induction false} AsMillisExact(d: duration, n: nat)
    ensures n == AsMillis(d) <==> n * 1_000_000 <= d < (n + 1) * 1_000_000
  {
  }

  /** The 128-bit product never saturates, whatever the policy. */
  lemma {:induction false} ProductFits(d: duration, factor: u32)
    ensures AsMillis(d) * factor <= U128_MAX
  {
    var m := AsMillis(d);
    assert m <= 0x1_0000_0000_0000_0000 * 1000;
    MulMono(m, 0x1_0000_0000_0000_0000 * 1000, factor);
    MulMono(factor, U32_MAX, 0x1_0000_0000_0000_0000 * 1000);
  }

  /** The cap hides a saturated power: it is not reached, or zero, or at most the saturated product. */
  predicate CapCovers(p: RetryPolicy, attempt: nat) {
    Pow(p.multiplier, attempt) <= 0xFFFF_FFFF || AsMillis(p.initialBackoff) == 0
    || AsMillis(p.maxBackoff) <= AsMillis(p.initialBackoff) * 0xFFFF_FFFF
  }

  lemma {:induction false} CappedExact(initial: nat, power: nat, max: nat)
    ensures Min(initial * Min(power, U32_MAX), max) == Min(initial * power, max)
            <==> power <= U32_MAX || initial == 0 || max <= initial * U32_MAX
  {
    if power > U32_MAX && initial > 0 {
      MulMono(U32_MAX + 1, power, initial);
      assert initial * U32_MAX < initial * (U32_MAX + 1) <= initial * power;
    }
  }

  /** The milliseconds left once the power is saturated and the cap applied. */
  function CappedMillis(p: RetryPolicy, attempt: nat): nat {
    Min(AsMillis(p.initialBackoff) * Min(Pow(p.multiplier, attempt), 0xFFFF_FFFF), AsMillis(p.maxBackoff))
  }

  /** The delay in every case: the capped product of the saturated power, cut to 64 bits. */
  lemma {:induction false} BackoffIsCapped(p: RetryPolicy, attempt: u32)
    ensures BackoffFor(p, attempt) == CappedMillis(p, attempt) % 0x1_0000_0000_0000_0000 * 1_000_000
  {
    SaturatingPowExact(p.multiplier, attempt);
    ProductFits(p.initialBackoff, SaturatingPow(p.multiplier, attempt));
  }

  lemma {:induction false} TruncationExact(n: nat)
    ensures n % U64_RANGE <= n && (n % U64_RANGE == n <==> n < U64_RANGE)
  {
  }

  /**
   * The delay is the ideal one exactly when the cap covers a saturated power and the result fits in
   * 64-bit milliseconds.
   */
  lemma {:induction false} BackoffExact(p: RetryPolicy, attempt: u32)
    ensures BackoffFor(p, attempt) == IdealMillis(p, attempt) * NANOS_PER_MILLI
            <==> CapCovers(p, attempt) && IdealMillis(p, attempt) < 0x1_0000_0000_0000_0000
  {
    var initial, power, max := AsMillis(p.initialBackoff), Pow(p.multiplier, attempt), AsMillis(p.maxBackoff);
    BackoffIsCapped(p, attempt);
    CappedExact(initial, power, max);
    MulMono(Min(power, U32_MAX), power, initial);
    TruncationExact(CappedMillis(p, attempt));
  }

  /** A cap of 2^64 milliseconds is cut to nothing. */
  lemma {:induction false} HugeCapTruncates()
    ensures var p := RetryPolicy(3, U64_RANGE * NANOS_PER_MILLI, 2, U64_RANGE * NANOS_PER_MILLI);
      BackoffFor(p, 0) == 0 && IdealMillis(p, 0) == U64_RANGE
  {
  }

  /** A power that saturates below the cap stops the delay from growing. */
  lemma {:induction false} SaturatedPowerStalls()
    ensures var p := RetryPolicy(3, NANOS_PER_MILLI, U32_MAX, U32_MAX * U32_MAX * NANOS_PER_MILLI);
      BackoffFor(p, 2) == U32_MAX * NANOS_PER_MILLI && IdealMillis(p, 2) == U32_MAX * U32_MAX
  {
    var p := RetryPolicy(3, NANOS_PER_MILLI, U32_MAX, U32_MAX * U32_MAX * NANOS_PER_MILLI);
    assert Pow(U32_MAX, 2) == U32_MAX * (U32_MAX * Pow(U32_MAX, 0));
    BackoffIsCapped(p, 2);
  }

  /** No delay exceeds the configured bound. */
  lemma {:induction false} BackoffAtMostMax(p: RetryPolicy, attempt: u32)
    ensures BackoffFor(p, attempt) <= p.maxBackoff
  {
    BackoffIsCapped(p, attempt);
    TruncationExact(CappedMillis(p, attempt));
  }

  /** Delays do not shrink, for a multiplier of at least one and a cap that fits in 64 bits. */
  lemma {:induction false} BackoffMonotone(p: RetryPolicy, i: u32, j: u32)
    requires i <= j && p.multiplier >= 1 && AsMillis(p.maxBackoff) < U64_RANGE
    ensures BackoffFor(p, i) <= BackoffFor(p, j)
  {
    BackoffIsCapped(p, i);
    BackoffIsCapped(p, j);
    PowMonotone(p.multiplier, i, j);
    MulMono(Min(Pow(p.multiplier, i), U32_MAX), Min(Pow(p.multiplier, j), U32_MAX), AsMillis(p.initialBackoff));
    TruncationExact(CappedMillis(p, i));
    TruncationExact(CappedMillis(p, j));
  }
}
