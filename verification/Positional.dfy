/** Changing the base of a digit string: the arithmetic under base58 and under decimal numbers. */
module Positional {

  /** The value of little-endian digits. */
  function Value(ds: seq<int>, base: int): int {
    if |ds| == 0 then 0 else ds[0] + base * Value(ds[1..], base)
  }

  ghost predicate Digital(ds: seq<int>, base: int) {
    forall i :: 0 <= i < |ds| ==> 0 <= ds[i] < base
  }

  /** The most significant digit, where there is one, is not zero. */
  predicate Canonical(ds: seq<int>) {
    |ds| > 0 ==> ds[|ds| - 1] != 0
  }

  /** The little-endian digits of `n`, without leading zeros; zero has no digit at all. */
  function Digits(n: nat, base: int): (ds: seq<int>)
    requires 2 <= base
    ensures Digital(ds, base) && (|ds| == 0 <==> n == 0)
    ensures Canonical(ds)
    decreases n
  {
    if n == 0 then [] else
      DivSmaller(n, base);
      [n % base] + Digits(n / base, base)
  }

  lemma {:induction false} DivSmaller(n: nat, base: int)
    requires n > 0 && base >= 2
    ensures 0 <= n / base < n && n == base * (n / base) + n % base
  {
    var q := n / base;
    assert n == base * q + n % base;
    DivNat(n, base);
    MulMonotonic(2, base, q);
  }

  lemma {:induction false} MulMonotonic(a: int, b: int, k: int)
    requires a <= b && 0 <= k
    ensures a * k <= b * k
  {
  }

  /** A quotient and a remainder in range are the quotient and the remainder. */
  lemma {:induction false} DivModUnique(q: int, r: int, base: int)
    requires 0 <= r < base
    ensures (base * q + r) / base == q && (base * q + r) % base == r
  {
    var n := base * q + r;
    var d := q - n / base;
    assert base * d == n % base - r;
    if d >= 1 {
      MulMonotonic(1, d, base);
    } else if d <= -1 {
      MulMonotonic(d, -1, base);
    }
  }

  lemma {:induction false} ValueCons(d: int, ds: seq<int>, base: int)
    ensures Value([d] + ds, base) == d + base * Value(ds, base)
  {
    assert ([d] + ds)[1..] == ds;
  }

  lemma {:induction false} DigitsValue(n: nat, base: int)
    requires 2 <= base
    ensures Value(Digits(n, base), base) == n
    decreases n
  {
    if n > 0 {
      DivSmaller(n, base);
      var q := n / base;
      DigitsValue(q, base);
      ValueCons(n % base, Digits(q, base), base);
    }
  }

  /** Digits whose most significant one is not zero are the only such digits of their value. */
  lemma {:induction false} ValueDigits(ds: seq<int>, base: int)
    requires 2 <= base && Digital(ds, base)
    requires Canonical(ds)
    ensures Value(ds, base) >= 0 && Digits(Value(ds, base), base) == ds
  {
    if |ds| > 0 {
      ValueDigits(ds[1..], base);
      var v := Value(ds[1..], base);
      MulMonotonic(0, v, base);
      DivModUnique(v, ds[0], base);
      assert |ds| == 1 ==> ds[0] > 0;
      assert |ds| > 1 ==> Digits(v, base) != [] && v > 0;
      if v > 0 { MulMonotonic(1, v, base); }
      assert ds == [ds[0]] + ds[1..];
    }
  }

  /** One pass of the carry loop: multiply the digits by `m`, add `carry`, spill new digits. */
  function MulAdd(ds: seq<int>, m: nat, carry: nat, base: int): (out: seq<int>)
    requires 2 <= base && Digital(ds, base)
  {
    if |ds| == 0 then Digits(carry, base)
    else
      var x := carry + ds[0] * m;
      DivNat(x, base);
      [x % base] + MulAdd(ds[1..], m, x / base, base)
  }

  lemma {:induction false} DivNat(x: nat, base: int)
    requires base >= 1
    ensures 0 <= x / base
  {
    if x / base < 0 {
      MulMonotonic(x / base, -1, base);
    }
  }

  lemma {:induction false} SplitProduct(q: int, r: int, m: int, carry: int, base: int)
    requires base >= 1
    ensures (base * q + r) * m + carry
         == base * (q * m + (carry + r * m) / base) + (carry + r * m) % base
  {
    var x := carry + r * m;
    assert (base * q + r) * m == base * (q * m) + r * m;
    assert x == base * (x / base) + x % base;
    assert base * (q * m + x / base) == base * (q * m) + base * (x / base);
  }

  lemma {:induction false} StepDigits(n: nat, q: nat, r: nat, m: nat, carry: nat, base: int)
    requires 2 <= base && 1 <= m && n > 0 && n == base * q + r && r < base
    ensures var x := carry + r * m;
      && n * m + carry > 0 && q * m + x / base >= 0
      && Digits(n * m + carry, base) == [x % base] + Digits(q * m + x / base, base)
  {
    var x := carry + r * m;
    MulMonotonic(1, m, n);
    MulMonotonic(0, r, m);
    MulMonotonic(0, q, m);
    DivNat(x, base);
    SplitProduct(q, r, m, carry, base);
    DivModUnique(q * m + x / base, x % base, base);
  }

  lemma {:induction false} CanonicalPositive(ds: seq<int>, base: int)
    requires 2 <= base && Digital(ds, base) && Canonical(ds)
    ensures Value(ds, base) >= 0 && (|ds| > 0 ==> Value(ds, base) > 0)
  {
    if |ds| > 0 {
      CanonicalPositive(ds[1..], base);
      MulMonotonic(1, base, Value(ds[1..], base));
    }
  }

  /** The carry pass computes on digits what multiply-and-add computes on their value. */
  lemma {:induction false} MulAddDigits(ds: seq<int>, m: nat, carry: nat, base: int)
    requires 2 <= base && 1 <= m && Digital(ds, base) && Canonical(ds)
    ensures Value(ds, base) * m + carry >= 0
    ensures MulAdd(ds, m, carry, base) == Digits(Value(ds, base) * m + carry, base)
  {
    CanonicalPositive(ds, base);
    MulMonotonic(0, Value(ds, base), m);
    if |ds| > 0 {
      MulMonotonic(0, ds[0], m);
      var x := carry + ds[0] * m;
      DivNat(x, base);
      CanonicalPositive(ds[1..], base);
      MulAddDigits(ds[1..], m, x / base, base);
      StepDigits(Value(ds, base), Value(ds[1..], base), ds[0], m, carry, base);
    }
  }

  function Reverse<T>(s: seq<T>): (r: seq<T>)
    ensures |r| == |s| && forall i :: 0 <= i < |s| ==> r[i] == s[|s| - 1 - i]
  {
    if |s| == 0 then [] else Reverse(s[1..]) + [s[0]]
  }

  lemma {:induction false} ReverseTwice<T>(s: seq<T>)
    ensures Reverse(Reverse(s)) == s
  {
  }

  /** How many leading (most significant) digits are zero. */
  function LeadingZeros(s: seq<int>): (n: nat)
    ensures n <= |s| && (forall i :: 0 <= i < n ==> s[i] == 0) && (n < |s| ==> s[n] != 0)
  {
    if |s| == 0 || s[0] != 0 then 0 else 1 + LeadingZeros(s[1..])
  }

  function Zeros(n: nat): (z: seq<int>)
    ensures |z| == n && forall i :: 0 <= i < n ==> z[i] == 0
  {
    seq(n, _ => 0)
  }

  /** Big-endian digits in base `from` rewritten in base `to`; leading zeros are kept one for one. */
  function Rebase(s: seq<int>, from: int, to: int): (r: seq<int>)
    requires 2 <= from && 2 <= to && Digital(s, from)
    ensures Digital(r, to)
  {
    ValueNat(Reverse(s), from);
    Zeros(LeadingZeros(s)) + Reverse(Digits(Value(Reverse(s), from), to))
  }

  lemma {:induction false} ValueNat(ds: seq<int>, base: int)
    requires 0 <= base && Digital(ds, base)
    ensures Value(ds, base) >= 0
  {
    if |ds| > 0 {
      ValueNat(ds[1..], base);
      MulMonotonic(0, Value(ds[1..], base), base);
    }
  }

  /** Most significant zeros add nothing to the value. */
  lemma {:induction false} ValuePadded(ds: seq<int>, k: nat, base: int)
    ensures Value(ds + Zeros(k), base) == Value(ds, base)
  {
    if |ds| == 0 {
      assert ds + Zeros(k) == Zeros(k);
      ValueZeros(k, base);
    } else {
      assert (ds + Zeros(k))[1..] == ds[1..] + Zeros(k);
      ValuePadded(ds[1..], k, base);
    }
  }

  lemma {:induction false} ValueZeros(k: nat, base: int)
    ensures Value(Zeros(k), base) == 0
  {
    if k > 0 {
      assert Zeros(k)[1..] == Zeros(k - 1);
      ValueZeros(k - 1, base);
    }
  }

  lemma {:induction false} LeadingZerosUnique(s: seq<int>, n: nat)
    requires n <= |s| && (forall i :: 0 <= i < n ==> s[i] == 0) && (n < |s| ==> s[n] != 0)
    ensures LeadingZeros(s) == n
  {
  }

  /** The value only depends on what follows the leading zeros. */
  lemma {:induction false} ValueBody(z: nat, body: seq<int>, base: int)
    ensures Reverse(Zeros(z) + body) == Reverse(body) + Zeros(z)
    ensures Value(Reverse(Zeros(z) + body), base) == Value(Reverse(body), base)
  {
    assert Reverse(Zeros(z) + body) == Reverse(body) + Zeros(z);
    ValuePadded(Reverse(body), z, base);
  }

  // ------------------------------------------------------ digits in reading order

  /** The number that digits spell, the most significant one first. */
  function Spelled(s: seq<int>, base: int): int {
    if |s| == 0 then 0 else Spelled(s[..|s| - 1], base) * base + s[|s| - 1]
  }

  lemma {:induction false} SpelledIsValue(s: seq<int>, base: int)
    ensures Spelled(s, base) == Value(Reverse(s), base)
  {
    if |s| > 0 {
      var init, last := s[..|s| - 1], s[|s| - 1];
      SpelledIsValue(init, base);
      assert Reverse(s) == [last] + Reverse(init);
      ValueCons(last, Reverse(init), base);
    }
  }

  /** Digit strings of one length that spell one number are the same. */
  lemma {:induction false} SpelledInjective(s: seq<int>, t: seq<int>, base: int)
    requires 0 < base && |s| == |t| && Digital(s, base) && Digital(t, base) && Spelled(s, base) == Spelled(t, base)
    ensures s == t
  {
    if |s| > 0 {
      var i, j := s[..|s| - 1], t[..|t| - 1];
      DivModUnique(Spelled(i, base), s[|s| - 1], base);
      DivModUnique(Spelled(j, base), t[|t| - 1], base);
      SpelledInjective(i, j, base);
      assert s == i + [s[|s| - 1]] && t == j + [t[|t| - 1]];
    }
  }

  lemma {:induction false} BodyDigits(r: seq<int>, base: int)
    requires 2 <= base && Digital(r, base)
    ensures Spelled(r, base) >= 0 && Reverse(r[LeadingZeros(r)..]) == Digits(Spelled(r, base), base)
  {
    var z := LeadingZeros(r);
    var body := r[z..];
    assert r == Zeros(z) + body;
    SpelledIsValue(r, base);
    ValueBody(z, body, base);
    ValueDigits(Reverse(body), base);
  }

  lemma {:induction false} SameBody(z: nat, a: seq<int>, b: seq<int>)
    requires Reverse(a) == Reverse(b)
    ensures Zeros(z) + a == Zeros(z) + b
  {
    ReverseTwice(a);
    ReverseTwice(b);
  }

  lemma {:induction false} LeadingSplit(r: seq<int>)
    ensures r == Zeros(LeadingZeros(r)) + r[LeadingZeros(r)..]
  {
  }

  /** Two strings with as many leading zeros that spell one number in one base are the same. */
  lemma {:induction false} RebaseUnique(r: seq<int>, t: seq<int>, base: int)
    requires 2 <= base && Digital(r, base) && Digital(t, base)
    requires LeadingZeros(r) == LeadingZeros(t) && Spelled(r, base) == Spelled(t, base)
    ensures r == t
  {
    var z := LeadingZeros(r);
    BodyDigits(r, base);
    BodyDigits(t, base);
    SameBody(z, r[z..], t[z..]);
    LeadingSplit(r);
    LeadingSplit(t);
  }

  /** A changed base keeps the number and the count of leading zeros, and nothing else does. */
  lemma {:induction false} RebaseExact(s: seq<int>, from: int, to: int, r: seq<int>)
    requires 2 <= from && 2 <= to && Digital(s, from)
    ensures r == Rebase(s, from, to) <==>
            Digital(r, to) && LeadingZeros(r) == LeadingZeros(s) && Spelled(r, to) == Spelled(s, from)
  {
    var rebased := Rebase(s, from, to);
    ValueNat(Reverse(s), from);
    var z, digits := LeadingZeros(s), Digits(Value(Reverse(s), from), to);
    assert |digits| > 0 ==> Reverse(digits)[0] == digits[|digits| - 1];
    LeadingZerosUnique(rebased, z);
    SpelledIsValue(s, from);
    SpelledIsValue(rebased, to);
    ValueBody(z, Reverse(digits), to);
    ReverseTwice(digits);
    DigitsValue(Value(Reverse(s), from), to);
    if Digital(r, to) && LeadingZeros(r) == z && Spelled(r, to) == Spelled(s, from) {
      RebaseUnique(r, rebased, to);
    }
  }

  /** Changing the base and changing it back gives the same digit string, zeros included. */
  lemma {:induction false} RebaseRoundTrip(s: seq<int>, from: int, to: int)
    requires 2 <= from && 2 <= to && Digital(s, from)
    ensures Rebase(Rebase(s, from, to), to, from) == s
  {
    RebaseExact(s, from, to, Rebase(s, from, to));
    RebaseExact(Rebase(s, from, to), to, from, s);
  }

  /** Appending a less significant digit multiplies the value by the base and adds the digit. */
  lemma {:induction false} ValueSnoc(s: seq<int>, i: nat, base: int)
    requires i < |s|
    ensures Value(Reverse(s[..i + 1]), base) == Value(Reverse(s[..i]), base) * base + s[i]
  {
    assert Reverse(s[..i + 1]) == [s[i]] + Reverse(s[..i]);
    assert Reverse(s[..i + 1])[1..] == Reverse(s[..i]);
  }

  lemma {:induction false} MulAddStep(done: seq<int>, todo: seq<int>, m: nat, carry: nat, base: int)
    requires 2 <= base && Digital(todo, base) && |todo| > 0
    ensures var x := carry + todo[0] * m;
      && x >= 0 && x / base >= 0
      && done + MulAdd(todo, m, carry, base)
      == (done + [x % base]) + MulAdd(todo[1..], m, x / base, base)
  {
    MulMonotonic(0, todo[0], m);
    DivNat(carry + todo[0] * m, base);
  }

  /** The inner loops: push one input digit through the output so far, then spill what is left. */
  method CarryPass(before: seq<int>, from: nat, digit: nat, to: int) returns (output: seq<int>)
    requires 2 <= to && Digital(before, to)
    ensures output == MulAdd(before, from, digit, to)
  {
    output := before;
    ghost var spec := MulAdd(before, from, digit, to);
    var carry: nat := digit;
    assert before[0..] == before;
    for j := 0 to |before|
      invariant |output| == |before| && output[j..] == before[j..]
      invariant output[..j] + MulAdd(before[j..], from, carry, to) == spec
    {
      MulAddStep(output[..j], before[j..], from, carry, to);
      assert before[j..][1..] == before[j + 1..];
      assert output[j] == before[j..][0];
      var x := carry + output[j] * from;
      ghost var prefix := output[..j];
      output := output[j := x % to];
      assert output[..j + 1] == prefix + [x % to];
      carry := x / to;
    }
    assert before[|before|..] == [] && output[..|output|] == output;
    while carry > 0
      invariant output + Digits(carry, to) == spec
    {
      DivSmaller(carry, to);
      assert output + Digits(carry, to) == (output + [carry % to]) + Digits(carry / to, to);
      output := output + [carry % to];
      carry := carry / to;
    }
  }

  /** A carry pass for each input digit, the most significant one first. */
  method DigitsLoop(input: seq<int>, from: int, to: int) returns (output: seq<int>)
    requires 2 <= from && 2 <= to && Digital(input, from)
    ensures Value(Reverse(input), from) >= 0
    ensures output == Digits(Value(Reverse(input), from), to)
  {
    output := [];
    ghost var v: nat := 0;
    for i := 0 to |input|
      invariant v == Value(Reverse(input[..i]), from)
      invariant output == Digits(v, to)
    {
      DigitsValue(v, to);
      MulAddDigits(output, from, input[i], to);
      output := CarryPass(output, from, input[i], to);
      ValueSnoc(input, i, from);
      v := v * from + input[i];
    }
    assert input[..|input|] == input;
  }

  /**
   * The conversion as base58 libraries run it: carry passes over the little-endian output so far;
   * then leading zeros are copied and the digits are put in order.
   */
  method RebaseLoop(input: seq<int>, from: int, to: int) returns (output: seq<int>)
    requires 2 <= from && 2 <= to && Digital(input, from)
    ensures output == Rebase(input, from, to)
  {
    output := DigitsLoop(input, from, to);
    ghost var digits := output;
    var k := 0;
    while k < |input| && input[k] == 0
      invariant k <= |input| && forall i :: 0 <= i < k ==> input[i] == 0
      invariant output == digits + Zeros(k)
    {
      assert Zeros(k) + [0] == Zeros(k + 1);
      output := output + [0];
      k := k + 1;
    }
    LeadingZerosUnique(input, k);
    output := Reverse(output);
    assert output == Zeros(k) + Reverse(digits);
  }
}
