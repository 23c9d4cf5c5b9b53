/** base58btc with the Bitcoin alphabet, as `bs58` encodes and decodes it. */
module Base58 {
  import opened Wrappers
  import opened Alphabets
  import opened Positional

  /** The alphabet is the digits and letters without `0`, `O`, `I` and `l`. */
  function Symbol(v: int): (c: char)
    requires 0 <= v < 58
    ensures ValueOf(c) == v
  {
    if v < 9 then (49 + v) as char
    else if v < 17 then (56 + v) as char
    else if v < 22 then (57 + v) as char
    else if v < 33 then (58 + v) as char
    else if v < 44 then (64 + v) as char
    else (65 + v) as char
  }

  /** The digit a character stands for, or -1. */
  function ValueOf(c: char): (v: int)
    ensures -1 <= v < 58
  {
    var n := c as int;
    if 49 <= n <= 57 then n - 49
    else if 65 <= n <= 72 then n - 56
    else if 74 <= n <= 78 then n - 57
    else if 80 <= n <= 90 then n - 58
    else if 97 <= n <= 107 then n - 64
    else if 109 <= n <= 122 then n - 65
    else -1
  }

  lemma {:induction false} SymbolOfValue(c: char)
    requires ValueOf(c) >= 0
    ensures Symbol(ValueOf(c)) == c
  {
  }

  function Symbols(ds: seq<int>): (s: string)
    requires Digital(ds, 58)
    ensures |s| == |ds| && forall i :: 0 <= i < |s| ==> ValueOf(s[i]) == ds[i]
  {
    seq(|ds|, i requires 0 <= i < |ds| => Symbol(ds[i]))
  }

  predicate InAlphabet(s: string) {
    forall i :: 0 <= i < |s| ==> ValueOf(s[i]) >= 0
  }

  function Values(s: string): (ds: seq<int>)
    requires InAlphabet(s)
    ensures Digital(ds, 58) && |ds| == |s|
  {
    seq(|s|, i requires 0 <= i < |s| => ValueOf(s[i]))
  }

  lemma {:induction false} SymbolsOfValues(s: string)
    requires InAlphabet(s)
    ensures Symbols(Values(s)) == s
  {
    forall i | 0 <= i < |s| ensures Symbols(Values(s))[i] == s[i] {
      SymbolOfValue(s[i]);
    }
  }

  function Encode(b: seq<byte>): string {
    Symbols(Rebase(b, 256, 58))
  }

  /** The bytes of a base58 text; None when a character is outside the alphabet. */
  function Decode(s: string): Option<seq<byte>> {
    if InAlphabet(s) then Some(AsBytes(Rebase(Values(s), 58, 256))) else None
  }

  function AsBytes(ds: seq<int>): (b: seq<byte>)
    requires Digital(ds, 256)
    ensures b == ds
  {
    seq(|ds|, i requires 0 <= i < |ds| => ds[i])
  }

  lemma {:induction false} DecodeEncode(b: seq<byte>)
    ensures Decode(Encode(b)) == Some(b)
  {
    assert Digital(b, 256);
    assert Values(Encode(b)) == Rebase(b, 256, 58);
    RebaseRoundTrip(b, 256, 58);
  }

  /** base58 texts are canonical: a text that decodes is the text of the bytes it decodes to. */
  lemma {:induction false} EncodeDecode(s: string)
    requires Decode(s).Some?
    ensures Encode(Decode(s).value) == s
  {
    RebaseRoundTrip(Values(s), 58, 256);
    SymbolsOfValues(s);
  }

  /** Digits and letters without `0`, `O`, `I` and `l`. */
  const ALPHABET: string := DIGITS[1..] + CAPITALS + SMALL
  const CAPITALS: string := UPPER[..8] + UPPER[9..14] + UPPER[15..]
  const SMALL: string := LOWER[..11] + LOWER[12..]

  /** The digits in order are those of the Bitcoin alphabet, and no other character is a digit. */
  lemma {:induction false} AlphabetExact(v: int, c: char)
    requires 0 <= v < 58
    ensures |ALPHABET| == 58 && (ValueOf(c) == v <==> c == ALPHABET[v])
  {
    assert Symbol(v) == ALPHABET[v] by {
      SymbolInAlphabet(v);
    }
    if ValueOf(c) == v { SymbolOfValue(c); }
  }

  lemma {:induction false} SymbolInAlphabet(v: int)
    requires 0 <= v < 58
    ensures Symbol(v) == ALPHABET[v]
  {
    if v < 9 {
      DigitAt(v + 1);
    } else if v < 17 {
      UpperAt(v - 9);
      assert ALPHABET[v] == CAPITALS[v - 9];
    } else if v < 22 {
      UpperAt(v - 8);
      assert ALPHABET[v] == CAPITALS[v - 9];
    } else if v < 33 {
      UpperAt(v - 7);
      assert ALPHABET[v] == CAPITALS[v - 9];
    } else if v < 44 {
      LowerAt(v - 33);
      assert ALPHABET[v] == SMALL[v - 33];
    } else {
      LowerAt(v - 32);
      assert ALPHABET[v] == SMALL[v - 33];
    }
  }

  /**
   * The text of some bytes: characters of the alphabet that spell, in base 58, the number the bytes
   * spell in base 256, after a `1` for each leading zero byte.
   */
  lemma {:induction false} EncodeExact(b: seq<byte>, s: string)
    ensures s == Encode(b) <==>
            InAlphabet(s) && LeadingZeros(Values(s)) == LeadingZeros(b)
            && Spelled(Values(s), 58) == Spelled(b, 256)
  {
    assert Digital(b, 256);
    RebaseExact(b, 256, 58, Rebase(b, 256, 58));
    assert Values(Encode(b)) == Rebase(b, 256, 58);
    if InAlphabet(s) {
      RebaseExact(b, 256, 58, Values(s));
      SymbolsOfValues(s);
    }
  }

  method EncodeLoop(b: seq<byte>) returns (s: string)
    ensures s == Encode(b)
  {
    assert Digital(b, 256);
    var ds := RebaseLoop(b, 256, 58);
    s := Symbols(ds);
  }

  method DecodeLoop(s: string) returns (r: Option<seq<byte>>)
    ensures r == Decode(s)
  {
    var digits: seq<int> := [];
    for i := 0 to |s|
      invariant InAlphabet(s[..i]) && digits == Values(s[..i])
    {
      var v := ValueOf(s[i]);
      if v < 0 {
        return None;
      }
      assert s[..i + 1] == s[..i] + [s[i]];
      digits := digits + [v];
    }
    assert s[..|s|] == s;
    var bytes := RebaseLoop(digits, 58, 256);
    r := Some(AsBytes(bytes));
  }
}
