/** base64url without padding (sections 3.5 and 5 of RFC 4648), in its strict form. */
module Base64Url {
  import opened Wrappers

  type sextet = x: int | 0 <= x < 64

  function Symbol(v: sextet): (c: char)
    ensures ValueOf(c) == v && c != '.'
  {
    if v < 26 then (65 + v) as char
    else if v < 52 then (71 + v) as char
    else if v < 62 then (v - 4) as char
    else if v == 62 then '-'
    else '_'
  }

  /** The six bits a character stands for, or -1. */
  function ValueOf(c: char): (v: int)
    ensures -1 <= v < 64
  {
    var n := c as int;
    if 65 <= n <= 90 then n - 65
    else if 97 <= n <= 122 then n - 71
    else if 48 <= n <= 57 then n + 4
    else if c == '-' then 62
    else if c == '_' then 63
    else -1
  }

  lemma {:induction false} SymbolOfValue(c: char)
    requires ValueOf(c) >= 0
    ensures Symbol(ValueOf(c)) == c
  {
  }

  function Symbols(v: seq<sextet>): (s: string)
    ensures |s| == |v| && '.' !in s && forall i :: 0 <= i < |s| ==> ValueOf(s[i]) == v[i]
  {
    seq(|v|, i requires 0 <= i < |v| => Symbol(v[i]))
  }

  predicate InAlphabet(s: string) {
    forall i :: 0 <= i < |s| ==> ValueOf(s[i]) >= 0
  }

  function Values(s: string): (v: seq<sextet>)
    requires InAlphabet(s)
    ensures |v| == |s| && forall i :: 0 <= i < |s| ==> v[i] == ValueOf(s[i])
  {
    seq(|s|, i requires 0 <= i < |s| => ValueOf(s[i]))
  }

  lemma {:induction false} SymbolsOfValues(s: string)
    requires InAlphabet(s)
    ensures Symbols(Values(s)) == s
  {
    forall i | 0 <= i < |s| ensures Symbols(Values(s))[i] == s[i] {
      SymbolOfValue(s[i]);
    }
  }

  /** Octets cut into groups of six bits; the unused bits of the last group are zero. */
  function Sextets(b: seq<byte>): seq<sextet> {
    if |b| == 0 then []
    else if |b| == 1 then
      [b[0] / 4, b[0] % 4 * 16]
    else if |b| == 2 then
      [b[0] / 4, b[0] % 4 * 16 + b[1] / 16, b[1] % 16 * 4]
    else
      [b[0] / 4, b[0] % 4 * 16 + b[1] / 16, b[1] % 16 * 4 + b[2] / 64, b[2] % 64] + Sextets(b[3..])
  }

  function Octet0(a: sextet, b: sextet): byte { a * 4 + b / 16 }
  function Octet1(b: sextet, c: sextet): byte { b % 16 * 16 + c / 4 }
  function Octet2(c: sextet, d: sextet): byte { c % 4 * 64 + d }

  /**
   * The octets back; None for a length of 1 modulo 4 and for a last group with unused bits that
   * are not zero.
   */
  function Octets(v: seq<sextet>): Option<seq<byte>> {
    if |v| == 0 then Some([])
    else if |v| == 1 then None
    else if |v| == 2 then
      if v[1] % 16 == 0 then Some([Octet0(v[0], v[1])]) else None
    else if |v| == 3 then
      if v[2] % 4 == 0 then Some([Octet0(v[0], v[1]), Octet1(v[1], v[2])]) else None
    else match Octets(v[4..])
      case None => None
      case Some(rest) =>
        Some([Octet0(v[0], v[1]), Octet1(v[1], v[2]), Octet2(v[2], v[3])] + rest)
  }

  lemma {:induction false} Ungroup(x: byte, y: byte, z: byte)
    ensures Octet0(x / 4, x % 4 * 16 + y / 16) == x
    ensures Octet1(x % 4 * 16 + y / 16, y % 16 * 4 + z / 64) == y
    ensures Octet2(y % 16 * 4 + z / 64, z % 64) == z
  {
  }

  lemma {:induction false} OctetsGroup(a: sextet, b: sextet, c: sextet, d: sextet, w: seq<sextet>)
    requires Octets(w).Some?
    ensures Octets([a, b, c, d] + w) == Some([Octet0(a, b), Octet1(b, c), Octet2(c, d)] + Octets(w).value)
  {
    assert ([a, b, c, d] + w)[4..] == w;
  }

  lemma {:induction false} OctetsOfFew(b: seq<byte>)
    requires |b| < 3
    ensures Octets(Sextets(b)) == Some(b)
  {
    if |b| == 2 {
      Ungroup(b[0], b[1], 0);
      assert b == [b[0], b[1]];
    } else if |b| == 1 {
      Ungroup(b[0], 0, 0);
      assert b == [b[0]];
    }
  }

  lemma {:induction false} OctetsOfSextets(b: seq<byte>)
    ensures Octets(Sextets(b)) == Some(b)
  {
    if |b| < 3 {
      OctetsOfFew(b);
    } else {
      OctetsOfSextets(b[3..]);
      Ungroup(b[0], b[1], b[2]);
      OctetsGroup(b[0] / 4, b[0] % 4 * 16 + b[1] / 16, b[1] % 16 * 4 + b[2] / 64, b[2] % 64, Sextets(b[3..]));
      assert b == [b[0], b[1], b[2]] + b[3..];
    }
  }

  lemma {:induction false} Regroup(a: sextet, b: sextet, c: sextet, d: sextet)
    ensures var x, y, z := Octet0(a, b), Octet1(b, c), Octet2(c, d);
      x / 4 == a && x % 4 * 16 + y / 16 == b && y % 16 * 4 + z / 64 == c && z % 64 == d
  {
  }

  lemma {:induction false} SextetsOfOctets(v: seq<sextet>)
    requires Octets(v).Some?
    ensures Sextets(Octets(v).value) == v
  {
    if |v| >= 4 {
      SextetsOfOctets(v[4..]);
      Regroup(v[0], v[1], v[2], v[3]);
      assert Octets(v).value[3..] == Octets(v[4..]).value;
      assert v == [v[0], v[1], v[2], v[3]] + v[4..];
    } else if |v| == 3 {
      Regroup(v[0], v[1], v[2], 0);
      assert v == [v[0], v[1], v[2]];
    } else if |v| == 2 {
      Regroup(v[0], v[1], 0, 0);
      assert v == [v[0], v[1]];
    }
  }

  function Encode(b: seq<byte>): (s: string)
    ensures '.' !in s
  {
    Symbols(Sextets(b))
  }

  /** None for a character outside the alphabet (padding included) or for a malformed tail. */
  function Decode(s: string): Option<seq<byte>> {
    if InAlphabet(s) then Octets(Values(s)) else None
  }

  lemma {:induction false} DecodeEncode(b: seq<byte>)
    ensures Decode(Encode(b)) == Some(b)
  {
    assert Values(Encode(b)) == Sextets(b);
    OctetsOfSextets(b);
  }

  /** Every accepted text is the encoding of its own decoded bytes. */
  lemma {:induction false} EncodeDecode(s: string)
    requires Decode(s).Some?
    ensures Encode(Decode(s).value) == s
  {
    SextetsOfOctets(Values(s));
    SymbolsOfValues(s);
  }
}
