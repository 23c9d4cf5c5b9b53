/** Hexadecimal text as the `hex` crate reads and writes it: lower case out, both cases in. */
module Hex {
  import opened Wrappers

  function Symbol(v: int): (c: char)
    requires 0 <= v < 16
    ensures ValueOf(c) == v
  {
    if v < 10 then (48 + v) as char else (87 + v) as char
  }

  /** The four bits a character stands for, or -1. */
  function ValueOf(c: char): (v: int)
    ensures -1 <= v < 16
  {
    var n := c as int;
    if 48 <= n <= 57 then n - 48
    else if 97 <= n <= 102 then n - 87
    else if 65 <= n <= 70 then n - 55
    else -1
  }

  lemma {:induction false} SymbolOfValue(c: char)
    requires ValueOf(c) >= 0
    ensures Symbol(ValueOf(c)) == Lower(c)
  {
  }

  /** What a hexadecimal digit is, in either case, and what it is worth. */
  lemma {:induction false} ValueExact(c: char, v: nat)
    requires v < 16
    ensures ValueOf(c) == v <==> c == "0123456789abcdef"[v] || c == "0123456789ABCDEF"[v]
  {
  }

  function Lower(c: char): char {
    if 'A' <= c <= 'Z' then (c as int + 32) as char else c
  }

  function LowerAll(s: string): string {
    seq(|s|, i requires 0 <= i < |s| => Lower(s[i]))
  }

  function Encode(b: seq<byte>): string {
    if |b| == 0 then "" else [Symbol(b[0] / 16), Symbol(b[0] % 16)] + Encode(b[1..])
  }

  /** None for an odd length or a character that is not a hexadecimal digit. */
  function Decode(s: string): Option<seq<byte>> {
    if |s| == 0 then Some([])
    else if |s| == 1 || ValueOf(s[0]) < 0 || ValueOf(s[1]) < 0 then None
    else match Decode(s[2..])
      case None => None
      case Some(rest) => Some([ValueOf(s[0]) * 16 + ValueOf(s[1])] + rest)
  }

  lemma {:induction false} DecodeEncode(b: seq<byte>)
    ensures Decode(Encode(b)) == Some(b)
  {
    if |b| > 0 {
      DecodeEncode(b[1..]);
      var hi, lo := b[0] / 16, b[0] % 16;
      assert Encode(b)[0] == Symbol(hi) && Encode(b)[1] == Symbol(lo);
      assert Encode(b)[2..] == Encode(b[1..]);
      assert b == [hi * 16 + lo] + b[1..];
    }
  }

  /** Two characters for a byte, the high four bits first, in lower case. */
  lemma {:induction false} EncodeAt(b: seq<byte>, i: nat)
    requires i < |b|
    ensures |Encode(b)| == 2 * |b|
    ensures Encode(b)[2 * i] == "0123456789abcdef"[b[i] / 16] && Encode(b)[2 * i + 1] == "0123456789abcdef"[b[i] % 16]
  {
    EncodeLength(b);
    assert Encode(b) == [Symbol(b[0] / 16), Symbol(b[0] % 16)] + Encode(b[1..]);
    if i == 0 {
      DigitSymbol(b[0] / 16);
      DigitSymbol(b[0] % 16);
    } else {
      EncodeAt(b[1..], i - 1);
    }
  }

  lemma {:induction false} EncodeLength(b: seq<byte>)
    ensures |Encode(b)| == 2 * |b|
  {
    if |b| > 0 { EncodeLength(b[1..]); }
  }

  lemma {:induction false} DigitSymbol(v: int)
    requires 0 <= v < 16
    ensures Symbol(v) == "0123456789abcdef"[v]
  {
  }

  predicate AllHex(s: string) {
    forall i :: 0 <= i < |s| ==> ValueOf(s[i]) >= 0
  }

  /** Decoding accepts a text for `b` exactly when the text is the encoding of `b` up to case. */
  lemma {:induction false} DecodeExact(s: string, b: seq<byte>)
    ensures Decode(s) == Some(b) <==> AllHex(s) && LowerAll(s) == Encode(b)
  {
    if |s| >= 2 && |b| > 0 {
      DecodeExact(s[2..], b[1..]);
      assert s == [s[0], s[1]] + s[2..] && b == [b[0]] + b[1..];
      assert LowerAll(s) == [Lower(s[0]), Lower(s[1])] + LowerAll(s[2..]);
      assert AllHex(s) <==> ValueOf(s[0]) >= 0 && ValueOf(s[1]) >= 0 && AllHex(s[2..]);
      if ValueOf(s[0]) >= 0 && ValueOf(s[1]) >= 0 {
        SymbolOfValue(s[0]);
        SymbolOfValue(s[1]);
        PairExact(ValueOf(s[0]), ValueOf(s[1]), b[0]);
        assert LowerAll(s) == Encode(b) <==>
               Lower(s[0]) == Symbol(b[0] / 16) && Lower(s[1]) == Symbol(b[0] % 16)
               && LowerAll(s[2..]) == Encode(b[1..]) by {
          SameSplit(Lower(s[0]), Lower(s[1]), LowerAll(s[2..]),
                    Symbol(b[0] / 16), Symbol(b[0] % 16), Encode(b[1..]));
        }
        SameHead(ValueOf(s[0]) * 16 + ValueOf(s[1]), b[0], Decode(s[2..]), b[1..]);
      }
    }
  }

  lemma {:induction false} PairExact(hi: int, lo: int, v: byte)
    requires 0 <= hi < 16 && 0 <= lo < 16
    ensures hi * 16 + lo == v <==> Symbol(hi) == Symbol(v / 16) && Symbol(lo) == Symbol(v % 16)
  {
  }

  lemma {:induction false} SameSplit(a: char, b: char, s: string, c: char, d: char, t: string)
    ensures [a, b] + s == [c, d] + t <==> a == c && b == d && s == t
  {
    var x, y := [a, b] + s, [c, d] + t;
    assert x[0] == a && x[1] == b && x[2..] == s && y[0] == c && y[1] == d && y[2..] == t;
  }

  lemma {:induction false} SameHead(a: byte, b: byte, s: Option<seq<byte>>, t: seq<byte>)
    ensures s.Some? ==> ([a] + s.value == [b] + t <==> a == b && s.value == t)
  {
    if s.Some? {
      var x, y := [a] + s.value, [b] + t;
      assert x[0] == a && x[1..] == s.value && y[0] == b && y[1..] == t;
    }
  }
}
