/** UTF-8: the bytes of a Rust string, and the strict check that bytes are a string. */
module Utf8 {
  import opened Wrappers

  /** A continuation byte carries the six low bits of `n`. */
  function Low(n: nat): byte { 0x80 + n % 64 }

  predicate Continuation(b: byte) {
    0x80 <= b < 0xC0
  }

  /** The bits read so far followed by the six bits of a continuation byte. */
  function Join(high: nat, b: byte): nat
    requires Continuation(b)
  {
    high * 64 + (b - 0x80)
  }

  lemma {:induction false} JoinLow(n: nat)
    ensures Join(n / 64, Low(n)) == n
  {
  }

  lemma {:induction false} SplitJoin(high: nat, b: byte)
    requires Continuation(b)
    ensures Join(high, b) / 64 == high && Low(Join(high, b)) == b
  {
  }

  function EncodeScalar(c: char): (b: seq<byte>)
    ensures 1 <= |b| <= 4
  {
    var n := c as int;
    if n < 0x80 then [n]
    else if n < 0x800 then [0xC0 + n / 64, Low(n)]
    else if n < 0x10000 then [0xE0 + n / 64 / 64, Low(n / 64), Low(n)]
    else [0xF0 + n / 64 / 64 / 64, Low(n / 64 / 64), Low(n / 64), Low(n)]
  }

  predicate Scalar(n: int) {
    0 <= n < 0xD800 || 0xE000 <= n < 0x110000
  }

  /** The first scalar value and its width; overlong forms and surrogates are refused. */
  function DecodeScalar(b: seq<byte>): (r: Option<(char, nat)>)
    requires |b| > 0
    ensures r.Some? ==> 1 <= r.value.1 <= |b|
  {
    if b[0] < 0x80 then Some((b[0] as char, 1))
    else if 0xC0 <= b[0] < 0xE0 && |b| >= 2 && Continuation(b[1]) then
      var n := Join(b[0] - 0xC0, b[1]);
      if n >= 0x80 then Some((n as char, 2)) else None
    else if 0xE0 <= b[0] < 0xF0 && |b| >= 3 && Continuation(b[1]) && Continuation(b[2]) then
      var n := Join(Join(b[0] - 0xE0, b[1]), b[2]);
      if n >= 0x800 && Scalar(n) then Some((n as char, 3)) else None
    else if 0xF0 <= b[0] < 0xF8 && |b| >= 4
            && Continuation(b[1]) && Continuation(b[2]) && Continuation(b[3]) then
      var n := Join(Join(Join(b[0] - 0xF0, b[1]), b[2]), b[3]);
      if n >= 0x10000 && Scalar(n) then Some((n as char, 4)) else None
    else None
  }

  lemma {:induction false} ScalarRoundTrip(c: char, rest: seq<byte>)
    ensures DecodeScalar(EncodeScalar(c) + rest) == Some((c, |EncodeScalar(c)|))
  {
    var n := c as int;
    JoinLow(n);
    JoinLow(n / 64);
    JoinLow(n / 64 / 64);
  }

  lemma {:induction false} ScalarCanonical(b: seq<byte>)
    requires |b| > 0 && DecodeScalar(b).Some?
    ensures var (c, width) := DecodeScalar(b).value;
      EncodeScalar(c) == b[..width]
  {
    var (c, width) := DecodeScalar(b).value;
    if width == 1 {
    } else if width == 2 {
      SplitJoin(b[0] - 0xC0, b[1]);
    } else if width == 3 {
      SplitJoin(b[0] - 0xE0, b[1]);
      SplitJoin(Join(b[0] - 0xE0, b[1]), b[2]);
    } else {
      SplitJoin(b[0] - 0xF0, b[1]);
      SplitJoin(Join(b[0] - 0xF0, b[1]), b[2]);
      SplitJoin(Join(Join(b[0] - 0xF0, b[1]), b[2]), b[3]);
    }
  }

  function Encode(s: string): seq<byte> {
    if |s| == 0 then [] else EncodeScalar(s[0]) + Encode(s[1..])
  }

  function Decode(b: seq<byte>): Option<string> {
    if |b| == 0 then Some("")
    else match DecodeScalar(b)
      case None => None
      case Some((c, width)) =>
        match Decode(b[width..])
        case None => None
        case Some(rest) => Some([c] + rest)
  }

  lemma {:induction false} DecodeEncode(s: string)
    ensures Decode(Encode(s)) == Some(s)
  {
    if |s| > 0 {
      DecodeEncode(s[1..]);
      ScalarRoundTrip(s[0], Encode(s[1..]));
      assert Encode(s)[|EncodeScalar(s[0])|..] == Encode(s[1..]);
      assert s == [s[0]] + s[1..];
    }
  }

  lemma {:induction false} EncodeDecode(b: seq<byte>)
    requires Decode(b).Some?
    ensures Encode(Decode(b).value) == b
  {
    if |b| > 0 {
      var (c, width) := DecodeScalar(b).value;
      var rest := Decode(b[width..]).value;
      EncodeDecode(b[width..]);
      ScalarCanonical(b);
      assert Decode(b).value == [c] + rest;
      assert Encode([c] + rest) == EncodeScalar(c) + Encode(rest) by {
        assert ([c] + rest)[1..] == rest;
      }
      assert b == b[..width] + b[width..];
    }
  }

  lemma {:induction false} Injective(s: string, t: string)
    requires Encode(s) == Encode(t)
    ensures s == t
  {
    DecodeEncode(s);
    DecodeEncode(t);
  }

  // ------------------------------------------------------------- bytes as characters

  /** Bytes as the characters 0 to 255: what a parser that reads bytes sees. */
  function Chars(b: seq<byte>): string {
    if |b| == 0 then "" else [b[0] as char] + Chars(b[1..])
  }

  function Wire(s: string): string {
    Chars(Encode(s))
  }

  predicate Narrow(w: string) {
    forall i :: 0 <= i < |w| ==> w[i] as int < 256
  }

  function Octets(w: string): (b: seq<byte>)
    requires Narrow(w)
    ensures |b| == |w|
  {
    if |w| == 0 then [] else [w[0] as int] + Octets(w[1..])
  }

  /** The string these bytes are, if they are one. */
  function Text(w: string): Option<string> {
    if Narrow(w) then Decode(Octets(w)) else None
  }

  lemma {:induction false} OctetsOfChars(b: seq<byte>)
    ensures Narrow(Chars(b)) && Octets(Chars(b)) == b
  {
    if |b| > 0 {
      OctetsOfChars(b[1..]);
      assert Chars(b)[1..] == Chars(b[1..]);
      assert b == [b[0]] + b[1..];
    }
  }

  lemma {:induction false} TextOfWire(s: string)
    ensures Text(Wire(s)) == Some(s)
  {
    OctetsOfChars(Encode(s));
    DecodeEncode(s);
  }

  lemma {:induction false} CharsOfOctets(w: string)
    requires Narrow(w)
    ensures Chars(Octets(w)) == w
  {
    if |w| > 0 {
      CharsOfOctets(w[1..]);
      assert Octets(w)[1..] == Octets(w[1..]);
      assert w == [w[0]] + w[1..];
    }
  }

  /** Bytes are a text exactly when they are its encoding. */
  lemma {:induction false} TextExact(w: string, s: string)
    ensures Text(w) == Some(s) <==> w == Wire(s)
  {
    TextOfWire(s);
    if Text(w) == Some(s) {
      EncodeDecode(Octets(w));
      CharsOfOctets(w);
    }
  }

  lemma {:induction false} CharsAppend(a: seq<byte>, b: seq<byte>)
    ensures Chars(a + b) == Chars(a) + Chars(b)
  {
    if |a| == 0 {
      assert a + b == b;
    } else {
      CharsAppend(a[1..], b);
      assert (a + b)[1..] == a[1..] + b;
    }
  }

  lemma {:induction false} Regroup(a: seq<byte>, b: seq<byte>, c: seq<byte>)
    ensures a + (b + c) == (a + b) + c
  {
  }

  lemma {:induction false} EncodeFirst(s: string)
    requires |s| > 0
    ensures Encode(s) == EncodeScalar(s[0]) + Encode(s[1..])
  {
  }

  lemma {:induction false} EncodeAppend(s: string, t: string)
    ensures Encode(s + t) == Encode(s) + Encode(t)
  {
    if |s| == 0 {
      assert s + t == t;
    } else {
      EncodeAppend(s[1..], t);
      assert (s + t)[1..] == s[1..] + t;
      EncodeFirst(s + t);
      Regroup(EncodeScalar(s[0]), Encode(s[1..]), Encode(t));
    }
  }

  lemma {:induction false} WireAppend(s: string, t: string)
    ensures Wire(s + t) == Wire(s) + Wire(t)
  {
    EncodeAppend(s, t);
    CharsAppend(Encode(s), Encode(t));
  }

  lemma {:induction false} WireAppend3(s: string, t: string, u: string)
    ensures Wire(s + t + u) == Wire(s) + Wire(t) + Wire(u)
  {
    WireAppend(s + t, u);
    WireAppend(s, t);
  }

  predicate Ascii(s: string) {
    forall i :: 0 <= i < |s| ==> s[i] as int < 128
  }

  /** ASCII is its own encoding. */
  lemma {:induction false} WireAscii(s: string)
    requires Ascii(s)
    ensures Wire(s) == s
  {
    if |s| > 0 {
      WireAscii(s[1..]);
      WireFirst(s);
      assert EncodeScalar(s[0]) == [s[0] as int];
      assert Wire([s[0]]) == [s[0]] by { WireOne(s[0]); }
      assert s == [s[0]] + s[1..];
    }
  }

  lemma {:induction false} WireOne(c: char)
    ensures Wire([c]) == Chars(EncodeScalar(c))
  {
    assert [c][1..] == "" && Encode("") == [];
    assert EncodeScalar(c) + [] == EncodeScalar(c);
  }

  lemma {:induction false} WireFirst(s: string)
    requires |s| > 0
    ensures Wire(s) == Wire([s[0]]) + Wire(s[1..])
  {
    assert s == [s[0]] + s[1..];
    WireAppend([s[0]], s[1..]);
  }

  /** A character outside ASCII is bytes outside ASCII. */
  lemma {:induction false} WireHigh(c: char)
    requires c as int >= 128
    ensures var w := Wire([c]); forall i :: 0 <= i < |w| ==> w[i] as int >= 128
  {
    WireOne(c);
    CharsAt(EncodeScalar(c));
  }

  lemma {:induction false} CharsAt(b: seq<byte>)
    ensures |Chars(b)| == |b| && forall i :: 0 <= i < |b| ==> Chars(b)[i] == b[i] as char
  {
    if |b| > 0 { CharsAt(b[1..]); }
  }
}
