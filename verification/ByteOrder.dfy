/** The order of strings is the order of their UTF-8 bytes. */
module ByteOrder {
  import opened Wrappers
  import opened Ordering
  import Utf8

  /** How Rust compares strings: byte by byte, a prefix first. */
  predicate BytesLess(a: seq<byte>, b: seq<byte>) {
    |b| > 0 && (|a| == 0 || a[0] < b[0] || (a[0] == b[0] && BytesLess(a[1..], b[1..])))
  }

  lemma {:induction false} CommonPrefix(p: seq<byte>, a: seq<byte>, b: seq<byte>)
    ensures BytesLess(p + a, p + b) <==> BytesLess(a, b)
  {
    if |p| == 0 {
      assert p + a == a && p + b == b;
    } else {
      CommonPrefix(p[1..], a, b);
      assert (p + a)[1..] == p[1..] + a && (p + b)[1..] == p[1..] + b;
    }
  }

  /** The first difference decides. */
  lemma {:induction false} FirstDifference(p: seq<byte>, x: byte, a: seq<byte>, y: byte, b: seq<byte>)
    requires x < y
    ensures BytesLess(p + ([x] + a), p + ([y] + b))
  {
    CommonPrefix(p, [x] + a, [y] + b);
  }

  lemma {:induction false} Asymmetric(a: seq<byte>, b: seq<byte>)
    requires BytesLess(a, b)
    ensures !BytesLess(b, a)
  {
    if |a| > 0 && a[0] == b[0] { Asymmetric(a[1..], b[1..]); }
  }

  lemma {:induction false} Irreflexive(a: seq<byte>)
    ensures !BytesLess(a, a)
  {
    if |a| > 0 { Irreflexive(a[1..]); }
  }

  /** Two numbers compare like their quotients, and on a tie like their low bits. */
  lemma {:induction false} LowOrder(n: nat, m: nat)
    requires n < m
    ensures n / 64 < m / 64 || (n / 64 == m / 64 && Utf8.Low(n) < Utf8.Low(m))
  {
  }

  /** The last `k` bytes of an encoding. */
  function Tail(n: nat, k: nat): seq<byte> {
    if k == 0 then [] else Tail(n / 64, k - 1) + [Utf8.Low(n)]
  }

  function High(n: nat, k: nat): nat {
    if k == 0 then n else High(n / 64, k - 1)
  }

  /** Same number of continuation bytes: the high bits decide, then the continuation bytes in order. */
  lemma {:induction false} TailOrder(n: nat, m: nat, k: nat, s: seq<byte>, t: seq<byte>)
    requires n < m
    ensures High(n, k) < High(m, k) || (High(n, k) == High(m, k) && BytesLess(Tail(n, k) + s, Tail(m, k) + t))
  {
    if k > 0 {
      LowOrder(n, m);
      assert Tail(n, k) + s == Tail(n / 64, k - 1) + ([Utf8.Low(n)] + s);
      assert Tail(m, k) + t == Tail(m / 64, k - 1) + ([Utf8.Low(m)] + t);
      if n / 64 < m / 64 {
        TailOrder(n / 64, m / 64, k - 1, [Utf8.Low(n)] + s, [Utf8.Low(m)] + t);
      } else {
        FirstDifference(Tail(n / 64, k - 1), Utf8.Low(n), s, Utf8.Low(m), t);
      }
    }
  }

  function Lead(k: nat): nat {
    if k == 0 then 0 else if k == 1 then 0xC0 else if k == 2 then 0xE0 else 0xF0
  }

  /** How many continuation bytes a scalar value takes. */
  function Width(n: nat): (k: nat)
    ensures k <= 3
  {
    if n < 0x80 then 0 else if n < 0x800 then 1 else if n < 0x10000 then 2 else 3
  }

  lemma {:induction false} Shape(c: char)
    ensures var n := c as int;
      var k := Width(n);
      && Lead(k) + High(n, k) < 256 && (k > 0 ==> Lead(k) + High(n, k) >= 0xC0)
      && (k < 3 ==> Lead(k) + High(n, k) < Lead(k + 1)) && (k == 0 ==> High(n, k) < 0x80)
      && Utf8.EncodeScalar(c) == [Lead(k) + High(n, k)] + Tail(n, k)
  {
    var n := c as int;
    var n1, n2 := n / 64, n / 64 / 64;
    assert Tail(n, 1) == Tail(n1, 0) + [Utf8.Low(n)] == [Utf8.Low(n)];
    assert Tail(n, 2) == Tail(n1, 1) + [Utf8.Low(n)] && Tail(n1, 1) == [Utf8.Low(n1)];
    assert Tail(n, 3) == Tail(n1, 2) + [Utf8.Low(n)] && Tail(n1, 2) == Tail(n2, 1) + [Utf8.Low(n1)];
    assert Tail(n2, 1) == [Utf8.Low(n2)];
    assert High(n, 1) == n1 && High(n, 2) == High(n1, 1) == n2 && High(n, 3) == High(n1, 2) == High(n2, 1) == n2 / 64;
  }

  lemma {:induction false} ScalarOrder(c: char, d: char, s: seq<byte>, t: seq<byte>)
    requires c < d
    ensures BytesLess(Utf8.EncodeScalar(c) + s, Utf8.EncodeScalar(d) + t)
  {
    var n, m := c as int, d as int;
    var j, k := Width(n), Width(m);
    Shape(c);
    Shape(d);
    var x, y := Lead(j) + High(n, j), Lead(k) + High(m, k);
    assert Utf8.EncodeScalar(c) + s == [x] + (Tail(n, j) + s);
    assert Utf8.EncodeScalar(d) + t == [y] + (Tail(m, k) + t);
    if j == k {
      TailOrder(n, m, k, s, t);
    } else {
      assert x < y;
    }
  }

  lemma {:induction false} LessIsBytesLess(a: string, b: string)
    requires Less(a, b)
    ensures BytesLess(Utf8.Encode(a), Utf8.Encode(b))
  {
    if |a| > 0 {
      if a[0] < b[0] {
        ScalarOrder(a[0], b[0], Utf8.Encode(a[1..]), Utf8.Encode(b[1..]));
      } else {
        LessIsBytesLess(a[1..], b[1..]);
        CommonPrefix(Utf8.EncodeScalar(a[0]), Utf8.Encode(a[1..]), Utf8.Encode(b[1..]));
      }
    }
  }

  /** Comparing scalar values and comparing UTF-8 bytes is the same for all strings. */
  lemma {:induction false} OrderIsByteOrder(a: string, b: string)
    ensures Less(a, b) <==> BytesLess(Utf8.Encode(a), Utf8.Encode(b))
  {
    LessTotal(a, b);
    if Less(a, b) {
      LessIsBytesLess(a, b);
    } else if Less(b, a) {
      LessIsBytesLess(b, a);
      Asymmetric(Utf8.Encode(b), Utf8.Encode(a));
    } else {
      Irreflexive(Utf8.Encode(a));
    }
  }
}
