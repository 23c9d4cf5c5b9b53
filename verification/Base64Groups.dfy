/** What base64url encodes: the bits of the octets in order, six at a time (section 4 of RFC 4648). */
module Base64Groups {
  import opened Wrappers
  import opened Alphabets
  import opened Base64Url
  import opened Positional

  const ALPHABET: string := UPPER + LOWER + DIGITS + "-_"

  lemma {:induction false} SymbolInAlphabet(v: sextet)
    ensures |ALPHABET| == 64 && Symbol(v) == ALPHABET[v]
  {
    if v < 26 {
      UpperAt(v);
    } else if v < 52 {
      LowerAt(v - 26);
    } else if v < 62 {
      DigitAt(v - 52);
    }
  }

  /** Table 2 of RFC 4648: the value of a character is its place in the alphabet. */
  lemma {:induction false} AlphabetExact(v: sextet, c: char)
    ensures |ALPHABET| == 64 && (ValueOf(c) == v <==> c == ALPHABET[v])
  {
    SymbolInAlphabet(v);
    if ValueOf(c) == v { SymbolOfValue(c); }
  }

  /** How many groups of six bits some octets take, and what the unused bits multiply their number by. */
  function Groups(octets: nat): nat { (4 * octets + 2) / 3 }
  function Padding(octets: nat): nat { if octets % 3 == 0 then 1 else if octets % 3 == 1 then 16 else 4 }

  function Power(b: nat, e: nat): nat { if e == 0 then 1 else b * Power(b, e - 1) }

  lemma {:induction false} PowerFour(k: nat)
    ensures Power(64, k + 4) == 0x1000000 * Power(64, k)
  {
    assert Power(64, k + 4) == 64 * Power(64, k + 3) == 64 * (64 * Power(64, k + 2));
    assert Power(64, k + 2) == 64 * Power(64, k + 1) == 64 * (64 * Power(64, k));
  }

  lemma {:induction false} PowerThree(k: nat)
    ensures Power(256, k + 3) == 0x1000000 * Power(256, k)
  {
    assert Power(256, k + 3) == 256 * Power(256, k + 2) == 256 * (256 * Power(256, k + 1));
    assert Power(256, k + 1) == 256 * Power(256, k);
  }

  lemma {:induction false} SmallPowers()
    ensures Power(64, 0) == 1 && Power(64, 2) == 256 * 16 && Power(64, 3) == 256 * 256 * 4
    ensures Power(256, 0) == 1 && Power(256, 1) == 256 && Power(256, 2) == 256 * 256
  {
    assert Power(64, 1) == 64 * Power(64, 0) && Power(64, 2) == 64 * Power(64, 1);
    assert Power(256, 1) == 256 * Power(256, 0);
  }

  lemma {:induction false} Scale(p: int, pad: int)
    ensures 0x1000000 * (p * pad) == (0x1000000 * p) * pad
  {
  }

  lemma {:induction false} PowersAgree(n: nat)
    ensures Power(64, Groups(n)) == Power(256, n) * Padding(n)
  {
    if n < 3 {
      SmallPowers();
    } else {
      PowersAgree(n - 3);
      PowerFour(Groups(n - 3));
      PowerThree(n - 3);
      Scale(Power(256, n - 3), Padding(n));
    }
  }

  lemma {:induction false} SpelledAppend(s: seq<int>, t: seq<int>, base: nat)
    ensures Spelled(s + t, base) == Spelled(s, base) * Power(base, |t|) + Spelled(t, base)
  {
    if |t| == 0 {
      assert s + t == s;
    } else {
      var init, last := t[..|t| - 1], t[|t| - 1];
      SpelledAppend(s, init, base);
      assert (s + t)[..|s + t| - 1] == s + init;
      Distribute(Spelled(s, base), Power(base, |init|), Spelled(init, base), base);
    }
  }

  lemma {:induction false} Distribute(a: int, p: int, c: int, base: int)
    ensures (a * p + c) * base == a * (base * p) + c * base
  {
  }

  lemma {:induction false} SpelledFour(a: int, b: int, c: int, d: int, base: int)
    ensures Spelled([a, b, c, d], base) == ((a * base + b) * base + c) * base + d
  {
    assert [a, b, c, d][..3] == [a, b, c];
    SpelledThree(a, b, c, base);
  }

  lemma {:induction false} SpelledThree(a: int, b: int, c: int, base: int)
    ensures Spelled([a, b, c], base) == (a * base + b) * base + c
  {
    assert [a, b, c][..2] == [a, b];
    SpelledTwo(a, b, base);
  }

  lemma {:induction false} SpelledTwo(a: int, b: int, base: int)
    ensures Spelled([a, b], base) == a * base + b && Spelled([a], base) == a
  {
    assert [a, b][..1] == [a] && [a][..0] == [];
    assert Spelled([a][..0], base) == 0;
    assert Spelled([a], base) == 0 * base + a;
  }

  lemma {:induction false} FullGroup(b: seq<byte>)
    requires |b| >= 3
    ensures Spelled(Sextets(b)[..4], 64) == Spelled(b[..3], 256)
    ensures Sextets(b) == Sextets(b)[..4] + Sextets(b[3..])
  {
    var v := Sextets(b);
    assert v[..4] == [v[0], v[1], v[2], v[3]] && b[..3] == [b[0], b[1], b[2]];
    SpelledFour(v[0], v[1], v[2], v[3], 64);
    SpelledThree(b[0], b[1], b[2], 256);
    Regrouped(b[0], b[1], b[2]);
  }

  lemma {:induction false} Regrouped(x: byte, y: byte, z: byte)
    ensures (((x / 4) * 64 + (x % 4 * 16 + y / 16)) * 64 + (y % 16 * 4 + z / 64)) * 64 + z % 64
         == (x * 256 + y) * 256 + z
  {
  }

  /** So many groups, that spell what the octets spell, shifted by the padding. */
  predicate Regroups(b: seq<int>, v: seq<int>) {
    |v| == Groups(|b|) && Spelled(v, 64) == Spelled(b, 256) * Padding(|b|)
  }

  lemma {:induction false} GroupGlue(head: int, power: int, pad: int, rest: int)
    ensures head * (power * pad) + rest * pad == (head * power + rest) * pad
  {
  }

  lemma {:induction false} GroupsSpell(group: seq<int>, rest: seq<int>, v: seq<int>, w: seq<int>)
    requires |group| == 3 && |v| == 4 && Spelled(v, 64) == Spelled(group, 256) && Regroups(rest, w)
    ensures Regroups(group + rest, v + w)
  {
    var pad := Padding(|rest|);
    SpelledAppend(v, w, 64);
    SpelledAppend(group, rest, 256);
    PowersAgree(|rest|);
    GroupGlue(Spelled(group, 256), Power(256, |rest|), pad, Spelled(rest, 256));
    OneGroupMore(|rest|);
  }

  lemma {:induction false} OneGroupMore(n: nat)
    ensures Groups(n + 3) == Groups(n) + 4 && Padding(n + 3) == Padding(n)
  {
  }

  lemma {:induction false} OneOctet(x: byte)
    ensures Regroups([x], [x / 4, x % 4 * 16])
  {
    SpelledTwo(x / 4, x % 4 * 16, 64);
    SpelledTwo(x, 0, 256);
    assert (x / 4) * 64 + x % 4 * 16 == x * 16;
  }

  lemma {:induction false} TwoOctets(x: byte, y: byte)
    ensures Regroups([x, y], [x / 4, x % 4 * 16 + y / 16, y % 16 * 4])
  {
    SpelledThree(x / 4, x % 4 * 16 + y / 16, y % 16 * 4, 64);
    SpelledTwo(x, y, 256);
    assert ((x / 4) * 64 + (x % 4 * 16 + y / 16)) * 64 + y % 16 * 4 == (x * 256 + y) * 4;
  }

  lemma {:induction false} NoOctet()
    ensures Regroups([], [])
  {
  }

  lemma {:induction false} SextetsRegroup(b: seq<byte>)
    ensures Regroups(b, Sextets(b))
  {
    if |b| == 0 {
      NoOctet();
      assert b == [];
    } else if |b| == 1 {
      OneOctet(b[0]);
      assert b == [b[0]];
    } else if |b| == 2 {
      TwoOctets(b[0], b[1]);
      assert b == [b[0], b[1]];
    } else {
      SextetsRegroup(b[3..]);
      FullGroup(b);
      GroupsSpell(b[..3], b[3..], Sextets(b)[..4], Sextets(b[3..]));
      assert b == b[..3] + b[3..];
    }
  }

  /**
   * Section 4 of RFC 4648: the groups of six bits are the bits of the octets in order, filled with
   * zeros on the right.
   */
  lemma {:induction false} SextetsExact(b: seq<byte>, v: seq<sextet>)
    ensures v == Sextets(b) <==> Regroups(b, v)
  {
    SextetsRegroup(b);
    if Regroups(b, v) {
      SpelledInjective(v, Sextets(b), 64);
    }
  }
}
