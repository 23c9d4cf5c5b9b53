/** Splitting a text at a separator, as `str::split` does: never empty, empty pieces kept. */
module Segments {

  function Split(s: string, sep: char): (parts: seq<string>)
    ensures |parts| >= 1
  {
    if |s| == 0 then [""]
    else
      var rest := Split(s[1..], sep);
      if s[0] == sep then [""] + rest else [[s[0]] + rest[0]] + rest[1..]
  }

  function Join(parts: seq<string>, sep: char): string
    requires |parts| >= 1
  {
    if |parts| == 1 then parts[0] else parts[0] + [sep] + Join(parts[1..], sep)
  }

  ghost predicate Free(parts: seq<string>, sep: char) {
    forall i :: 0 <= i < |parts| ==> sep !in parts[i]
  }

  lemma {:induction false} JoinSplit(s: string, sep: char)
    ensures Free(Split(s, sep), sep) && Join(Split(s, sep), sep) == s
  {
    if |s| > 0 {
      JoinSplit(s[1..], sep);
      var rest := Split(s[1..], sep);
      assert s == [s[0]] + s[1..];
      if s[0] == sep {
        assert ([""] + rest)[1..] == rest;
      } else {
        var parts := [[s[0]] + rest[0]] + rest[1..];
        assert parts[1..] == rest[1..];
      }
    }
  }

  /** A separator-free piece followed by a separator splits off whole. */
  lemma {:induction false} SplitPiece(piece: string, rest: string, sep: char)
    requires sep !in piece
    ensures Split(piece + [sep] + rest, sep) == [piece] + Split(rest, sep)
  {
    var s := piece + [sep] + rest;
    if |piece| == 0 {
      assert s == [sep] + rest && s[1..] == rest;
    } else {
      assert s[1..] == piece[1..] + [sep] + rest;
      SplitPiece(piece[1..], rest, sep);
      assert piece == [piece[0]] + piece[1..];
    }
  }

  lemma {:induction false} SplitLast(piece: string, sep: char)
    requires sep !in piece
    ensures Split(piece, sep) == [piece]
  {
    if |piece| > 0 {
      SplitLast(piece[1..], sep);
      assert piece == [piece[0]] + piece[1..];
    }
  }

  /** Exactly three segments: what the split of a compact token must be. */
  lemma {:induction false} ThreeSegments(t: string, a: string, b: string, c: string, sep: char)
    ensures Split(t, sep) == [a, b, c] <==>
            t == a + [sep] + b + [sep] + c && sep !in a && sep !in b && sep !in c
  {
    if Split(t, sep) == [a, b, c] {
      JoinSplit(t, sep);
      var parts := [a, b, c];
      assert parts[1..] == [b, c] && [b, c][1..] == [c];
      assert Join(parts, sep) == a + [sep] + Join([b, c], sep);
      assert Join([b, c], sep) == b + [sep] + Join([c], sep);
      assert sep !in parts[0] && sep !in parts[1] && sep !in parts[2];
      assert a + [sep] + (b + [sep] + c) == a + [sep] + b + [sep] + c;
    }
    if t == a + [sep] + b + [sep] + c && sep !in a && sep !in b && sep !in c {
      assert t == a + [sep] + (b + [sep] + c);
      SplitPiece(a, b + [sep] + c, sep);
      SplitPiece(b, c, sep);
      SplitLast(c, sep);
      assert [a] + ([b] + [c]) == [a, b, c];
    }
  }

  /** One segment more than there are separators. */
  lemma {:induction false} SegmentCount(s: string, sep: char)
    ensures |Split(s, sep)| == multiset(s)[sep] + 1
  {
    if |s| > 0 {
      SegmentCount(s[1..], sep);
      assert s == [s[0]] + s[1..];
      assert multiset(s) == multiset{s[0]} + multiset(s[1..]);
    }
  }
}
