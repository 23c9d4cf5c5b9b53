/** The order of strings, and the sorted listing that ordered sets and maps iterate in. */
module Ordering {
  /** Lexicographic order on scalar values; module `ByteOrder` shows it is the order of the bytes. */
  predicate Less(a: string, b: string) {
    |b| > 0 && (|a| == 0 || a[0] < b[0] || (a[0] == b[0] && Less(a[1..], b[1..])))
  }

  lemma {:induction false} LessIrreflexive(a: string)
    ensures !Less(a, a)
  {
    if |a| > 0 { LessIrreflexive(a[1..]); }
  }

  lemma {:induction false} LessTransitive(a: string, b: string, c: string)
    requires Less(a, b) && Less(b, c)
    ensures Less(a, c)
  {
    if |a| > 0 && a[0] == b[0] && b[0] == c[0] { LessTransitive(a[1..], b[1..], c[1..]); }
  }

  lemma {:induction false} LessTotal(a: string, b: string)
    ensures Less(a, b) || a == b || Less(b, a)
  {
    if |a| > 0 && |b| > 0 && a[0] == b[0] {
      LessTotal(a[1..], b[1..]);
      assert a == [a[0]] + a[1..] && b == [b[0]] + b[1..];
    }
  }

  predicate IsLeast(k: string, s: set<string>) {
    k in s && forall x | x in s :: x == k || Less(k, x)
  }

  lemma {:induction false} LeastExists(s: set<string>)
    requires s != {}
    ensures exists k :: IsLeast(k, s)
  {
    var x :| x in s;
    if s == {x} {
      assert IsLeast(x, s);
    } else {
      var rest := s - {x};
      assert rest != {};
      LeastExists(rest);
      var k :| IsLeast(k, rest);
      LessTotal(k, x);
      if Less(k, x) {
        assert IsLeast(k, s);
      } else {
        forall y | y in s && y != x ensures Less(x, y) {
          if y != k { LessTransitive(x, k, y); }
        }
        assert IsLeast(x, s);
      }
    }
  }

  lemma {:induction false} LeastUnique(s: set<string>)
    ensures forall k, l :: IsLeast(k, s) && IsLeast(l, s) ==> k == l
  {
    forall k, l | IsLeast(k, s) && IsLeast(l, s) ensures k == l {
      if k != l {
        LessTransitive(k, l, k);
        LessIrreflexive(k);
      }
    }
  }

  function Least(s: set<string>): (k: string)
    requires s != {}
    ensures IsLeast(k, s)
  {
    LeastExists(s);
    LeastUnique(s);
    var k :| k in s && IsLeast(k, s);
    k
  }

  ghost predicate StrictlySorted(ks: seq<string>) {
    forall i, j :: 0 <= i < j < |ks| ==> Less(ks[i], ks[j])
  }

  /** The members of a set in increasing order. */
  function Sorted(s: set<string>): (ks: seq<string>)
    ensures StrictlySorted(ks) && forall k :: k in ks <==> k in s
    decreases |s|
  {
    if s == {} then [] else
      var k := Least(s);
      var rest := Sorted(s - {k});
      assert forall i :: 0 <= i < |rest| ==> rest[i] in rest && Less(k, rest[i]);
      [k] + rest
  }

  /** A strictly sorted sequence is the sorted listing of its members: the listing is unique. */
  lemma {:induction false} SortedUnique(ks: seq<string>, ls: seq<string>)
    requires StrictlySorted(ks) && StrictlySorted(ls) && forall k :: k in ks <==> k in ls
    ensures ks == ls
  {
    assert (|ks| > 0 ==> ks[0] in ks) && (|ls| > 0 ==> ls[0] in ls);
    if |ks| > 0 {
      if ks[0] != ls[0] {
        LessTransitive(ks[0], ls[0], ks[0]);
        LessIrreflexive(ks[0]);
      }
      forall k ensures k in ks[1..] <==> k in ls[1..] {
        TailMembers(ks, k);
        TailMembers(ls, k);
      }
      SortedUnique(ks[1..], ls[1..]);
      assert ks == [ks[0]] + ks[1..] && ls == [ls[0]] + ls[1..];
    }
  }

  lemma {:induction false} TailMembers(ks: seq<string>, k: string)
    requires StrictlySorted(ks) && |ks| > 0
    ensures k in ks[1..] <==> k in ks && k != ks[0]
  {
    LessIrreflexive(ks[0]);
    if k in ks && k != ks[0] {
      var i :| 0 <= i < |ks| && ks[i] == k;
      assert ks[1..][i - 1] == k;
    }
  }
}
