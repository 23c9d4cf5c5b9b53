/** The `scope` claim: white-space separated words read as a set (section 3.3 of RFC 6749). */
module Scopes {
  import opened Wrappers
  import opened Ordering

  /** The Unicode `White_Space` property. */
  predicate IsWhitespace(c: char) {
    var n := c as int;
    9 <= n <= 13 || n == 0x20 || n == 0x85 || n == 0xA0 || n == 0x1680 || 0x2000 <= n <= 0x200A
    || n == 0x2028 || n == 0x2029 || n == 0x202F || n == 0x205F || n == 0x3000
  }

  const WHITE_SPACE: set<int> :=
    {0x9, 0xA, 0xB, 0xC, 0xD, 0x20, 0x85, 0xA0, 0x1680,
     0x2000, 0x2001, 0x2002, 0x2003, 0x2004, 0x2005, 0x2006, 0x2007, 0x2008, 0x2009, 0x200A,
     0x2028, 0x2029, 0x202F, 0x205F, 0x3000}

  /** White space is the twenty-five code points of the property. */
  lemma {:induction false} WhitespaceExact(c: char)
    ensures IsWhitespace(c) <==> c as int in WHITE_SPACE
  {
  }

  predicate Blank(s: string) {
    forall i :: 0 <= i < |s| ==> IsWhitespace(s[i])
  }

  /** What can be a word: not empty and without white space. */
  predicate IsWord(w: string) {
    |w| > 0 && forall i :: 0 <= i < |w| ==> !IsWhitespace(w[i])
  }

  function FirstWord(s: string): (w: string)
    ensures |w| <= |s|
  {
    if |s| == 0 || IsWhitespace(s[0]) then "" else [s[0]] + FirstWord(s[1..])
  }

  /** The words of a text in order, as `str::split_whitespace` gives them. */
  function Words(s: string): seq<string>
    decreases |s|
  {
    if |s| == 0 then []
    else if IsWhitespace(s[0]) then Words(s[1..])
    else
      var w := FirstWord(s);
      assert |w| > 0;
      [w] + Words(s[|w|..])
  }

  function ScopeSet(scope: Option<string>): set<string> {
    match scope
    case None => {}
    case Some(s) => set w | w in Words(s)
  }

  /** The scopes as reported: in increasing order, each once. */
  function ScopeList(scope: Option<string>): seq<string> {
    Sorted(ScopeSet(scope))
  }

  // ------------------------------------------------------- splitting and joining

  /** Words each followed by its gap. */
  function Spread(words: seq<string>, gaps: seq<string>): string
    requires |words| == |gaps|
  {
    if |words| == 0 then "" else words[0] + gaps[0] + Spread(words[1..], gaps[1..])
  }

  /** The text is these words with white space around them, and some between any two. */
  ghost predicate Spaced(s: string, lead: string, words: seq<string>, gaps: seq<string>) {
    && |words| == |gaps| && Blank(lead) && s == lead + Spread(words, gaps)
    && (forall i :: 0 <= i < |words| ==> IsWord(words[i]) && Blank(gaps[i]))
    && (forall i :: 0 <= i < |gaps| - 1 ==> gaps[i] != "")
  }

  lemma {:induction false} FirstWordIs(w: string, rest: string)
    requires IsWord(w) && (|rest| > 0 ==> IsWhitespace(rest[0]))
    ensures FirstWord(w + rest) == w
  {
    assert (w + rest)[1..] == w[1..] + rest;
    if |w| > 1 {
      FirstWordIs(w[1..], rest);
    } else {
      assert w[1..] + rest == rest;
    }
    assert w == [w[0]] + w[1..];
  }

  lemma {:induction false} SkipBlank(lead: string, rest: string)
    requires Blank(lead)
    ensures Words(lead + rest) == Words(rest)
  {
    if |lead| > 0 {
      assert (lead + rest)[1..] == lead[1..] + rest;
      SkipBlank(lead[1..], rest);
    } else {
      assert lead + rest == rest;
    }
  }

  lemma {:induction false} WordsOfSpaced(s: string, lead: string, words: seq<string>, gaps: seq<string>)
    requires Spaced(s, lead, words, gaps)
    ensures Words(s) == words
    decreases |words|
  {
    SkipBlank(lead, Spread(words, gaps));
    if |words| > 0 {
      var w, rest := words[0], gaps[0] + Spread(words[1..], gaps[1..]);
      assert Spread(words, gaps) == w + rest;
      assert |rest| > 0 ==> IsWhitespace(rest[0]) by {
        if |gaps| == 1 { assert rest == gaps[0] + ""; }
      }
      FirstWordIs(w, rest);
      assert (w + rest)[|w|..] == rest;
      assert (w + rest)[0] == w[0];
      WordsOfSpaced(rest, gaps[0], words[1..], gaps[1..]);
      assert words == [w] + words[1..];
    }
  }

  lemma {:induction false} FirstWordMaximal(s: string)
    ensures var w := FirstWord(s);
      && s == w + s[|w|..] && (forall i :: 0 <= i < |w| ==> !IsWhitespace(w[i]))
      && (|w| < |s| ==> IsWhitespace(s[|w|]))
      && (|w| == 0 <==> |s| == 0 || IsWhitespace(s[0]))
  {
    if |s| > 0 && !IsWhitespace(s[0]) {
      FirstWordMaximal(s[1..]);
      assert s == [s[0]] + s[1..];
      assert s[1..][|FirstWord(s[1..])|..] == s[|FirstWord(s)|..];
    }
  }

  lemma {:induction false} SpacedLead(c: char, s: string, lead: string, words: seq<string>, gaps: seq<string>)
    requires IsWhitespace(c) && Spaced(s, lead, words, gaps)
    ensures Spaced([c] + s, [c] + lead, words, gaps)
  {
    assert [c] + (lead + Spread(words, gaps)) == ([c] + lead) + Spread(words, gaps);
  }

  lemma {:induction false} SpacedWord(w: string, rest: string, gap: string, words: seq<string>, gaps: seq<string>)
    requires IsWord(w) && (|rest| > 0 ==> IsWhitespace(rest[0])) && Spaced(rest, gap, words, gaps)
    ensures Spaced(w + rest, "", [w] + words, [gap] + gaps)
  {
    var all, after := [w] + words, [gap] + gaps;
    assert all[1..] == words && after[1..] == gaps;
    assert Spread(all, after) == w + gap + Spread(words, gaps) == w + (gap + Spread(words, gaps));
    assert "" + Spread(all, after) == Spread(all, after);
    if |words| > 0 {
      assert rest[|gap|] == words[0][0];
    }
  }

  lemma {:induction false} SpacedOfWords(s: string) returns (lead: string, gaps: seq<string>)
    ensures Spaced(s, lead, Words(s), gaps)
    decreases |s|
  {
    if |s| == 0 {
      lead, gaps := "", [];
    } else if IsWhitespace(s[0]) {
      lead, gaps := SpacedOfWords(s[1..]);
      SpacedLead(s[0], s[1..], lead, Words(s), gaps);
      assert s == [s[0]] + s[1..];
      lead := [s[0]] + lead;
    } else {
      FirstWordMaximal(s);
      var w := FirstWord(s);
      var gap, more := SpacedOfWords(s[|w|..]);
      SpacedWord(w, s[|w|..], gap, Words(s[|w|..]), more);
      lead, gaps := "", [gap] + more;
    }
  }

  /** `Words` gives a list exactly when the text is some spacing of that list. */
  lemma {:induction false} WordsExact(s: string, words: seq<string>)
    ensures Words(s) == words <==> exists lead, gaps :: Spaced(s, lead, words, gaps)
  {
    if Words(s) == words {
      var lead, gaps := SpacedOfWords(s);
    }
    if lead, gaps :| Spaced(s, lead, words, gaps) {
      WordsOfSpaced(s, lead, words, gaps);
    }
  }

  /** Only words are ever granted, so a required scope that is not a word is never satisfied. */
  lemma {:induction false} GrantedAreWords(scope: Option<string>, required: set<string>)
    requires required <= ScopeSet(scope)
    ensures forall w :: w in required ==> IsWord(w)
  {
    if scope.Some? {
      var lead, gaps := SpacedOfWords(scope.value);
      forall w | w in required ensures IsWord(w) {
        var i :| 0 <= i < |Words(scope.value)| && Words(scope.value)[i] == w;
      }
    }
  }

  /** Words joined by single spaces. */
  function JoinWords(words: seq<string>): string {
    Spread(words, seq(|words|, _ => " "))
  }

  /** Any set of words has a scope text that grants exactly that set. */
  lemma {:induction false} ScopeOfWords(words: set<string>)
    requires forall w :: w in words ==> IsWord(w)
    ensures ScopeSet(Some(JoinWords(Sorted(words)))) == words
  {
    var list := Sorted(words);
    var gaps := seq(|list|, _ => " ");
    assert forall i :: 0 <= i < |list| ==> list[i] in list;
    assert JoinWords(list) == "" + Spread(list, gaps);
    WordsOfSpaced(JoinWords(list), "", list, gaps);
  }

  /** The reported list is strictly increasing and has exactly the granted scopes. */
  lemma {:induction false} ScopeListExact(scope: Option<string>, list: seq<string>)
    ensures list == ScopeList(scope) <==>
            StrictlySorted(list) && forall w :: w in list <==> scope.Some? && w in Words(scope.value)
  {
    if StrictlySorted(list) && forall w :: w in list <==> scope.Some? && w in Words(scope.value) {
      SortedUnique(list, ScopeList(scope));
    }
  }
}
