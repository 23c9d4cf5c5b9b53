/** The parser accepts exactly the texts of the grammar, each with its meaning. */
module JsonParsing {
  import opened Wrappers
  import opened Json
  import opened JsonGrammar
  import opened Utf8

  // ---------------------------------------------------------------------- white space

  predicate Solid(t: string) {
    |t| > 0 ==> !IsBlank(t[0])
  }

  lemma {:induction false} SkipBlank(w: string, t: string)
    requires Blank(w) && Solid(t)
    ensures SkipWs(w + t) == t
  {
    if |w| > 0 {
      assert (w + t)[1..] == w[1..] + t;
      SkipBlank(w[1..], t);
    } else {
      assert w + t == t;
    }
  }

  lemma {:induction false} SkipSplits(s: string) returns (w: string)
    ensures Blank(w) && s == w + SkipWs(s) && Solid(SkipWs(s))
  {
    if |s| > 0 && IsBlank(s[0]) {
      var more := SkipSplits(s[1..]);
      w := [s[0]] + more;
      assert s == [s[0]] + s[1..];
    } else {
      w := "";
    }
  }

  lemma {:induction false} SkipTwice(s: string)
    ensures SkipWs(SkipWs(s)) == SkipWs(s)
  {
    var w := SkipSplits(s);
    SkipBlank("", SkipWs(s));
    assert "" + SkipWs(s) == SkipWs(s);
  }

  // -------------------------------------------------------------------------- strings

  lemma {:induction false} ShortExact(letter: char)
    ensures Unescape(letter) == if IsShort(letter) then Some(ShortMeaning(letter) as char) else None
  {
  }

  lemma {:induction false} UnitExact(s: string)
    requires |s| == 4
    ensures GoodPiece(Code(s)) <==> Unit(s) >= 0
    ensures GoodPiece(Code(s)) ==> Unit(s) == UnitOf(s)
  {
  }

  /** What a text that starts with these pieces and a quotation mark looks like. */
  function Closed(ps: seq<Piece>, rest: string): string {
    PiecesText(ps) + "\"" + rest
  }

  lemma {:induction false} ClosedFirst(ps: seq<Piece>, rest: string)
    requires |ps| > 0
    ensures Closed(ps, rest) == PieceText(ps[0]) + Closed(ps[1..], rest)
  {
    assert (PieceText(ps[0]) + PiecesText(ps[1..])) + "\"" + rest
        == PieceText(ps[0]) + (PiecesText(ps[1..]) + "\"" + rest);
  }

  /** A second surrogate is read exactly when the next piece is the escape of one. */
  lemma {:induction false} SecondExact(ps: seq<Piece>, rest: string)
    requires GoodPieces(ps)
    ensures SecondUnit(Closed(ps, rest)) == if |ps| > 0 && IsLow(ps[0]) then UnitOf(ps[0].digits) else -1
  {
    var t := Closed(ps, rest);
    if |ps| == 0 {
      assert t[0] == '"';
    } else {
      ClosedFirst(ps, rest);
      if ps[0].Code? {
        assert t[2..6] == ps[0].digits;
        UnitExact(ps[0].digits);
      }
    }
  }

  lemma {:induction false} PlainPiece(p: Piece, t: string)
    requires GoodPiece(p) && !p.Code?
    ensures ParseString(PieceText(p) + t) == Push(PieceBytes(p), ParseString(t))
  {
    var s := PieceText(p) + t;
    if p.Short? {
      ShortExact(p.letter);
      assert s[2..] == t;
    } else {
      assert s[1..] == t;
    }
  }

  lemma {:induction false} CodePiece(digits: string, t: string)
    requires GoodPiece(Code(digits))
    ensures var s, u := PieceText(Code(digits)) + t, UnitOf(digits);
      && s[6..] == t
      && ParseString(s)
      == if u < 0xD800 || 0xE000 <= u then Push(Wire([u as char]), ParseString(t))
         else if u < 0xDC00 && SecondUnit(t) >= 0 then Push(Wire([Paired(u, SecondUnit(t))]), ParseString(t[6..]))
         else Push(NO_TEXT, ParseString(t))
  {
    var s := PieceText(Code(digits)) + t;
    assert s[6..] == t && s[2..6] == digits && s[0] == '\\' && s[1] == 'u';
    assert |t| >= 6 ==> s[12..] == t[6..];
    UnitExact(digits);
    assert ParseString(s) == ParseUnicode(s);
  }

  lemma {:induction false} PairParse(ps: seq<Piece>, rest: string)
    requires GoodPieces(ps) && |ps| >= 2 && IsHigh(ps[0]) && IsLow(ps[1])
    requires ParseString(Closed(ps[2..], rest)) == Some((PiecesBytes(ps[2..]), rest))
    ensures ParseString(Closed(ps, rest)) == Some((PiecesBytes(ps), rest))
  {
    var t := Closed(ps[1..], rest);
    ClosedFirst(ps, rest);
    ClosedFirst(ps[1..], rest);
    assert ps[1..][1..] == ps[2..];
    CodePiece(ps[0].digits, t);
    SecondExact(ps[1..], rest);
    CodePiece(ps[1].digits, Closed(ps[2..], rest));
  }

  lemma {:induction false} SingleParse(ps: seq<Piece>, rest: string)
    requires GoodPieces(ps) && |ps| > 0 && !(|ps| >= 2 && IsHigh(ps[0]) && IsLow(ps[1]))
    requires ParseString(Closed(ps[1..], rest)) == Some((PiecesBytes(ps[1..]), rest))
    ensures ParseString(Closed(ps, rest)) == Some((PiecesBytes(ps), rest))
  {
    var t := Closed(ps[1..], rest);
    ClosedFirst(ps, rest);
    if ps[0].Code? {
      CodePiece(ps[0].digits, t);
      SecondExact(ps[1..], rest);
    } else {
      PlainPiece(ps[0], t);
    }
  }

  /** The parser reads the pieces of a string up to its closing quotation mark. */
  lemma {:induction false} PiecesParse(ps: seq<Piece>, rest: string)
    requires GoodPieces(ps)
    ensures ParseString(Closed(ps, rest)) == Some((PiecesBytes(ps), rest))
    decreases |ps|
  {
    if |ps| == 0 {
      assert Closed(ps, rest) == "\"" + rest;
    } else if |ps| >= 2 && IsHigh(ps[0]) && IsLow(ps[1]) {
      PiecesParse(ps[2..], rest);
      PairParse(ps, rest);
    } else {
      PiecesParse(ps[1..], rest);
      SingleParse(ps, rest);
    }
  }

  /** The first piece of a string that is read. */
  lemma {:induction false} FirstPiece(s: string) returns (p: Piece)
    requires ParseString(s).Some? && s[0] != '"'
    ensures GoodPiece(p) && |PieceText(p)| <= |s| && s == PieceText(p) + s[|PieceText(p)|..]
    ensures ParseString(s[|PieceText(p)|..]).Some?
  {
    if s[0] != '\\' {
      p := Raw(s[0]);
    } else if s[1] != 'u' {
      p := Short(s[1]);
      ShortExact(s[1]);
    } else {
      p := Code(s[2..6]);
      assert ParseString(s) == ParseUnicode(s);
      UnitExact(s[2..6]);
      assert PieceText(p) == s[..6];
      SurvivesCode(s);
    }
  }

  /** What follows a four-digit escape is read as a string too, also when it is the second of a pair. */
  lemma {:induction false} SurvivesCode(s: string)
    requires |s| >= 2 && ParseUnicode(s).Some?
    ensures |s| >= 6 && ParseString(s[6..]).Some?
  {
    var u := Unit(s[2..6]);
    if 0xD800 <= u < 0xDC00 && SecondUnit(s[6..]) >= 0 {
      var t := s[6..];
      UnitExact(t[2..6]);
      assert t[6..] == s[12..];
      assert ParseString(t) == ParseUnicode(t);
    }
  }

  /** Whatever is read as a string is a sequence of pieces. */
  lemma {:induction false} ParsedPieces(s: string, w: string, rest: string) returns (ps: seq<Piece>)
    requires ParseString(s) == Some((w, rest))
    ensures GoodPieces(ps) && s == Closed(ps, rest) && PiecesBytes(ps) == w
    decreases |s|
  {
    ps := PiecesOf(s);
    var end := EndOf(s, ps);
    PiecesParse(ps, end);
  }

  lemma {:induction false} EndOf(s: string, ps: seq<Piece>) returns (end: string)
    requires |PiecesText(ps)| < |s| && s[..|PiecesText(ps)|] == PiecesText(ps) && s[|PiecesText(ps)|] == '"'
    ensures s == Closed(ps, end)
  {
    end := s[|PiecesText(ps)| + 1..];
  }

  lemma {:induction false} PiecesOf(s: string) returns (ps: seq<Piece>)
    requires ParseString(s).Some?
    ensures GoodPieces(ps)
    ensures |PiecesText(ps)| < |s| && s[..|PiecesText(ps)|] == PiecesText(ps) && s[|PiecesText(ps)|] == '"'
    decreases |s|
  {
    if s[0] == '"' {
      ps := [];
    } else {
      var p := FirstPiece(s);
      var n := |PieceText(p)|;
      var more := PiecesOf(s[n..]);
      ps := [p] + more;
      assert ps[1..] == more;
      assert s == PieceText(p) + s[n..];
    }
  }

  // -------------------------------------------------------------------------- numbers

  /** A character that can open a value. */
  predicate Opens(c: char) {
    !IsBlank(c) && c != ']' && c != '}'
  }

  /** Text that cannot continue a number. */
  predicate Delimited(rest: string) {
    |rest| > 0 ==> !IsDigit(rest[0]) && rest[0] != '.' && rest[0] != 'e' && rest[0] != 'E'
  }

  lemma {:induction false} DigitsParse(d: string, rest: string)
    requires (forall i :: 0 <= i < |d| ==> IsDigit(d[i])) && (|rest| > 0 ==> !IsDigit(rest[0]))
    ensures LeadingDigits(d + rest) == d && AfterDigits(d + rest) == rest
  {
    if |d| == 0 {
      assert d + rest == rest;
    } else {
      assert (d + rest)[1..] == d[1..] + rest;
      DigitsParse(d[1..], rest);
    }
  }

  lemma {:induction false} DigitsSplit(s: string)
    ensures var d, rest := LeadingDigits(s), AfterDigits(s);
      && s == d + rest && (forall i :: 0 <= i < |d| ==> IsDigit(d[i])) && (|rest| > 0 ==> !IsDigit(rest[0]))
  {
    if |s| > 0 && IsDigit(s[0]) {
      DigitsSplit(s[1..]);
      assert s == [s[0]] + s[1..];
    }
  }

  lemma {:induction false} SomeDigitsParse(d: string, rest: string)
    requires Digits(d) && (|rest| > 0 ==> !IsDigit(rest[0]))
    ensures SomeDigits(d + rest) == Some(rest)
  {
    DigitsParse(d, rest);
    assert (d + rest)[0] == d[0];
  }

  lemma {:induction false} Glue(a: string, b: string, c: string)
    ensures (a + b) + c == a + (b + c)
  {
  }

  lemma {:induction false} Glue4(a: string, b: string, c: string, d: string)
    ensures (a + b + c) + d == a + (b + (c + d))
  {
  }

  /** An exponent read after its mark. */
  lemma {:induction false} AfterMark(mark: char, u: string)
    requires mark == 'e' || mark == 'E'
    ensures AfterExponent([mark] + u)
         == if |u| > 0 && (u[0] == '+' || u[0] == '-') then SomeDigits(u[1..]) else SomeDigits(u)
  {
    var s := [mark] + u;
    assert s[1..] == u;
    assert |u| > 0 ==> s[1] == u[0] && s[2..] == u[1..];
  }

  lemma {:induction false} ExponentLayout(e: Exponent, rest: string)
    requires e.Exponent?
    ensures ExponentText(e) + rest == [e.mark] + (e.sign + (e.digits + rest))
  {
    Glue([e.mark] + e.sign, e.digits, rest);
    Glue([e.mark], e.sign, e.digits + rest);
  }

  lemma {:induction false} ExponentParse(e: Exponent, rest: string)
    requires GoodExponent(e) && Delimited(rest)
    ensures AfterExponent(ExponentText(e) + rest) == Some(rest)
  {
    if e.Exponent? {
      var u := e.sign + (e.digits + rest);
      ExponentLayout(e, rest);
      AfterMark(e.mark, u);
      SomeDigitsParse(e.digits, rest);
      if e.sign == "" {
        assert u == e.digits + rest && u[0] == e.digits[0];
      } else {
        assert u[0] == e.sign[0] && u[1..] == e.digits + rest;
      }
    } else {
      assert ExponentText(e) + rest == rest;
    }
  }

  lemma {:induction false} FractionParse(f: Option<string>, t: string)
    requires (f.Some? ==> Digits(f.value)) && (|t| > 0 ==> !IsDigit(t[0]) && t[0] != '.')
    ensures AfterFraction(FractionText(f) + t) == Some(t)
  {
    if f.Some? {
      SomeDigitsParse(f.value, t);
      assert (FractionText(f) + t)[1..] == f.value + t;
    } else {
      assert FractionText(f) + t == t;
    }
  }

  function TailText(f: Option<string>, e: Exponent): string {
    FractionText(f) + ExponentText(e)
  }

  lemma {:induction false} ExponentHead(e: Exponent, rest: string)
    requires GoodExponent(e) && Delimited(rest)
    ensures var x := ExponentText(e) + rest; |x| > 0 ==> !IsDigit(x[0]) && x[0] != '.'
    ensures |ExponentText(e)| == 0 <==> e.NoExponent?
  {
    if e.Exponent? {
      ExponentLayout(e, rest);
    } else {
      assert ExponentText(e) + rest == rest;
    }
  }

  lemma {:induction false} FractionHead(f: Option<string>, x: string)
    requires |x| > 0 ==> !IsDigit(x[0])
    ensures var y := FractionText(f) + x; |y| > 0 ==> !IsDigit(y[0])
    ensures |FractionText(f)| == 0 <==> f.None?
  {
    if f.None? { assert FractionText(f) + x == x; }
  }

  lemma {:induction false} TailParse(f: Option<string>, e: Exponent, rest: string)
    requires (f.Some? ==> Digits(f.value)) && GoodExponent(e) && Delimited(rest)
    ensures var t := TailText(f, e);
      && AfterFloat(t + rest) == Some(rest) && (|t + rest| > 0 ==> !IsDigit((t + rest)[0]))
      && (|t| == 0 <==> f.None? && e.NoExponent?)
  {
    var x := ExponentText(e) + rest;
    ExponentParse(e, rest);
    ExponentHead(e, rest);
    FractionParse(f, x);
    FractionHead(f, x);
    Glue(FractionText(f), ExponentText(e), rest);
  }

  /** A magnitude from its parts: what the parser makes of digits and of what follows them. */
  lemma {:induction false} MagnitudeParts(sign: string, digits: string, tail: string, rest: string)
    requires (sign == "" || sign == "-") && Digits(digits) && (|digits| > 1 ==> digits[0] != '0')
    requires AfterFloat(tail + rest) == Some(rest) && (|tail + rest| > 0 ==> !IsDigit((tail + rest)[0]))
    ensures ParseMagnitude(sign, digits + (tail + rest))
         == Some((if |tail| > 0 || (sign == "-" && Decimal(digits) == 0) then Float(sign + (digits + tail))
                  else Int(if sign == "-" then -Decimal(digits) else Decimal(digits)), rest))
  {
    var t := digits + (tail + rest);
    DigitsParse(digits, tail + rest);
    Glue(digits, tail, rest);
    assert t[..|t| - |rest|] == digits + tail;
    if |tail| == 0 { assert tail + rest == rest; }
  }

  lemma {:induction false} NumberText(t: Tree)
    requires t.Number?
    ensures TreeText(t) == (if t.negative then "-" else "") + (t.digits + TailText(t.fraction, t.exponent))
  {
  }

  lemma {:induction false} NumberMeaning(t: Tree, sign: string)
    requires t.Number? && Good(t) && sign == if t.negative then "-" else ""
    ensures var tail := TailText(t.fraction, t.exponent);
      Meaning(t) == if |tail| > 0 || (sign == "-" && Decimal(t.digits) == 0) then Float(sign + (t.digits + tail))
                    else Int(if sign == "-" then -Decimal(t.digits) else Decimal(t.digits))
  {
    NumberText(t);
    ExponentHead(t.exponent, "");
    FractionHead(t.fraction, "");
  }

  lemma {:induction false} NumberParse(t: Tree, rest: string)
    requires t.Number? && Good(t) && Delimited(rest)
    ensures |TreeText(t)| > 0 && Opens(TreeText(t)[0])
    ensures ParseToken(TreeText(t) + rest) == Some((Meaning(t), rest))
  {
    var sign, tail := if t.negative then "-" else "", TailText(t.fraction, t.exponent);
    TailParse(t.fraction, t.exponent, rest);
    MagnitudeParts(sign, t.digits, tail, rest);
    NumberMeaning(t, sign);
    NumberText(t);
    NumberLayout(sign, t.digits, tail, rest);
    NumberToken(sign, t.digits + (tail + rest));
  }

  lemma {:induction false} NumberLayout(sign: string, digits: string, tail: string, rest: string)
    requires (sign == "" || sign == "-") && Digits(digits)
    ensures var text, u := sign + (digits + tail), digits + (tail + rest);
      && text + rest == sign + u && IsDigit(u[0]) && |text| > 0 && Opens(text[0])
  {
    Glue(sign, digits + tail, rest);
    Glue(digits, tail, rest);
    assert sign == "" ==> (sign + (digits + tail))[0] == digits[0];
  }

  lemma {:induction false} NumberToken(sign: string, u: string)
    requires (sign == "" || sign == "-") && |u| > 0 && IsDigit(u[0])
    ensures ParseToken(sign + u) == ParseMagnitude(sign, u)
  {
    var s := sign + u;
    assert ParseToken(s) == ParseNumber(s);
    if sign == "-" {
      assert s[0] == '-' && s[1..] == u;
    } else {
      assert s == u;
    }
  }

  lemma {:induction false} ParsedFraction(s: string) returns (f: Option<string>)
    requires AfterFraction(s).Some?
    ensures (f.Some? ==> Digits(f.value)) && s == FractionText(f) + AfterFraction(s).value
  {
    if |s| > 0 && s[0] == '.' {
      DigitsSplit(s[1..]);
      f := Some(LeadingDigits(s[1..]));
      assert s == "." + s[1..];
    } else {
      f := None;
    }
  }

  lemma {:induction false} ParsedExponent(s: string) returns (e: Exponent)
    requires AfterExponent(s).Some?
    ensures GoodExponent(e) && s == ExponentText(e) + AfterExponent(s).value
  {
    e := NoExponent;
    if |s| > 0 && (s[0] == 'e' || s[0] == 'E') {
      var u := s[1..];
      assert s == [s[0]] + u;
      AfterMark(s[0], u);
      var sign := if |u| > 0 && (u[0] == '+' || u[0] == '-') then [u[0]] else "";
      var d := u[|sign|..];
      assert u == sign + d;
      DigitsSplit(d);
      e := Exponent(s[0], sign, LeadingDigits(d));
      ExponentLayout(e, AfterDigits(d));
    }
  }

  lemma {:induction false} ParsedTail(s: string) returns (f: Option<string>, e: Exponent)
    requires AfterFloat(s).Some?
    ensures (f.Some? ==> Digits(f.value)) && GoodExponent(e) && s == TailText(f, e) + AfterFloat(s).value
  {
    f := ParsedFraction(s);
    var x := AfterFraction(s).value;
    e := ParsedExponent(x);
    Glue(FractionText(f), ExponentText(e), AfterFloat(s).value);
  }

  lemma {:induction false} ParsedMagnitude(sign: string, s: string, v: Value, rest: string)
    returns (t: Tree)
    requires (sign == "" || sign == "-") && ParseMagnitude(sign, s) == Some((v, rest))
    ensures t.Number? && Good(t) && Meaning(t) == v && TreeText(t) + rest == sign + s
  {
    var digits, after := LeadingDigits(s), AfterDigits(s);
    DigitsSplit(s);
    var f, e := ParsedTail(after);
    var tail, end := TailText(f, e), AfterFloat(after).value;
    t := Number(sign == "-", digits, f, e);
    Glue(digits, tail, end);
    assert s[..|s| - |end|] == digits + tail;
    NumberMeaning(t, sign);
    NumberText(t);
    Glue(sign, digits + tail, end);
    assert |tail| == 0 ==> tail + end == end;
  }

  lemma {:induction false} ParsedNumber(s: string, v: Value, rest: string) returns (t: Tree)
    requires ParseNumber(s) == Some((v, rest))
    ensures t.Number? && Good(t) && Meaning(t) == v && s == TreeText(t) + rest
  {
    if |s| > 0 && s[0] == '-' {
      t := ParsedMagnitude("-", s[1..], v, rest);
      assert s == "-" + s[1..];
    } else {
      t := ParsedMagnitude("", s, v, rest);
      assert "" + s == s;
    }
  }

  // ----------------------------------------------------- every text of the grammar parses

  lemma {:induction false} WordParse(word: string, v: Value, rest: string)
    requires (word, v) in {("null", Null), ("true", Bool(true)), ("false", Bool(false))}
    ensures ParseToken(word + rest) == Some((v, rest))
  {
    var s := word + rest;
    assert s[0] == word[0] && s[..|word|] == word && s[|word|..] == rest;
  }

  lemma {:induction false} QuotedParse(ps: seq<Piece>, rest: string)
    requires GoodPieces(ps)
    ensures var s := "\"" + PiecesText(ps) + "\"" + rest;
      s[1..] == Closed(ps, rest) && ParseToken(s) == Some((StringValue(PiecesBytes(ps)), rest))
  {
    var s := "\"" + PiecesText(ps) + "\"" + rest;
    assert s[0] == '"' && s[1..] == Closed(ps, rest);
    PiecesParse(ps, rest);
  }

  /** A value that starts at a solid character parses the same with white space before it. */
  lemma {:induction false} BlankBefore(w: string, t: string)
    requires Blank(w) && Solid(t)
    ensures ParseValue(w + t) == ParseToken(t)
  {
    SkipBlank(w, t);
  }

  lemma {:induction false} DelimitedBlank(w: string, rest: string)
    requires Blank(w) && Delimited(rest)
    ensures Delimited(w + rest)
  {
  }

  lemma {:induction false} TreeParse(t: Tree, rest: string)
    requires Good(t) && Delimited(rest)
    ensures |TreeText(t)| > 0 && Opens(TreeText(t)[0])
    ensures ParseToken(TreeText(t) + rest) == Some((Meaning(t), rest))
    decreases t, 2
  {
    match t
    case NullTree => WordParse("null", Null, rest);
    case TrueTree => WordParse("true", Bool(true), rest);
    case FalseTree => WordParse("false", Bool(false), rest);
    case Number(_, _, _, _) => NumberParse(t, rest);
    case Quoted(pieces) => QuotedParse(pieces, rest);
    case List(blank, items) => ListParse(t, rest);
    case Object(blank, entries) => ObjectParse(t, rest);
  }

  lemma {:induction false} ItemsSkip(s: string)
    ensures ParseItems(SkipWs(s)) == ParseItems(s) && ParseMembers(SkipWs(s)) == ParseMembers(s)
  {
    SkipTwice(s);
    assert ParseValue(SkipWs(s)) == ParseValue(s);
    assert ParseMember(SkipWs(s)) == ParseMember(s);
  }

  lemma {:induction false} ListParse(t: Tree, rest: string)
    requires t.List? && Good(t)
    ensures ParseToken(TreeText(t) + rest) == Some((Meaning(t), rest))
    decreases t, 1
  {
    var s := TreeText(t) + rest;
    assert s[0] == '[' && ParseToken(s) == ParseArray(s[1..]);
    if |t.items| == 0 {
      assert s[1..] == t.blank + ("]" + rest);
      SkipBlank(t.blank, "]" + rest);
    } else {
      assert s[1..] == ItemsText(t.items) + "]" + rest;
      ItemsParse(t.items, rest);
      ItemsSkip(s[1..]);
    }
  }

  lemma {:induction false} ObjectParse(t: Tree, rest: string)
    requires t.Object? && Good(t)
    ensures ParseToken(TreeText(t) + rest) == Some((Meaning(t), rest))
    decreases t, 1
  {
    var s := TreeText(t) + rest;
    assert s[0] == '{' && ParseToken(s) == ParseObject(s[1..]);
    if |t.entries| == 0 {
      assert s[1..] == t.blank + ("}" + rest);
      SkipBlank(t.blank, "}" + rest);
    } else {
      assert s[1..] == EntriesText(t.entries) + "}" + rest;
      EntriesParse(t.entries, rest);
      ItemsSkip(s[1..]);
    }
  }

  /** An item before a delimiter: the value, and what is left once white space is skipped. */
  lemma {:induction false} ItemParse(i: Item, rest: string)
    requires GoodItem(i) && Delimited(rest) && Solid(rest)
    ensures var r := ParseValue(ItemText(i) + rest);
      && r.Some? && r.value.0 == ItemMeaning(i) && SkipWs(r.value.1) == rest
    ensures Blank(i.before) && SkipWs(ItemText(i) + rest) == TreeText(i.tree) + (i.after + rest)
    ensures |TreeText(i.tree)| > 0 && Opens(TreeText(i.tree)[0])
    decreases i, 3
  {
    DelimitedBlank(i.after, rest);
    TreeParse(i.tree, i.after + rest);
    var t := TreeText(i.tree) + (i.after + rest);
    assert t[0] == TreeText(i.tree)[0];
    Glue4(i.before, TreeText(i.tree), i.after, rest);
    SkipBlank(i.before, t);
    SkipBlank(i.after, rest);
  }

  lemma {:induction false} ItemsStep(s: string, v: Value, u: string, vs: seq<Value>, rest: string)
    requires ParseValue(s).Some? && ParseValue(s).value.0 == v && SkipWs(ParseValue(s).value.1) == u
    requires if |vs| == 0 then u == "]" + rest
             else |u| > 0 && u[0] == ',' && ParseItems(u[1..]) == Some((vs, rest))
    ensures ParseItems(s) == Some(([v] + vs, rest))
  {
    if |vs| == 0 { assert u[1..] == rest && [v] + vs == [v]; }
  }

  lemma {:induction false} EntriesStep(s: string, m: Member, u: string, ms: seq<Member>, rest: string)
    requires ParseMember(s).Some? && ParseMember(s).value.0 == m && SkipWs(ParseMember(s).value.1) == u
    requires if |ms| == 0 then u == "}" + rest
             else |u| > 0 && u[0] == ',' && ParseMembers(u[1..]) == Some((ms, rest))
    ensures ParseMembers(s) == Some(([m] + ms, rest))
  {
    if |ms| == 0 { assert u[1..] == rest && [m] + ms == [m]; }
  }

  /** What follows the first of some items, up to the closing bracket and on. */
  function ItemsTail(items: seq<Item>, rest: string): string
    requires |items| > 0
  {
    if |items| == 1 then "]" + rest else "," + (ItemsText(items[1..]) + "]" + rest)
  }

  lemma {:induction false} ItemsFirst(items: seq<Item>, rest: string)
    requires |items| > 0
    ensures ItemsText(items) + "]" + rest == ItemText(items[0]) + ItemsTail(items, rest)
    ensures Solid(ItemsTail(items, rest)) && Delimited(ItemsTail(items, rest))
  {
  }

  function EntriesTail(entries: seq<Entry>, rest: string): string
    requires |entries| > 0
  {
    if |entries| == 1 then "}" + rest else "," + (EntriesText(entries[1..]) + "}" + rest)
  }

  lemma {:induction false} EntriesFirst(entries: seq<Entry>, rest: string)
    requires |entries| > 0
    ensures EntriesText(entries) + "}" + rest == EntryText(entries[0]) + EntriesTail(entries, rest)
    ensures Solid(EntriesTail(entries, rest)) && Delimited(EntriesTail(entries, rest))
  {
  }

  lemma {:induction false} ItemsParse(items: seq<Item>, rest: string)
    requires |items| > 0 && forall i :: 0 <= i < |items| ==> GoodItem(items[i])
    ensures var s := ItemsText(items) + "]" + rest;
      && ParseItems(s) == Some((ItemsMeaning(items), rest)) && |SkipWs(s)| > 0 && SkipWs(s)[0] != ']'
    decreases items, 4
  {
    var s, more, u := ItemsText(items) + "]" + rest, items[1..], ItemsTail(items, rest);
    ItemsFirst(items, rest);
    ItemParse(items[0], u);
    if |more| > 0 {
      ItemsParse(more, rest);
      assert u[1..] == ItemsText(more) + "]" + rest;
    }
    ItemsStep(s, ItemMeaning(items[0]), u, ItemsMeaning(more), rest);
  }

  lemma {:induction false} EntryGlue(e: Entry, rest: string)
    ensures e.before + ("\"" + Closed(e.key, e.gap + (":" + (ItemText(e.item) + rest)))) == EntryText(e) + rest
  {
  }

  lemma {:induction false} MemberStep(s: string, key: string, w: string, after: string, value: string)
    requires SkipWs(s) == key && |key| > 0 && key[0] == '"' && ParseString(key[1..]) == Some((w, after))
    requires SkipWs(after) == value && |value| > 0 && value[0] == ':' && ParseValue(value[1..]).Some?
    ensures var (v, rest) := ParseValue(value[1..]).value;
      ParseMember(s) == Some((Member(Text(w), v), rest))
  {
  }

  lemma {:induction false} EntryParse(e: Entry, rest: string)
    requires GoodEntry(e) && Delimited(rest) && Solid(rest)
    ensures var r := ParseMember(EntryText(e) + rest);
      && r.Some? && r.value.0 == EntryMeaning(e)
      && SkipWs(r.value.1) == rest
    ensures |SkipWs(EntryText(e) + rest)| > 0 && SkipWs(EntryText(e) + rest)[0] == '"'
    decreases e, 4
  {
    var item := ItemText(e.item) + rest;
    var value := ":" + item;
    var key := "\"" + Closed(e.key, e.gap + value);
    EntryGlue(e, rest);
    assert key[1..] == Closed(e.key, e.gap + value) && value[1..] == item;
    SkipBlank(e.before, key);
    PiecesParse(e.key, e.gap + value);
    SkipBlank(e.gap, value);
    ItemParse(e.item, rest);
    MemberStep(EntryText(e) + rest, key, PiecesBytes(e.key), e.gap + value, value);
  }

  lemma {:induction false} EntriesParse(entries: seq<Entry>, rest: string)
    requires |entries| > 0 && forall i :: 0 <= i < |entries| ==> GoodEntry(entries[i])
    ensures var s := EntriesText(entries) + "}" + rest;
      && ParseMembers(s) == Some((EntriesMeaning(entries), rest)) && |SkipWs(s)| > 0 && SkipWs(s)[0] != '}'
    decreases entries, 5
  {
    var s, more, u := EntriesText(entries) + "}" + rest, entries[1..], EntriesTail(entries, rest);
    EntriesFirst(entries, rest);
    EntryParse(entries[0], u);
    if |more| > 0 {
      EntriesParse(more, rest);
      assert u[1..] == EntriesText(more) + "}" + rest;
    }
    EntriesStep(s, EntryMeaning(entries[0]), u, EntriesMeaning(more), rest);
  }

  // ------------------------------------------------------- nothing else parses

  lemma {:induction false} ParsedWord(s: string, word: string, v: Value, rest: string)
    requires ParseWord(s, word, v) == Some((v, rest))
    ensures s == word + rest
  {
    assert s == s[..|word|] + s[|word|..];
  }

  lemma {:induction false} ParsedQuoted(s: string, v: Value, rest: string) returns (t: Tree)
    requires |s| > 0 && s[0] == '"' && ParseText(s[1..]) == Some((v, rest))
    ensures Good(t) && Meaning(t) == v && s == TreeText(t) + rest
  {
    var w := ParseString(s[1..]).value.0;
    var ps := ParsedPieces(s[1..], w, rest);
    t := Quoted(ps);
    assert s == "\"" + s[1..];
    Glue4("\"", PiecesText(ps), "\"", rest);
    Glue(PiecesText(ps), "\"", rest);
    assert TreeText(t) == "\"" + PiecesText(ps) + "\"";
  }

  lemma {:induction false} ParsedTree(s: string, v: Value, rest: string) returns (t: Tree)
    requires ParseToken(s) == Some((v, rest))
    ensures Good(t) && Meaning(t) == v && s == TreeText(t) + rest
    decreases |s|, 1
  {
    if s[0] == '"' {
      t := ParsedQuoted(s, v, rest);
    } else if s[0] == '[' {
      t := ParsedList(s, v, rest);
    } else if s[0] == '{' {
      t := ParsedObject(s, v, rest);
    } else if s[0] == 'n' {
      t := NullTree;
      ParsedWord(s, "null", v, rest);
    } else if s[0] == 't' {
      t := TrueTree;
      ParsedWord(s, "true", v, rest);
    } else if s[0] == 'f' {
      t := FalseTree;
      ParsedWord(s, "false", v, rest);
    } else {
      t := ParsedNumber(s, v, rest);
    }
  }

  lemma {:induction false} ParsedList(s: string, v: Value, rest: string) returns (t: Tree)
    requires |s| > 0 && s[0] == '[' && ParseArray(s[1..]) == Some((v, rest))
    ensures Good(t) && Meaning(t) == v && s == TreeText(t) + rest
    decreases |s|, 0
  {
    var u := SkipWs(s[1..]);
    assert s == "[" + s[1..];
    if u[0] == ']' {
      var w := SkipSplits(s[1..]);
      t := List(w, []);
      assert u == "]" + u[1..];
      assert s == "[" + w + "]" + rest;
    } else {
      ItemsSkip(s[1..]);
      var items := ParsedItems(s[1..], v.items, rest);
      t := List("", items);
      Glue4("[", ItemsText(items), "]", rest);
      Glue(ItemsText(items), "]", rest);
    }
  }

  lemma {:induction false} ParsedObject(s: string, v: Value, rest: string) returns (t: Tree)
    requires |s| > 0 && s[0] == '{' && ParseObject(s[1..]) == Some((v, rest))
    ensures Good(t) && Meaning(t) == v && s == TreeText(t) + rest
    decreases |s|, 0
  {
    var u := SkipWs(s[1..]);
    assert s == "{" + s[1..];
    if u[0] == '}' {
      var w := SkipSplits(s[1..]);
      t := Object(w, []);
      assert u == "}" + u[1..];
      assert s == "{" + w + "}" + rest;
    } else {
      ItemsSkip(s[1..]);
      var entries := ParsedEntries(s[1..], v.members, rest);
      t := Object("", entries);
      Glue4("{", EntriesText(entries), "}", rest);
      Glue(EntriesText(entries), "}", rest);
    }
  }

  lemma {:induction false} ParsedItem(s: string, v: Value, rest: string) returns (i: Item)
    requires ParseValue(s) == Some((v, rest))
    ensures GoodItem(i) && ItemMeaning(i) == v && s == ItemText(i) + SkipWs(rest)
    decreases |s|, 2
  {
    var before := SkipSplits(s);
    var t := ParsedTree(SkipWs(s), v, rest);
    var after := SkipSplits(rest);
    i := Item(before, t, after);
    Glue4(before, TreeText(t), after, SkipWs(rest));
  }

  lemma {:induction false} ParsedItems(s: string, vs: seq<Value>, rest: string) returns (items: seq<Item>)
    requires ParseItems(s) == Some((vs, rest))
    ensures |items| > 0 && (forall i :: 0 <= i < |items| ==> GoodItem(items[i])) && ItemsMeaning(items) == vs
    ensures s == ItemsText(items) + "]" + rest
    decreases |s|, 3
  {
    var (v, end) := ParseValue(s).value;
    var item := ParsedItem(s, v, end);
    var u := SkipWs(end);
    assert u == [u[0]] + u[1..];
    if u[0] == ']' {
      items := [item];
      assert ItemsMeaning(items) == [v];
    } else {
      var more := ParsedItems(u[1..], ParseItems(u[1..]).value.0, rest);
      items := [item] + more;
      assert items[1..] == more;
      ItemsFirst(items, rest);
    }
  }

  /** A member from its parts: the text from its key on, and from its colon on. */
  lemma {:induction false} EntryOf(s: string, e: Entry, rest: string, t: string, u: string)
    requires s == e.before + t && |t| > 0 && t[0] == '"' && t[1..] == Closed(e.key, e.gap + u)
    requires |u| > 0 && u[0] == ':' && u[1..] == ItemText(e.item) + rest
    ensures s == EntryText(e) + rest
  {
    assert t == "\"" + t[1..] && u == ":" + u[1..];
    EntryGlue(e, rest);
  }

  lemma {:induction false} ParsedEntry(s: string, m: Member, rest: string) returns (e: Entry)
    requires ParseMember(s) == Some((m, rest))
    ensures GoodEntry(e) && m == EntryMeaning(e)
    ensures s == EntryText(e) + SkipWs(rest)
    decreases |s|, 2
  {
    var before := SkipSplits(s);
    var t := SkipWs(s);
    var (w, after) := ParseString(t[1..]).value;
    var key := ParsedPieces(t[1..], w, after);
    var gap := SkipSplits(after);
    var u := SkipWs(after);
    var item := ParsedItem(u[1..], m.value, rest);
    e := Entry(before, key, gap, item);
    EntryOf(s, e, SkipWs(rest), t, u);
  }

  lemma {:induction false} ParsedEntries(s: string, ms: seq<Member>, rest: string) returns (entries: seq<Entry>)
    requires ParseMembers(s) == Some((ms, rest))
    ensures |entries| > 0 && (forall i :: 0 <= i < |entries| ==> GoodEntry(entries[i]))
    ensures EntriesMeaning(entries) == ms && s == EntriesText(entries) + "}" + rest
    decreases |s|, 3
  {
    var (m, end) := ParseMember(s).value;
    var entry := ParsedEntry(s, m, end);
    var u := SkipWs(end);
    assert u == [u[0]] + u[1..];
    if u[0] == '}' {
      entries := [entry];
      assert EntriesMeaning(entries) == [m];
    } else {
      var more := ParsedEntries(u[1..], ParseMembers(u[1..]).value.0, rest);
      entries := [entry] + more;
      assert entries[1..] == more;
      EntriesFirst(entries, rest);
    }
  }

  // ---------------------------------------------------------------------- documents

  /** The text is this tree with white space around it. */
  ghost predicate Spells(s: string, v: Value, before: string, t: Tree, after: string) {
    Blank(before) && Good(t) && Blank(after) && s == before + TreeText(t) + after && Meaning(t) == v
  }

  /** The text is JSON for the value. */
  ghost predicate IsTextOf(s: string, v: Value) {
    exists before, t, after :: Spells(s, v, before, t, after)
  }

  /** A document is accepted with a value exactly when the grammar derives it with that meaning. */
  lemma {:induction false} ParseExact(s: string, v: Value)
    ensures Parse(s) == Some(v) <==> IsTextOf(s, v)
  {
    if Parse(s) == Some(v) {
      var rest := ParseValue(s).value.1;
      var i := ParsedItem(s, v, rest);
      assert ItemText(i) + "" == ItemText(i);
      assert Spells(s, v, i.before, i.tree, i.after);
    }
    if before, t, after :| Spells(s, v, before, t, after) {
      ItemParse(Item(before, t, after), "");
      assert ItemText(Item(before, t, after)) + "" == s;
    }
  }
}
