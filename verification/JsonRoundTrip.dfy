/** What is printed for a value: the one compact text of the grammar, which parses back to the value. */
module JsonRoundTrip {
  import opened Wrappers
  import opened Json
  import opened JsonGrammar
  import opened JsonParsing
  import opened Utf8
  import Hex

  /** Every value the serializers of this program build: only integers for numbers, and text for strings. */
  predicate Integral(v: Value)
    decreases v
  {
    match v
    case Float(_) => false
    case Mangled(_) => false
    case Arr(items) => forall i :: 0 <= i < |items| ==> Integral(items[i])
    case Obj(members) => forall i :: 0 <= i < |members| ==> members[i].key.Some? && Integral(members[i].value)
    case _ => true
  }

  // ---------------------------------------------------------------------- compact trees

  predicate HasShort(n: int) {
    n == 8 || n == 9 || n == 10 || n == 12 || n == 13
  }

  /** Escaped only where it must be, in the short form if there is one, else in lower-case digits. */
  predicate CompactPiece(p: Piece)
    requires GoodPiece(p)
  {
    match p
    case Raw(c) => true
    case Short(letter) => letter != '/'
    case Code(digits) =>
      && UnitOf(digits) < 0x20 && !HasShort(UnitOf(digits))
      && forall i :: 0 <= i < 4 ==> !('A' <= digits[i] <= 'F')
  }

  predicate CompactPieces(ps: seq<Piece>)
    requires GoodPieces(ps)
  {
    forall i :: 0 <= i < |ps| ==> CompactPiece(ps[i])
  }

  /** No white space, plain integers, and no needless escape. */
  predicate Compact(t: Tree)
    requires Good(t)
    decreases t, 0
  {
    match t
    case Number(negative, digits, fraction, exponent) =>
      fraction.None? && exponent.NoExponent? && (negative ==> Decimal(digits) != 0)
    case Quoted(pieces) => CompactPieces(pieces) && Text(PiecesBytes(pieces)).Some?
    case List(blank, items) => blank == "" && forall i :: 0 <= i < |items| ==> CompactItem(items[i])
    case Object(blank, entries) => blank == "" && forall i :: 0 <= i < |entries| ==> CompactEntry(entries[i])
    case _ => true
  }

  predicate CompactItem(i: Item)
    requires GoodItem(i)
    decreases i, 1
  {
    i.before == "" && Compact(i.tree) && i.after == ""
  }

  predicate CompactEntry(e: Entry)
    requires GoodEntry(e)
    decreases e, 2
  {
    && e.before == "" && e.gap == "" && CompactItem(e.item)
    && CompactPieces(e.key) && Text(PiecesBytes(e.key)).Some?
  }

  // ---------------------------------------------------- a compact tree has the printed text

  lemma {:induction false} HexDigit(c: char, n: int)
    requires Hex.ValueOf(c) == n >= 0 && !('A' <= c <= 'F')
    ensures c == Hex.Symbol(n)
  {
    Hex.SymbolOfValue(c);
  }

  lemma {:induction false} CodeText(digits: string)
    requires GoodPiece(Code(digits)) && CompactPiece(Code(digits))
    ensures PieceBytes(Code(digits)) == [UnitOf(digits) as char]
    ensures PieceText(Code(digits)) == EscapeChar(UnitOf(digits) as char)
  {
    var n := UnitOf(digits);
    assert Hex.ValueOf(digits[0]) == 0 && Hex.ValueOf(digits[1]) == 0;
    assert Hex.ValueOf(digits[2]) == n / 16 && Hex.ValueOf(digits[3]) == n % 16;
    HexDigit(digits[0], 0);
    HexDigit(digits[1], 0);
    HexDigit(digits[2], n / 16);
    HexDigit(digits[3], n % 16);
    assert digits == ['0', '0', Hex.Symbol(n / 16), Hex.Symbol(n % 16)];
    WireAscii([n as char]);
  }

  lemma {:induction false} PieceIsEscape(p: Piece)
    requires GoodPiece(p) && CompactPiece(p)
    ensures |PieceBytes(p)| == 1 && PieceText(p) == EscapeChar(PieceBytes(p)[0]) && !IsHigh(p)
  {
    if p.Code? { CodeText(p.digits); }
  }

  /** Compact pieces are the bytes of the string, escaped one by one. */
  lemma {:induction false} PiecesAreEscaped(ps: seq<Piece>)
    requires GoodPieces(ps) && CompactPieces(ps)
    ensures PiecesText(ps) == Escape(PiecesBytes(ps))
  {
    if |ps| > 0 {
      PieceIsEscape(ps[0]);
      PiecesAreEscaped(ps[1..]);
      assert PiecesBytes(ps)[1..] == PiecesBytes(ps[1..]);
    }
  }

  lemma {:induction false} EscapeHigh(w: string)
    requires forall i :: 0 <= i < |w| ==> w[i] as int >= 128
    ensures Escape(w) == w
  {
    if |w| > 0 {
      EscapeHigh(w[1..]);
      assert w == [w[0]] + w[1..];
    }
  }

  lemma {:induction false} EscapeAppend(s: string, t: string)
    ensures Escape(s + t) == Escape(s) + Escape(t)
  {
    if |s| == 0 {
      assert s + t == t;
    } else {
      assert (s + t)[1..] == s[1..] + t;
      EscapeAppend(s[1..], t);
      Glue(EscapeChar(s[0]), Escape(s[1..]), Escape(t));
    }
  }

  lemma {:induction false} EscapeAscii(c: char)
    requires c as int < 128
    ensures Ascii(EscapeChar(c)) && Escape([c]) == EscapeChar(c)
  {
    assert [c][1..] == "" && EscapeChar(c) + "" == EscapeChar(c);
  }

  lemma {:induction false} WireEscapeChar(c: char)
    ensures Wire(EscapeChar(c)) == Escape(Wire([c]))
  {
    if c as int < 128 {
      EscapeAscii(c);
      WireAscii(EscapeChar(c));
      WireAscii([c]);
    } else {
      WireHigh(c);
      EscapeHigh(Wire([c]));
    }
  }

  /** Escaping characters and escaping their bytes is the same. */
  lemma {:induction false} WireEscape(s: string)
    ensures Wire(Escape(s)) == Escape(Wire(s))
  {
    if |s| > 0 {
      WireEscapeChar(s[0]);
      WireEscape(s[1..]);
      WireFirst(s);
      WireAppend(EscapeChar(s[0]), Escape(s[1..]));
      EscapeAppend(Wire([s[0]]), Wire(s[1..]));
    }
  }

  lemma {:induction false} WireQuote(u: string)
    ensures Wire(Quote(u)) == "\"" + Wire(Escape(u)) + "\""
  {
    WireAscii("\"");
    WireAppend3("\"", Escape(u), "\"");
  }

  /** Compact pieces in quotation marks are the printed string. */
  lemma {:induction false} QuotedText(ps: seq<Piece>, u: string)
    requires GoodPieces(ps) && CompactPieces(ps) && Text(PiecesBytes(ps)) == Some(u)
    ensures "\"" + PiecesText(ps) + "\"" == Wire(Quote(u))
  {
    TextExact(PiecesBytes(ps), u);
    PiecesAreEscaped(ps);
    WireEscape(u);
    WireQuote(u);
  }

  /** Digits without a leading zero are the printed form of the number they spell. */
  lemma {:induction false} DecimalPrinted(d: string)
    requires Digits(d) && (|d| > 1 ==> d[0] != '0')
    ensures Decimal(d) >= 0 && PrintNat(Decimal(d)) == d
    ensures (|d| > 1 ==> Decimal(d) >= 10) && (d[0] != '0' ==> Decimal(d) > 0)
  {
    var init, last := d[..|d| - 1], d[|d| - 1];
    assert d == init + [last];
    if |init| > 0 {
      DecimalPrinted(init);
    } else {
      assert Decimal(init) == 0;
    }
  }

  lemma {:induction false} PrintedDigits(n: nat)
    ensures var d := PrintNat(n);
      Digits(d) && (|d| > 1 ==> d[0] != '0') && Decimal(d) == n && (d[0] == '0' ==> n == 0)
  {
    var d := PrintNat(n);
    assert d[..|d| - 1] == if n < 10 then "" else PrintNat(n / 10);
    if n >= 10 { PrintedDigits(n / 10); }
  }

  lemma {:induction false} PlainNumber(t: Tree)
    requires t.Number? && Good(t) && Compact(t)
    ensures TreeText(t) == (if t.negative then "-" + t.digits else t.digits)
  {
    NumberText(t);
    assert TailText(t.fraction, t.exponent) == "";
    assert t.digits + "" == t.digits && "" + t.digits == t.digits;
  }

  lemma {:induction false} WireDigits(d: string)
    requires Digits(d)
    ensures Wire(d) == d && Wire("-" + d) == "-" + d
  {
    WireAscii(d);
    WireAscii("-" + d);
  }

  lemma {:induction false} NumberPrinted(t: Tree)
    requires t.Number? && Good(t) && Compact(t)
    ensures Meaning(t).Int? && TreeText(t) == Wire(PrintInt(Meaning(t).n))
  {
    DecimalPrinted(t.digits);
    PlainNumber(t);
    WireDigits(t.digits);
  }

  // How printing distributes over the parts of a value, in bytes.

  lemma {:induction false} WireArr(items: seq<Value>)
    ensures Wire(Print(Arr(items))) == "[" + Wire(PrintItems(items)) + "]"
  {
    WireAscii("[");
    WireAscii("]");
    WireAppend3("[", PrintItems(items), "]");
  }

  lemma {:induction false} WireObj(members: seq<Member>)
    ensures Wire(Print(Obj(members))) == "{" + Wire(PrintMembers(members)) + "}"
  {
    WireAscii("{");
    WireAscii("}");
    WireAppend3("{", PrintMembers(members), "}");
  }

  lemma {:induction false} WireItems(items: seq<Value>)
    requires |items| > 1
    ensures Wire(PrintItems(items)) == Wire(Print(items[0])) + "," + Wire(PrintItems(items[1..]))
  {
    WireAscii(",");
    WireAppend3(Print(items[0]), ",", PrintItems(items[1..]));
  }

  lemma {:induction false} WireMember(m: Member)
    requires m.key.Some?
    ensures Wire(PrintMember(m)) == Wire(Quote(m.key.value)) + ":" + Wire(Print(m.value))
  {
    WireAscii(":");
    WireAppend3(Quote(m.key.value), ":", Print(m.value));
  }

  lemma {:induction false} WireMembers(members: seq<Member>)
    requires |members| > 1
    ensures Wire(PrintMembers(members)) == Wire(PrintMember(members[0])) + "," + Wire(PrintMembers(members[1..]))
  {
    WireAscii(",");
    WireAppend3(PrintMember(members[0]), ",", PrintMembers(members[1..]));
  }

  /** A compact tree is spelled as its value is printed. */
  lemma {:induction false} CompactText(t: Tree)
    requires Good(t) && Compact(t)
    ensures Integral(Meaning(t)) && TreeText(t) == Wire(Print(Meaning(t)))
    decreases t, 0
  {
    match t
    case NullTree => WireAscii("null");
    case TrueTree => WireAscii("true");
    case FalseTree => WireAscii("false");
    case Number(_, _, _, _) => NumberPrinted(t);
    case Quoted(pieces) => QuotedText(pieces, Text(PiecesBytes(pieces)).value);
    case List(_, items) =>
      WireArr(ItemsMeaning(items));
      if |items| > 0 { CompactItemsText(items); }
    case Object(_, entries) =>
      WireObj(EntriesMeaning(entries));
      if |entries| > 0 { CompactEntriesText(entries); }
  }

  lemma {:induction false} CompactItemText(i: Item)
    requires GoodItem(i) && CompactItem(i)
    ensures Integral(ItemMeaning(i)) && ItemText(i) == Wire(Print(ItemMeaning(i)))
    decreases i, 1
  {
    CompactText(i.tree);
    assert "" + TreeText(i.tree) + "" == TreeText(i.tree);
  }

  lemma {:induction false} CompactItemsText(items: seq<Item>)
    requires |items| > 0 && forall i :: 0 <= i < |items| ==> GoodItem(items[i]) && CompactItem(items[i])
    ensures var vs := ItemsMeaning(items);
      && (forall i :: 0 <= i < |vs| ==> Integral(vs[i])) && ItemsText(items) == Wire(PrintItems(vs))
    decreases items, 2
  {
    var vs := ItemsMeaning(items);
    CompactItemText(items[0]);
    if |items| > 1 {
      CompactItemsText(items[1..]);
      assert vs[1..] == ItemsMeaning(items[1..]);
      WireItems(vs);
    }
  }

  lemma {:induction false} NoSpace(q: string)
    ensures "" + q + "" == q
  {
  }

  lemma {:induction false} CompactEntryText(e: Entry)
    requires GoodEntry(e) && CompactEntry(e)
    ensures var m := EntryMeaning(e);
      m.key.Some? && Integral(m.value) && EntryText(e) == Wire(PrintMember(m))
    decreases e, 2
  {
    var m := EntryMeaning(e);
    CompactItemText(e.item);
    QuotedText(e.key, m.key.value);
    WireMember(m);
    NoSpace("\"" + PiecesText(e.key) + "\"");
  }

  lemma {:induction false} CompactEntriesText(entries: seq<Entry>)
    requires |entries| > 0 && forall i :: 0 <= i < |entries| ==> GoodEntry(entries[i]) && CompactEntry(entries[i])
    ensures var ms := EntriesMeaning(entries);
      && (forall i :: 0 <= i < |ms| ==> ms[i].key.Some? && Integral(ms[i].value))
      && EntriesText(entries) == Wire(PrintMembers(ms))
    decreases entries, 3
  {
    var ms := EntriesMeaning(entries);
    CompactEntryText(entries[0]);
    if |entries| > 1 {
      CompactEntriesText(entries[1..]);
      assert ms[1..] == EntriesMeaning(entries[1..]);
      WireMembers(ms);
    }
  }

  // ------------------------------------------------------- every value has a compact tree

  lemma {:induction false} BytePiece(b: char) returns (p: Piece)
    requires b as int < 256
    ensures GoodPiece(p) && CompactPiece(p) && PieceBytes(p) == [b]
  {
    var n := b as int;
    if b == '"' || b == '\\' {
      p := Short(b);
    } else if n >= 0x20 {
      p := Raw(b);
    } else if HasShort(n) {
      p := Short(if n == 8 then 'b' else if n == 9 then 't' else if n == 10 then 'n' else if n == 12 then 'f' else 'r');
    } else {
      p := Code(['0', '0', Hex.Symbol(n / 16), Hex.Symbol(n % 16)]);
      assert UnitOf(p.digits) == n;
      CodeText(p.digits);
    }
  }

  lemma {:induction false} BytePieces(w: string) returns (ps: seq<Piece>)
    requires Narrow(w)
    ensures GoodPieces(ps) && CompactPieces(ps) && PiecesBytes(ps) == w
  {
    if |w| == 0 {
      ps := [];
    } else {
      var p := BytePiece(w[0]);
      var more := BytePieces(w[1..]);
      ps := [p] + more;
      assert ps[1..] == more;
      PieceIsEscape(p);
      assert w == [w[0]] + w[1..];
    }
  }

  lemma {:induction false} StringTree(u: string) returns (ps: seq<Piece>)
    ensures GoodPieces(ps) && CompactPieces(ps) && Text(PiecesBytes(ps)) == Some(u)
  {
    OctetsOfChars(Encode(u));
    TextOfWire(u);
    ps := BytePieces(Wire(u));
  }

  lemma {:induction false} CompactTree(v: Value) returns (t: Tree)
    requires Integral(v)
    ensures Good(t) && Compact(t) && Meaning(t) == v
    decreases v, 0
  {
    match v
    case Null => t := NullTree;
    case Bool(b) => t := if b then TrueTree else FalseTree;
    case Int(n) =>
      PrintedDigits(if n < 0 then -n else n);
      t := Number(n < 0, PrintNat(if n < 0 then -n else n), None, NoExponent);
    case Str(u) =>
      var ps := StringTree(u);
      t := Quoted(ps);
    case Arr(items) =>
      var listed := CompactItems(items);
      t := List("", listed);
    case Obj(members) =>
      var es := CompactEntries(members);
      t := Object("", es);
  }

  lemma {:induction false} CompactItems(vs: seq<Value>) returns (items: seq<Item>)
    requires forall i :: 0 <= i < |vs| ==> Integral(vs[i])
    ensures forall i :: 0 <= i < |items| ==> GoodItem(items[i]) && CompactItem(items[i])
    ensures ItemsMeaning(items) == vs
    decreases vs, 1
  {
    if |vs| == 0 {
      items := [];
    } else {
      var t := CompactTree(vs[0]);
      var more := CompactItems(vs[1..]);
      items := [Item("", t, "")] + more;
      assert items[1..] == more && vs == [vs[0]] + vs[1..];
    }
  }

  lemma {:induction false} CompactMember(m: Member) returns (e: Entry)
    requires m.key.Some? && Integral(m.value)
    ensures GoodEntry(e) && CompactEntry(e) && EntryMeaning(e) == m
    decreases m, 1
  {
    var key := StringTree(m.key.value);
    var t := CompactTree(m.value);
    e := Entry("", key, "", Item("", t, ""));
  }

  lemma {:induction false} CompactEntries(ms: seq<Member>) returns (entries: seq<Entry>)
    requires forall i :: 0 <= i < |ms| ==> ms[i].key.Some? && Integral(ms[i].value)
    ensures forall i :: 0 <= i < |entries| ==> GoodEntry(entries[i]) && CompactEntry(entries[i])
    ensures EntriesMeaning(entries) == ms
    decreases ms, 2
  {
    if |ms| == 0 {
      entries := [];
    } else {
      var e := CompactMember(ms[0]);
      var more := CompactEntries(ms[1..]);
      entries := [e] + more;
      assert entries[1..] == more && ms == [ms[0]] + ms[1..];
    }
  }

  // ------------------------------------------------------------------------------- laws

  ghost predicate CompactFor(t: Tree, v: Value, text: string) {
    Good(t) && Compact(t) && Meaning(t) == v && TreeText(t) == text
  }

  /** The printed bytes of a value are the compact text of the grammar for it, and there is only one. */
  lemma {:induction false} PrintExact(v: Value, text: string)
    requires Integral(v)
    ensures text == Wire(Print(v)) <==> exists t :: CompactFor(t, v, text)
  {
    if text == Wire(Print(v)) {
      var t := CompactTree(v);
      CompactText(t);
      assert CompactFor(t, v, text);
    }
    if t :| CompactFor(t, v, text) {
      CompactText(t);
    }
  }

  /** A printed value parses back, in bytes, and leaves exactly what follows it. */
  lemma {:induction false} PrintParse(v: Value, rest: string)
    requires Integral(v) && Delimited(rest)
    ensures ParseValue(Wire(Print(v)) + rest) == Some((v, rest))
  {
    var t := CompactTree(v);
    CompactText(t);
    TreeParse(t, rest);
    var s := TreeText(t) + rest;
    assert s[0] == TreeText(t)[0] && "" + s == s;
    BlankBefore("", s);
  }

  /** The bytes of a printed document parse to the value it was printed from. */
  lemma {:induction false} DocumentRoundTrip(v: Value)
    requires Integral(v)
    ensures Parse(Wire(Print(v))) == Some(v)
  {
    PrintParse(v, "");
    assert Wire(Print(v)) + "" == Wire(Print(v));
  }

  /** Different values have different texts. */
  lemma {:induction false} PrintInjective(v: Value, w: Value)
    requires Integral(v) && Integral(w) && Print(v) == Print(w)
    ensures v == w
  {
    DocumentRoundTrip(v);
    DocumentRoundTrip(w);
  }
}
