/** JSON values, the compact text `serde_json` prints, and the text it parses (RFC 8259). */
module Json {
  import opened Wrappers
  import Hex
  import Utf8

  /**
   * A JSON document. Numbers with a fraction or an exponent, and minus zero, are kept as the text
   * they were read from, and so are strings that are no Unicode text: no field of EdgeAuth accepts
   * one, but the parser passes over them in members it ignores. A key that is no text is None.
   */
  datatype Value =
    | Null
    | Bool(b: bool)
    | Int(n: int)
    | Float(lexeme: string)
    | Str(s: string)
    | Mangled(raw: string)
    | Arr(items: seq<Value>)
    | Obj(members: seq<Member>)

  datatype Member = Member(key: Option<string>, value: Value)

  // ---------------------------------------------------------------- printing

  /** Section 7 of RFC 8259, with the short escapes where there is one. */
  function EscapeChar(c: char): string {
    var n := c as int;
    if c == '"' then "\\\""
    else if c == '\\' then "\\\\"
    else if n == 8 then "\\b"
    else if n == 9 then "\\t"
    else if n == 10 then "\\n"
    else if n == 12 then "\\f"
    else if n == 13 then "\\r"
    else if n < 32 then "\\u00" + [Hex.Symbol(n / 16), Hex.Symbol(n % 16)]
    else [c]
  }

  function Escape(s: string): string {
    if |s| == 0 then "" else EscapeChar(s[0]) + Escape(s[1..])
  }

  function Quote(s: string): string {
    "\"" + Escape(s) + "\""
  }

  function DigitChar(d: int): (c: char)
    requires 0 <= d < 10
  {
    (48 + d) as char
  }

  function PrintNat(n: nat): string {
    if n < 10 then [DigitChar(n)] else PrintNat(n / 10) + [DigitChar(n % 10)]
  }

  function PrintInt(n: int): string {
    if n < 0 then "-" + PrintNat(-n) else PrintNat(n)
  }

  function Print(v: Value): string
    decreases v, 0
  {
    match v
    case Null => "null"
    case Bool(b) => if b then "true" else "false"
    case Int(n) => PrintInt(n)
    case Float(lexeme) => lexeme
    case Str(s) => Quote(s)
    case Mangled(raw) => "\"" + raw + "\""
    case Arr(items) => "[" + PrintItems(items) + "]"
    case Obj(members) => "{" + PrintMembers(members) + "}"
  }

  function PrintItems(items: seq<Value>): string
    decreases items, 1
  {
    if |items| == 0 then ""
    else if |items| == 1 then Print(items[0])
    else Print(items[0]) + "," + PrintItems(items[1..])
  }

  function PrintMember(m: Member): string
    decreases m, 1
  {
    Quote(if m.key.Some? then m.key.value else "") + ":" + Print(m.value)
  }

  function PrintMembers(members: seq<Member>): string
    decreases members, 2
  {
    if |members| == 0 then ""
    else if |members| == 1 then PrintMember(members[0])
    else PrintMember(members[0]) + "," + PrintMembers(members[1..])
  }

  // ----------------------------------------------------------------- parsing
  //
  // The parser reads the characters 0 to 255 as bytes (`Utf8.Chars`).

  function SkipWs(s: string): (t: string)
    ensures |t| <= |s|
  {
    if |s| > 0 && (s[0] == ' ' || s[0] == '\n' || s[0] == '\t' || s[0] == '\r')
    then SkipWs(s[1..]) else s
  }

  function Push(w: string, r: Option<(string, string)>): Option<(string, string)> {
    match r
    case None => None
    case Some((t, rest)) => Some((w + t, rest))
  }

  /** Stands for an unpaired surrogate: a byte that no text holds. */
  const NO_TEXT: string := [255 as char]

  /** The code unit of four hexadecimal digits, or -1. */
  function Unit(s: string): (u: int)
    requires |s| == 4
    ensures -1 <= u < 0x10000
  {
    var a, b, c, d := Hex.ValueOf(s[0]), Hex.ValueOf(s[1]), Hex.ValueOf(s[2]), Hex.ValueOf(s[3]);
    if a < 0 || b < 0 || c < 0 || d < 0 then -1 else ((a * 16 + b) * 16 + c) * 16 + d
  }

  /** What a one-letter escape stands for. */
  function Unescape(c: char): Option<char> {
    if c == '"' || c == '\\' || c == '/' then Some(c)
    else if c == 'b' then Some(8 as char)
    else if c == 'f' then Some(12 as char)
    else if c == 'n' then Some(10 as char)
    else if c == 'r' then Some(13 as char)
    else if c == 't' then Some(9 as char)
    else None
  }

  /** The code point of a pair of surrogates. */
  function Paired(high: int, low: int): (c: char)
    requires 0xD800 <= high < 0xDC00 <= low < 0xE000
  {
    (0x10000 + (high - 0xD800) * 0x400 + (low - 0xDC00)) as char
  }

  /**
   * The bytes of the string up to its closing quote, and what comes after it; `s` starts after the
   * opening quote. Escapes stand for the bytes of their character.
   */
  function ParseString(s: string): (r: Option<(string, string)>)
    ensures r.Some? ==> |r.value.1| < |s|
    decreases |s|, 1
  {
    if |s| == 0 then None
    else if s[0] == '"' then Some(("", s[1..]))
    else if s[0] == '\\' then
      if |s| < 2 then None
      else if s[1] == 'u' then ParseUnicode(s)
      else match Unescape(s[1])
        case None => None
        case Some(c) => Push([c], ParseString(s[2..]))
    else if s[0] as int < 32 then None
    else Push([s[0]], ParseString(s[1..]))
  }

  /** The second surrogate of a pair, when the text goes on with one. */
  function SecondUnit(s: string): (low: int)
    ensures low == -1 || (0xDC00 <= low < 0xE000 && |s| >= 6)
  {
    if |s| < 6 || s[0] != '\\' || s[1] != 'u' then -1
    else
      var low := Unit(s[2..6]);
      if 0xDC00 <= low < 0xE000 then low else -1
  }

  /** A string that starts with a four-digit escape. */
  function ParseUnicode(s: string): (r: Option<(string, string)>)
    requires |s| >= 2
    ensures r.Some? ==> |r.value.1| < |s|
    decreases |s|, 0
  {
    if |s| < 6 || Unit(s[2..6]) < 0 then None
    else
      var u := Unit(s[2..6]);
      if u < 0xD800 || 0xE000 <= u then Push(Utf8.Wire([u as char]), ParseString(s[6..]))
      else if u < 0xDC00 && SecondUnit(s[6..]) >= 0 then
        Push(Utf8.Wire([Paired(u, SecondUnit(s[6..]))]), ParseString(s[12..]))
      else Push(NO_TEXT, ParseString(s[6..]))
  }

  predicate IsDigit(c: char) { '0' <= c <= '9' }

  function LeadingDigits(s: string): string {
    if |s| > 0 && IsDigit(s[0]) then [s[0]] + LeadingDigits(s[1..]) else ""
  }

  function AfterDigits(s: string): (rest: string)
    ensures |rest| <= |s|
  {
    if |s| > 0 && IsDigit(s[0]) then AfterDigits(s[1..]) else s
  }

  /** The number decimal digits spell. */
  function Decimal(s: string): int {
    if |s| == 0 then 0 else Decimal(s[..|s| - 1]) * 10 + (s[|s| - 1] as int - 48)
  }

  /** The text after one or more digits. */
  function SomeDigits(s: string): (rest: Option<string>)
    ensures rest.Some? ==> |rest.value| <= |s|
  {
    if |s| > 0 && IsDigit(s[0]) then Some(AfterDigits(s)) else None
  }

  /** The text after an optional fraction; None when a point has no digit after it. */
  function AfterFraction(s: string): (rest: Option<string>)
    ensures rest.Some? ==> |rest.value| <= |s|
  {
    if |s| > 0 && s[0] == '.' then SomeDigits(s[1..]) else Some(s)
  }

  /** The text after an optional exponent; None when it has no digit. */
  function AfterExponent(s: string): (rest: Option<string>)
    ensures rest.Some? ==> |rest.value| <= |s|
  {
    if |s| > 0 && (s[0] == 'e' || s[0] == 'E') then
      if |s| > 1 && (s[1] == '+' || s[1] == '-') then SomeDigits(s[2..]) else SomeDigits(s[1..])
    else Some(s)
  }

  /** The text after an optional fraction and an optional exponent. */
  function AfterFloat(s: string): (rest: Option<string>)
    ensures rest.Some? ==> |rest.value| <= |s|
  {
    match AfterFraction(s)
    case None => None
    case Some(t) => AfterExponent(t)
  }

  /** A number without its sign; a leading zero must stand alone. */
  function ParseMagnitude(sign: string, t: string): (r: Option<(Value, string)>)
    ensures r.Some? ==> |r.value.1| < |t|
  {
    var digits, rest := LeadingDigits(t), AfterDigits(t);
    if |rest| == |t| || (|digits| > 1 && digits[0] == '0') then None
    else match AfterFloat(rest)
      case None => None
      case Some(end) =>
        if |end| < |rest| || (sign == "-" && Decimal(digits) == 0)
        then Some((Float(sign + t[..|t| - |end|]), end))
        else Some((Int(if sign == "-" then -Decimal(digits) else Decimal(digits)), rest))
  }

  function ParseNumber(s: string): (r: Option<(Value, string)>)
    ensures r.Some? ==> |r.value.1| < |s|
  {
    if |s| > 0 && s[0] == '-' then ParseMagnitude("-", s[1..]) else ParseMagnitude("", s)
  }

  predicate StartsWith(s: string, prefix: string) {
    |prefix| <= |s| && s[..|prefix|] == prefix
  }

  function ParseText(s: string): (r: Option<(Value, string)>)
    ensures r.Some? ==> |r.value.1| < |s|
  {
    match ParseString(s)
    case None => None
    case Some((w, rest)) =>
      match Utf8.Text(w)
      case None => Some((Mangled(w), rest))
      case Some(u) => Some((Str(u), rest))
  }

  function ParseWord(s: string, word: string, v: Value): (r: Option<(Value, string)>)
    ensures r.Some? ==> |r.value.1| == |s| - |word|
  {
    if StartsWith(s, word) then Some((v, s[|word|..])) else None
  }

  function ParseValue(s: string): (r: Option<(Value, string)>)
    ensures r.Some? ==> |r.value.1| < |s|
    decreases |s|, 4
  {
    ParseToken(SkipWs(s))
  }

  /** A value that starts at the first character, which decides what kind of value it is. */
  function ParseToken(t: string): (r: Option<(Value, string)>)
    ensures r.Some? ==> |r.value.1| < |t|
    decreases |t|, 3
  {
    if |t| == 0 then None
    else if t[0] == '"' then ParseText(t[1..])
    else if t[0] == '[' then ParseArray(t[1..])
    else if t[0] == '{' then ParseObject(t[1..])
    else if t[0] == 'n' then ParseWord(t, "null", Null)
    else if t[0] == 't' then ParseWord(t, "true", Bool(true))
    else if t[0] == 'f' then ParseWord(t, "false", Bool(false))
    else ParseNumber(t)
  }

  function ParseArray(s: string): (r: Option<(Value, string)>)
    ensures r.Some? ==> |r.value.1| < |s|
    decreases |s|, 6
  {
    var u := SkipWs(s);
    if |u| > 0 && u[0] == ']' then Some((Arr([]), u[1..]))
    else match ParseItems(u)
      case None => None
      case Some((items, rest)) => Some((Arr(items), rest))
  }

  function ParseObject(s: string): (r: Option<(Value, string)>)
    ensures r.Some? ==> |r.value.1| < |s|
    decreases |s|, 6
  {
    var u := SkipWs(s);
    if |u| > 0 && u[0] == '}' then Some((Obj([]), u[1..]))
    else match ParseMembers(u)
      case None => None
      case Some((members, rest)) => Some((Obj(members), rest))
  }

  /** One or more elements up to the closing bracket. */
  function ParseItems(s: string): (r: Option<(seq<Value>, string)>)
    ensures r.Some? ==> |r.value.1| < |s|
    decreases |s|, 5
  {
    match ParseValue(s)
    case None => None
    case Some((v, rest)) =>
      var u := SkipWs(rest);
      if |u| > 0 && u[0] == ']' then Some(([v], u[1..]))
      else if |u| > 0 && u[0] == ',' then
        match ParseItems(u[1..])
        case None => None
        case Some((more, end)) => Some(([v] + more, end))
      else None
  }

  function ParseMember(s: string): (r: Option<(Member, string)>)
    ensures r.Some? ==> |r.value.1| < |s|
    decreases |s|, 4
  {
    var t := SkipWs(s);
    if |t| == 0 || t[0] != '"' then None
    else match ParseString(t[1..])
      case None => None
      case Some((key, rest)) =>
        var u := SkipWs(rest);
        if |u| == 0 || u[0] != ':' then None
        else match ParseValue(u[1..])
          case None => None
          case Some((v, end)) => Some((Member(Utf8.Text(key), v), end))
  }

  /** One or more members up to the closing brace. */
  function ParseMembers(s: string): (r: Option<(seq<Member>, string)>)
    ensures r.Some? ==> |r.value.1| < |s|
    decreases |s|, 5
  {
    match ParseMember(s)
    case None => None
    case Some((m, rest)) =>
      var u := SkipWs(rest);
      if |u| > 0 && u[0] == '}' then Some(([m], u[1..]))
      else if |u| > 0 && u[0] == ',' then
        match ParseMembers(u[1..])
        case None => None
        case Some((more, end)) => Some(([m] + more, end))
      else None
  }

  /** A whole document: one value and nothing but white space after it. */
  function Parse(s: string): Option<Value> {
    match ParseValue(s)
    case None => None
    case Some((v, rest)) => if SkipWs(rest) == "" then Some(v) else None
  }
}
