/** The grammar of JSON (RFC 8259) as trees that keep every character of the text, and their meaning. */
module JsonGrammar {
  import opened Wrappers
  import opened Json
  import opened Utf8
  import Hex

  /** A piece of a string: a character as it is, a short escape, or the escape of four digits. */
  datatype Piece = Raw(c: char) | Short(letter: char) | Code(digits: string)

  datatype Exponent = NoExponent | Exponent(mark: char, sign: string, digits: string)

  datatype Tree =
    | NullTree
    | TrueTree
    | FalseTree
    | Number(negative: bool, digits: string, fraction: Option<string>, exponent: Exponent)
    | Quoted(pieces: seq<Piece>)
    | List(blank: string, items: seq<Item>)
    | Object(blank: string, entries: seq<Entry>)

  /** A value with the white space around it. */
  datatype Item = Item(before: string, tree: Tree, after: string)

  /** A member: white space, the key, white space before the colon, and the value. */
  datatype Entry = Entry(before: string, key: seq<Piece>, gap: string, item: Item)

  // ------------------------------------------------------------------ well-formedness

  predicate IsBlank(c: char) {
    c == ' ' || c == '\t' || c == '\n' || c == '\r'
  }

  predicate Blank(w: string) {
    forall i :: 0 <= i < |w| ==> IsBlank(w[i])
  }

  predicate Digits(s: string) {
    |s| > 0 && forall i :: 0 <= i < |s| ==> '0' <= s[i] <= '9'
  }

  predicate IsShort(letter: char) {
    || letter == '"' || letter == '\\' || letter == '/' || letter == 'b'
    || letter == 'f' || letter == 'n' || letter == 'r' || letter == 't'
  }

  predicate GoodPiece(p: Piece) {
    match p
    case Raw(c) => c as int >= 0x20 && c != '"' && c != '\\'
    case Short(letter) => IsShort(letter)
    case Code(digits) => |digits| == 4 && forall i :: 0 <= i < 4 ==> Hex.ValueOf(digits[i]) >= 0
  }

  predicate GoodPieces(ps: seq<Piece>) {
    forall i :: 0 <= i < |ps| ==> GoodPiece(ps[i])
  }

  predicate GoodExponent(e: Exponent) {
    e.Exponent? ==>
      && (e.mark == 'e' || e.mark == 'E') && (e.sign == "" || e.sign == "+" || e.sign == "-")
      && Digits(e.digits)
  }

  predicate Good(t: Tree)
    decreases t, 0
  {
    match t
    case Number(_, digits, fraction, exponent) =>
      && Digits(digits) && (|digits| > 1 ==> digits[0] != '0')
      && (fraction.Some? ==> Digits(fraction.value)) && GoodExponent(exponent)
    case Quoted(pieces) => GoodPieces(pieces)
    case List(blank, items) =>
      Blank(blank) && (|items| > 0 ==> blank == "") && forall i :: 0 <= i < |items| ==> GoodItem(items[i])
    case Object(blank, entries) =>
      Blank(blank) && (|entries| > 0 ==> blank == "") && forall i :: 0 <= i < |entries| ==> GoodEntry(entries[i])
    case _ => true
  }

  predicate GoodItem(i: Item)
    decreases i, 1
  {
    Blank(i.before) && Good(i.tree) && Blank(i.after)
  }

  predicate GoodEntry(e: Entry)
    decreases e, 2
  {
    Blank(e.before) && GoodPieces(e.key) && Blank(e.gap) && GoodItem(e.item)
  }

  // --------------------------------------------------------------------- the text

  function PieceText(p: Piece): (s: string)
    ensures |s| > 0
  {
    match p
    case Raw(c) => [c]
    case Short(letter) => ['\\', letter]
    case Code(digits) => "\\u" + digits
  }

  function PiecesText(ps: seq<Piece>): string {
    if |ps| == 0 then "" else PieceText(ps[0]) + PiecesText(ps[1..])
  }

  function FractionText(f: Option<string>): string {
    if f.Some? then "." + f.value else ""
  }

  function ExponentText(e: Exponent): string {
    if e.Exponent? then [e.mark] + e.sign + e.digits else ""
  }

  function TreeText(t: Tree): string
    decreases t, 0
  {
    match t
    case NullTree => "null"
    case TrueTree => "true"
    case FalseTree => "false"
    case Number(negative, digits, fraction, exponent) =>
      (if negative then "-" else "") + (digits + (FractionText(fraction) + ExponentText(exponent)))
    case Quoted(pieces) => "\"" + PiecesText(pieces) + "\""
    case List(blank, items) => "[" + (if |items| == 0 then blank else ItemsText(items)) + "]"
    case Object(blank, entries) => "{" + (if |entries| == 0 then blank else EntriesText(entries)) + "}"
  }

  function ItemText(i: Item): string
    decreases i, 1
  {
    i.before + TreeText(i.tree) + i.after
  }

  function ItemsText(items: seq<Item>): string
    requires |items| > 0
    decreases items, 2
  {
    if |items| == 1 then ItemText(items[0]) else ItemText(items[0]) + "," + ItemsText(items[1..])
  }

  function EntryText(e: Entry): string
    decreases e, 2
  {
    e.before + ("\"" + PiecesText(e.key) + "\"") + e.gap + ":" + ItemText(e.item)
  }

  function EntriesText(entries: seq<Entry>): string
    requires |entries| > 0
    decreases entries, 3
  {
    if |entries| == 1 then EntryText(entries[0]) else EntryText(entries[0]) + "," + EntriesText(entries[1..])
  }

  // ------------------------------------------------------------------ the meaning

  /** Section 7 of RFC 8259: quotation mark, reverse solidus, solidus, and five control characters. */
  function ShortMeaning(letter: char): int {
    match letter
    case '"' => 0x22
    case '\\' => 0x5C
    case '/' => 0x2F
    case 'b' => 0x08
    case 'f' => 0x0C
    case 'n' => 0x0A
    case 'r' => 0x0D
    case _ => 0x09
  }

  /** The code unit of four hexadecimal digits. */
  function UnitOf(digits: string): (u: int)
    requires GoodPiece(Code(digits))
    ensures 0 <= u < 0x10000
  {
    Hex.ValueOf(digits[0]) * 0x1000 + Hex.ValueOf(digits[1]) * 0x100
    + Hex.ValueOf(digits[2]) * 0x10 + Hex.ValueOf(digits[3])
  }

  predicate IsHigh(p: Piece)
    requires GoodPiece(p)
  {
    p.Code? && 0xD800 <= UnitOf(p.digits) < 0xDC00
  }

  predicate IsLow(p: Piece)
    requires GoodPiece(p)
  {
    p.Code? && 0xDC00 <= UnitOf(p.digits) < 0xE000
  }

  /** The character whose UTF-16 form is these two surrogates. */
  function FromPair(high: int, low: int): char
    requires 0xD800 <= high < 0xDC00 <= low < 0xE000
  {
    (0x10000 + (high - 0xD800) * 0x400 + low - 0xDC00) as char
  }

  /** The bytes one piece stands for by itself. */
  function PieceBytes(p: Piece): string
    requires GoodPiece(p)
  {
    match p
    case Raw(c) => [c]
    case Short(letter) => [ShortMeaning(letter) as char]
    case Code(digits) => if IsHigh(p) || IsLow(p) then NO_TEXT else Wire([UnitOf(digits) as char])
  }

  /** The bytes of a string; a high surrogate and a low one after it are one character. */
  function PiecesBytes(ps: seq<Piece>): string
    requires GoodPieces(ps)
  {
    if |ps| == 0 then ""
    else if |ps| >= 2 && IsHigh(ps[0]) && IsLow(ps[1]) then
      Wire([FromPair(UnitOf(ps[0].digits), UnitOf(ps[1].digits))]) + PiecesBytes(ps[2..])
    else PieceBytes(ps[0]) + PiecesBytes(ps[1..])
  }

  function StringValue(w: string): Value {
    match Text(w)
    case None => Mangled(w)
    case Some(u) => Str(u)
  }

  /** The value a tree stands for; a number is an integer when it is written as one and is not minus zero. */
  function Meaning(t: Tree): Value
    requires Good(t)
    decreases t, 0
  {
    match t
    case NullTree => Null
    case TrueTree => Bool(true)
    case FalseTree => Bool(false)
    case Number(negative, digits, fraction, exponent) =>
      if fraction.Some? || exponent.Exponent? || (negative && Decimal(digits) == 0) then Float(TreeText(t))
      else Int(if negative then -Decimal(digits) else Decimal(digits))
    case Quoted(pieces) => StringValue(PiecesBytes(pieces))
    case List(_, items) => Arr(ItemsMeaning(items))
    case Object(_, entries) => Obj(EntriesMeaning(entries))
  }

  function ItemMeaning(i: Item): Value
    requires GoodItem(i)
    decreases i, 1
  {
    Meaning(i.tree)
  }

  function EntryMeaning(e: Entry): Member
    requires GoodEntry(e)
    decreases e, 1
  {
    Member(Text(PiecesBytes(e.key)), ItemMeaning(e.item))
  }

  function ItemsMeaning(items: seq<Item>): (vs: seq<Value>)
    requires forall i :: 0 <= i < |items| ==> GoodItem(items[i])
    ensures |vs| == |items|
    decreases items, 2
  {
    if |items| == 0 then [] else [ItemMeaning(items[0])] + ItemsMeaning(items[1..])
  }

  function EntriesMeaning(entries: seq<Entry>): (ms: seq<Member>)
    requires forall i :: 0 <= i < |entries| ==> GoodEntry(entries[i])
    ensures |ms| == |entries|
    decreases entries, 2
  {
    if |entries| == 0 then [] else [EntryMeaning(entries[0])] + EntriesMeaning(entries[1..])
  }
}
