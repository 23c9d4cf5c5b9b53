/** The text of headers and claims, and what reading them means, member by member. */
module TokenText {
  import opened Wrappers
  import opened Json
  import opened Fields
  import opened Jwt
  import opened RecordText
  import JsonParsing
  import Utf8

  // ------------------------------------------------------------------------ printing

  function Quoted(o: Option<string>): Option<string> {
    if o.Some? then Some(Quote(o.value)) else None
  }

  function Numeral(o: Option<i64>): Option<string> {
    if o.Some? then Some(PrintInt(o.value)) else None
  }

  function QuotedAll(ss: seq<string>): (texts: seq<string>)
    ensures |texts| == |ss| && forall i :: 0 <= i < |ss| ==> texts[i] == Quote(ss[i])
  {
    if |ss| == 0 then [] else [Quote(ss[0])] + QuotedAll(ss[1..])
  }

  function ListText(ss: seq<string>): string {
    "[" + Joined(QuotedAll(ss)) + "]"
  }

  const HEADER_KEYS: seq<string> := ["alg", "typ", "kid"]
  const CLAIMS_KEYS: seq<string> := ["iss", "sub", "aud", "exp", "nbf", "iat", "jti", "scope", "roles"]

  function HeaderTexts(h: JwtHeader): (texts: seq<Option<string>>)
    ensures |texts| == 3
  {
    [Some(Quote(h.alg)), Quoted(h.typ), Quoted(h.kid)]
  }

  function AudienceText(aud: Option<Audience>): Option<string> {
    match aud
    case None => None
    case Some(Single(a)) => Some(Quote(a))
    case Some(Multiple(list)) => Some(ListText(list))
  }

  function ClaimsTexts(c: JwtClaims): (texts: seq<Option<string>>)
    ensures |texts| == 9
  {
    [Quoted(c.iss), Quoted(c.sub), AudienceText(c.aud), Numeral(c.exp), Numeral(c.nbf), Numeral(c.iat),
     Quoted(c.jti), Quoted(c.scope), if c.roles == [] then None else Some(ListText(c.roles))]
  }

  lemma {:induction false} StringsPrinted(ss: seq<string>)
    ensures Print(Arr(Strings(ss))) == ListText(ss)
  {
    ItemsJoined(Strings(ss), QuotedAll(ss));
  }

  /** The header of a token, written out: three fields in this order, those that are given. */
  lemma {:induction false} HeaderText(h: JwtHeader)
    ensures Print(HeaderValue(h)) == Braced(SomeFields(HEADER_KEYS, HeaderTexts(h)))
  {
    PartRecordPrinted(HeaderSlots(h), HEADER_KEYS, HeaderTexts(h));
  }

  lemma {:induction false} ListSlots(c: JwtClaims)
    ensures SlotIs(ClaimsSlots(c)[2], "aud", AudienceText(c.aud))
    ensures SlotIs(ClaimsSlots(c)[8], "roles", if c.roles == [] then None else Some(ListText(c.roles)))
  {
    if c.aud.Some? && c.aud.value.Multiple? { StringsPrinted(c.aud.value.values); }
    StringsPrinted(c.roles);
  }

  lemma {:induction false} PlainSlots(key: string, s: Option<string>, n: Option<i64>)
    ensures SlotIs(Slot(key, OptStr(s)), key, Quoted(s)) && SlotIs(Slot(key, OptInt(n)), key, Numeral(n))
  {
  }

  lemma {:induction false} ClaimsSlotTexts(c: JwtClaims)
    ensures |ClaimsSlots(c)| == 9
    ensures forall i :: 0 <= i < 9 ==> SlotIs(ClaimsSlots(c)[i], CLAIMS_KEYS[i], ClaimsTexts(c)[i])
  {
    ListSlots(c);
    PlainSlots("iss", c.iss, None);
    PlainSlots("sub", c.sub, None);
    PlainSlots("exp", None, c.exp);
    PlainSlots("nbf", None, c.nbf);
    PlainSlots("iat", None, c.iat);
    PlainSlots("jti", c.jti, None);
    PlainSlots("scope", c.scope, None);
  }

  /** The claims of a token, written out: nine fields in this order, those that are given. */
  lemma {:induction false} ClaimsText(c: JwtClaims)
    ensures Print(ClaimsValue(c)) == Braced(SomeFields(CLAIMS_KEYS, ClaimsTexts(c)))
  {
    ClaimsSlotTexts(c);
    PartRecordPrinted(ClaimsSlots(c), CLAIMS_KEYS, ClaimsTexts(c));
  }

  // ------------------------------------------------------------------------- reading

  function TextValue(o: Option<string>): Option<Value> {
    if o.Some? then Some(Str(o.value)) else None
  }

  function NumberValue(o: Option<i64>): Option<Value> {
    if o.Some? then Some(Int(o.value)) else None
  }

  /** What the members of a header say. */
  ghost predicate HeaderRead(ms: seq<Member>, h: JwtHeader) {
    && KeysAreText(ms)
    && Sole(ms, "alg", Str(h.alg)) && Holds(ms, "typ", TextValue(h.typ)) && Holds(ms, "kid", TextValue(h.kid))
  }

  /** A header is read from an object exactly when its members say so. */
  lemma {:induction false} ReadHeaderExact(ms: seq<Member>, h: JwtHeader)
    ensures ReadHeader(Obj(ms)) == Some(h) <==> HeaderRead(ms, h)
  {
    RequiredTextExact(ms, "alg", h.alg);
    OptionalTextExact(ms, "typ", h.typ);
    OptionalTextExact(ms, "kid", h.kid);
  }

  lemma {:induction false} AsStringsExact(vs: seq<Value>, ss: seq<string>)
    ensures AsStrings(vs) == Some(ss) <==> vs == Strings(ss)
  {
    AsStringsOfStrings(ss);
    if AsStrings(vs) == Some(ss) {
      if |vs| > 0 {
        AsStringsExact(vs[1..], ss[1..]);
        assert vs == [vs[0]] + vs[1..];
      }
    }
  }

  ghost predicate AudienceRead(ms: seq<Member>, aud: Option<Audience>) {
    match aud
    case None => Holds(ms, "aud", None)
    case Some(Single(a)) => Sole(ms, "aud", Str(a))
    case Some(Multiple(list)) => Sole(ms, "aud", Arr(Strings(list)))
  }

  lemma {:induction false} AudienceOfExact(v: Value, a: Audience)
    ensures ReadAudience(v) == Some(a)
            <==> (a.Single? && v == Str(a.value)) || (a.Multiple? && v == Arr(Strings(a.values)))
  {
    if v.Arr? && a.Multiple? { AsStringsExact(v.items, a.values); }
  }

  lemma {:induction false} OptionalAudienceExact(ms: seq<Member>, aud: Option<Audience>)
    ensures OptionalAudience(ms) == Some(aud) <==> AudienceRead(ms, aud)
  {
    OptionalExact(ms, "aud", None);
    if aud.Some? {
      var v := if aud.value.Single? then Str(aud.value.value) else Arr(Strings(aud.value.values));
      OptionalExact(ms, "aud", Some(v));
      AudienceOfExact(v, aud.value);
      var read := Optional(ms, "aud");
      if read.Some? && read.value.Some? { AudienceOfExact(read.value.value, aud.value); }
    }
  }

  ghost predicate RolesRead(ms: seq<Member>, roles: seq<string>) {
    (Missing(ms, "roles") && roles == []) || Sole(ms, "roles", Arr(Strings(roles)))
  }

  lemma {:induction false} ReadRolesExact(ms: seq<Member>, roles: seq<string>)
    ensures ReadRoles(ms) == Some(roles) <==> RolesRead(ms, roles)
  {
    var vs := ValuesOf(ms, "roles");
    MissingExact(ms, "roles");
    SoleExact(ms, "roles", Arr(Strings(roles)));
    if |vs| == 1 && vs[0].Arr? { AsStringsExact(vs[0].items, roles); }
    assert |vs| == 1 ==> vs == [vs[0]];
  }

  ghost predicate WordsRead(ms: seq<Member>, c: JwtClaims) {
    && Holds(ms, "iss", TextValue(c.iss)) && Holds(ms, "sub", TextValue(c.sub))
    && Holds(ms, "jti", TextValue(c.jti)) && Holds(ms, "scope", TextValue(c.scope))
  }

  ghost predicate TimesRead(ms: seq<Member>, c: JwtClaims) {
    && Holds(ms, "exp", NumberValue(c.exp)) && Holds(ms, "nbf", NumberValue(c.nbf))
    && Holds(ms, "iat", NumberValue(c.iat))
  }

  /** What the members of a claims object say. */
  ghost predicate ClaimsRead(ms: seq<Member>, c: JwtClaims) {
    KeysAreText(ms) && WordsRead(ms, c) && TimesRead(ms, c) && AudienceRead(ms, c.aud) && RolesRead(ms, c.roles)
  }

  lemma {:induction false} WordsExact(ms: seq<Member>, c: JwtClaims)
    ensures WordsRead(ms, c) <==>
            && OptionalString(ms, "iss") == Some(c.iss) && OptionalString(ms, "sub") == Some(c.sub)
            && OptionalString(ms, "jti") == Some(c.jti) && OptionalString(ms, "scope") == Some(c.scope)
  {
    OptionalTextExact(ms, "iss", c.iss);
    OptionalTextExact(ms, "sub", c.sub);
    OptionalTextExact(ms, "jti", c.jti);
    OptionalTextExact(ms, "scope", c.scope);
  }

  lemma {:induction false} TimesExact(ms: seq<Member>, c: JwtClaims)
    ensures TimesRead(ms, c) <==>
            && OptionalI64(ms, "exp") == Some(c.exp) && OptionalI64(ms, "nbf") == Some(c.nbf)
            && OptionalI64(ms, "iat") == Some(c.iat)
  {
    OptionalNumberExact(ms, "exp", c.exp);
    OptionalNumberExact(ms, "nbf", c.nbf);
    OptionalNumberExact(ms, "iat", c.iat);
  }

  /** Claims are read from an object exactly when its members say so. */
  lemma {:induction false} ReadClaimsExact(ms: seq<Member>, c: JwtClaims)
    ensures ReadClaims(Obj(ms)) == Some(c) <==> ClaimsRead(ms, c)
  {
    WordsExact(ms, c);
    TimesExact(ms, c);
    OptionalAudienceExact(ms, c.aud);
    ReadRolesExact(ms, c.roles);
  }

  /** A header is read from an array of the fields in their order, which may stop after the first. */
  lemma {:induction false} ReadHeaderArray(items: seq<Value>, h: JwtHeader)
    ensures ReadHeader(Arr(items)) == Some(h)
            <==> 1 <= |items| <= 3 && HeaderRead(Named(HEADER_KEYS, items), h)
  {
    if 1 <= |items| <= 3 {
      ReadHeaderExact(Named(HEADER_KEYS, items), h);
    }
  }

  /** Claims are read from an array of the fields in their order, which may stop early. */
  lemma {:induction false} ReadClaimsArray(items: seq<Value>, c: JwtClaims)
    ensures ReadClaims(Arr(items)) == Some(c)
            <==> |items| <= 9 && ClaimsRead(Named(CLAIMS_KEYS, items), c)
  {
    if |items| <= 9 {
      ReadClaimsExact(Named(CLAIMS_KEYS, items), c);
    }
  }

  /** Nothing but an object or an array is read as a header or as claims. */
  lemma {:induction false} ReadNothingElse(v: Value)
    requires !v.Obj? && !v.Arr?
    ensures ReadHeader(v) == None && ReadClaims(v) == None
  {
  }

  /** The bytes of a segment are read as a value exactly when they are JSON text of that value. */
  lemma {:induction false} FromBytesExact(b: seq<byte>, v: Value)
    ensures FromBytes(b) == Some(v) <==> JsonParsing.IsTextOf(Utf8.Chars(b), v)
  {
    JsonParsing.ParseExact(Utf8.Chars(b), v);
  }
}
