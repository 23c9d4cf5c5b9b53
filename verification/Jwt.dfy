/** Compact EdDSA tokens (section 7.1 of RFC 7515) and the key sets that verify them. */
module Jwt {
  import opened Wrappers
  import opened Ed25519
  import opened Errors
  import opened Fields
  import opened Json
  import opened JsonRoundTrip
  import opened Segments
  import Base64Url
  import Utf8

  const JWT_ALG := "EdDSA"
  const JWK_KTY := "OKP"
  const JWK_CRV := "Ed25519"
  const JWK_USE_SIG := "sig"

  datatype JwtHeader = JwtHeader(alg: string, typ: Option<string>, kid: Option<string>)

  datatype Audience = Single(value: string) | Multiple(values: seq<string>)
  {
    predicate Contains(candidate: string) {
      match this
      case Single(a) => a == candidate
      case Multiple(list) => candidate in list
    }
  }

  datatype JwtClaims = JwtClaims(
    iss: Option<string>,
    sub: Option<string>,
    aud: Option<Audience>,
    exp: Option<i64>,
    nbf: Option<i64>,
    iat: Option<i64>,
    jti: Option<string>,
    scope: Option<string>,
    roles: seq<string>)

  datatype Jwk = Jwk(
    kty: string, crv: string, x: string,
    kid: Option<string>, use_: Option<string>, alg: Option<string>)

  datatype Jwks = Jwks(keys: seq<Jwk>)

  datatype SignedJwt = SignedJwt(
    header: JwtHeader, claims: JwtClaims, signingInput: string, signature: seq<byte>)

  // ------------------------------------------------------- headers and claims

  function HeaderSlots(h: JwtHeader): seq<Slot> {
    [Slot("alg", Some(Str(h.alg))), Slot("typ", OptStr(h.typ)), Slot("kid", OptStr(h.kid))]
  }

  function HeaderValue(h: JwtHeader): Value {
    Obj(Present(HeaderSlots(h)))
  }

  const HEADER_FIELDS: seq<string> := ["alg", "typ", "kid"]

  function ReadHeader(v: Value): Option<JwtHeader> {
    match Record(v, HEADER_FIELDS, 1)
    case None => None
    case Some(ms) =>
      match (RequiredString(ms, "alg"), OptionalString(ms, "typ"), OptionalString(ms, "kid"))
      case (Some(alg), Some(typ), Some(kid)) => Some(JwtHeader(alg, typ, kid))
      case _ => None
  }

  function AudienceValue(a: Audience): Value {
    match a
    case Single(s) => Str(s)
    case Multiple(list) => Arr(Strings(list))
  }

  function ReadAudience(v: Value): Option<Audience> {
    match v
    case Str(s) => Some(Single(s))
    case Arr(items) =>
      (match AsStrings(items)
       case None => None
       case Some(list) => Some(Multiple(list)))
    case _ => None
  }

  function OptionalAudience(members: seq<Member>): Option<Option<Audience>> {
    match Optional(members, "aud")
    case None => None
    case Some(None) => Some(None)
    case Some(Some(v)) =>
      match ReadAudience(v)
      case None => None
      case Some(a) => Some(Some(a))
  }

  /** Missing means empty; unlike an optional field it may not be null. */
  function ReadRoles(members: seq<Member>): Option<seq<string>> {
    var vs := ValuesOf(members, "roles");
    if |vs| == 0 then Some([])
    else if |vs| == 1 && vs[0].Arr? then AsStrings(vs[0].items)
    else None
  }

  function ClaimsSlots(c: JwtClaims): seq<Slot> {
    [Slot("iss", OptStr(c.iss)),
     Slot("sub", OptStr(c.sub)),
     Slot("aud", if c.aud.Some? then Some(AudienceValue(c.aud.value)) else None),
     Slot("exp", OptInt(c.exp)),
     Slot("nbf", OptInt(c.nbf)),
     Slot("iat", OptInt(c.iat)),
     Slot("jti", OptStr(c.jti)),
     Slot("scope", OptStr(c.scope)),
     Slot("roles", if |c.roles| > 0 then Some(Arr(Strings(c.roles))) else None)]
  }

  function ClaimsValue(c: JwtClaims): Value {
    Obj(Present(ClaimsSlots(c)))
  }

  const CLAIMS_FIELDS: seq<string> := ["iss", "sub", "aud", "exp", "nbf", "iat", "jti", "scope", "roles"]

  function ReadClaims(v: Value): Option<JwtClaims> {
    match Record(v, CLAIMS_FIELDS, 0)
    case None => None
    case Some(ms) => ClaimsOf(ms)
  }

  function ClaimsOf(ms: seq<Member>): Option<JwtClaims> {
    match (OptionalString(ms, "iss"), OptionalString(ms, "sub"), OptionalAudience(ms),
           OptionalI64(ms, "exp"), OptionalI64(ms, "nbf"), OptionalI64(ms, "iat"),
           OptionalString(ms, "jti"), OptionalString(ms, "scope"), ReadRoles(ms))
    case (Some(iss), Some(sub), Some(aud), Some(exp), Some(nbf), Some(iat), Some(jti), Some(scope),
          Some(roles)) =>
      Some(JwtClaims(iss, sub, aud, exp, nbf, iat, jti, scope, roles))
    case _ => None
  }

  lemma {:induction false} HeaderRoundTrip(h: JwtHeader)
    ensures Integral(HeaderValue(h)) && ReadHeader(HeaderValue(h)) == Some(h)
  {
    var slots := HeaderSlots(h);
    PresentIntegral(slots);
    ReadAll(slots);
    assert slots[0].key == "alg" && slots[1].key == "typ" && slots[2].key == "kid";
  }

  lemma {:induction false} AudienceRoundTrip(a: Audience)
    ensures Integral(AudienceValue(a)) && ReadAudience(AudienceValue(a)) == Some(a)
  {
    if a.Multiple? { AsStringsOfStrings(a.values); }
  }

  lemma {:induction false} ClaimsKeys(c: JwtClaims)
    ensures DistinctKeys(ClaimsSlots(c))
  {
    var slots := ClaimsSlots(c);
    assert slots[0].key == "iss" && slots[1].key == "sub" && slots[2].key == "aud"
        && slots[3].key == "exp" && slots[4].key == "nbf" && slots[5].key == "iat"
        && slots[6].key == "jti" && slots[7].key == "scope" && slots[8].key == "roles";
  }

  lemma {:induction false} ClaimsStrings(c: JwtClaims)
    ensures var ms := Present(ClaimsSlots(c));
      && OptionalString(ms, "iss") == Some(c.iss) && OptionalString(ms, "sub") == Some(c.sub)
      && OptionalString(ms, "jti") == Some(c.jti) && OptionalString(ms, "scope") == Some(c.scope)
  {
    ClaimsKeys(c);
    ReadSlot(ClaimsSlots(c), 0);
    ReadSlot(ClaimsSlots(c), 1);
    ReadSlot(ClaimsSlots(c), 6);
    ReadSlot(ClaimsSlots(c), 7);
  }

  lemma {:induction false} ClaimsTimes(c: JwtClaims)
    ensures var ms := Present(ClaimsSlots(c));
      && OptionalI64(ms, "exp") == Some(c.exp) && OptionalI64(ms, "nbf") == Some(c.nbf)
      && OptionalI64(ms, "iat") == Some(c.iat)
  {
    ClaimsKeys(c);
    ReadSlot(ClaimsSlots(c), 3);
    ReadSlot(ClaimsSlots(c), 4);
    ReadSlot(ClaimsSlots(c), 5);
  }

  lemma {:induction false} ClaimsLists(c: JwtClaims)
    ensures var ms := Present(ClaimsSlots(c));
      && OptionalAudience(ms) == Some(c.aud) && ReadRoles(ms) == Some(c.roles)
  {
    ClaimsKeys(c);
    ReadSlot(ClaimsSlots(c), 2);
    ReadSlot(ClaimsSlots(c), 8);
    if c.aud.Some? { AudienceRoundTrip(c.aud.value); }
    AsStringsOfStrings(c.roles);
  }

  lemma {:induction false} ClaimsIntegral(c: JwtClaims)
    ensures Integral(ClaimsValue(c)) && KeysAreText(ClaimsValue(c).members)
  {
    if c.aud.Some? { AudienceRoundTrip(c.aud.value); }
    PresentIntegral(ClaimsSlots(c));
  }

  lemma {:induction false} ClaimsOfPresent(c: JwtClaims)
    ensures ClaimsOf(Present(ClaimsSlots(c))) == Some(c)
  {
    ClaimsStrings(c);
    ClaimsTimes(c);
    ClaimsLists(c);
  }

  lemma {:induction false} ClaimsRoundTrip(c: JwtClaims)
    ensures Integral(ClaimsValue(c)) && ReadClaims(ClaimsValue(c)) == Some(c)
  {
    ClaimsIntegral(c);
    ClaimsOfPresent(c);
  }

  lemma {:induction false} SameValues(a: seq<Member>, b: seq<Member>, key: string)
    requires ValuesOf(a, key) == ValuesOf(b, key)
    ensures Optional(a, key) == Optional(b, key)
    ensures OptionalString(a, key) == OptionalString(b, key) && OptionalI64(a, key) == OptionalI64(b, key)
  {
  }

  lemma {:induction false} SameLists(a: seq<Member>, b: seq<Member>)
    requires ValuesOf(a, "aud") == ValuesOf(b, "aud") && ValuesOf(a, "roles") == ValuesOf(b, "roles")
    ensures OptionalAudience(a) == OptionalAudience(b) && ReadRoles(a) == ReadRoles(b)
  {
  }

  lemma {:induction false} ClaimsDependOn(a: seq<Member>, b: seq<Member>)
    requires forall i :: 0 <= i < |CLAIMS_FIELDS| ==> ValuesOf(a, CLAIMS_FIELDS[i]) == ValuesOf(b, CLAIMS_FIELDS[i])
    ensures ClaimsOf(a) == ClaimsOf(b)
  {
    SameValues(a, b, CLAIMS_FIELDS[0]);
    SameValues(a, b, CLAIMS_FIELDS[1]);
    SameValues(a, b, CLAIMS_FIELDS[3]);
    SameValues(a, b, CLAIMS_FIELDS[4]);
    SameValues(a, b, CLAIMS_FIELDS[5]);
    SameValues(a, b, CLAIMS_FIELDS[6]);
    SameValues(a, b, CLAIMS_FIELDS[7]);
    assert CLAIMS_FIELDS[2] == "aud" && CLAIMS_FIELDS[8] == "roles";
    SameLists(a, b);
  }

  /** A claim that is not one of the known ones is ignored, wherever it stands and whatever its value. */
  lemma {:induction false} UnknownClaimIgnored(before: seq<Member>, m: Member, after: seq<Member>)
    requires m.key.Some? && m.key.value !in CLAIMS_FIELDS
    ensures ReadClaims(Obj(before + [m] + after)) == ReadClaims(Obj(before + after))
  {
    var f := CLAIMS_FIELDS;
    forall i | 0 <= i < |f| ensures ValuesOf(before + [m] + after, f[i]) == ValuesOf(before + after, f[i]) {
      assert f[i] in f;
      OtherMember(before, m, after, f[i]);
    }
    UnknownKeyIsText(before, m, after);
    ClaimsDependOn(before + [m] + after, before + after);
  }

  lemma {:induction false} UnknownKeyIsText(before: seq<Member>, m: Member, after: seq<Member>)
    requires m.key.Some?
    ensures KeysAreText(before + [m] + after) <==> KeysAreText(before + after)
  {
    var with, without := before + [m] + after, before + after;
    if KeysAreText(with) {
      forall i | 0 <= i < |without| ensures without[i].key.Some? {
        assert without[i] == with[if i < |before| then i else i + 1];
      }
    }
    if KeysAreText(without) {
      forall i | 0 <= i < |with| ensures with[i].key.Some? {
        assert with[i] == if i < |before| then without[i] else if i == |before| then m else without[i - 1];
      }
    }
  }

  // --------------------------------------------------------------- key sets

  function FirstWithKid(keys: seq<Jwk>, kid: string): Option<Jwk> {
    if |keys| == 0 then None
    else if keys[0].kid == Some(kid) then Some(keys[0])
    else FirstWithKid(keys[1..], kid)
  }

  /** The key a `kid` names; without a `kid`, the sole key of a one-key set. */
  function Find(jwks: Jwks, kid: Option<string>): Option<Jwk> {
    match kid
    case Some(id) => FirstWithKid(jwks.keys, id)
    case None => if |jwks.keys| == 1 then Some(jwks.keys[0]) else None
  }

  /** The declarative reading of `Find`: the earliest key with the id, or the only key. */
  ghost predicate Selects(jwks: Jwks, kid: Option<string>, jwk: Jwk) {
    match kid
    case Some(id) =>
      exists i :: 0 <= i < |jwks.keys| && jwks.keys[i] == jwk && jwk.kid == Some(id)
                  && forall j :: 0 <= j < i ==> jwks.keys[j].kid != Some(id)
    case None => jwks.keys == [jwk]
  }

  lemma {:induction false} FirstWithKidAt(keys: seq<Jwk>, id: string, i: nat)
    requires i <= |keys| && forall j :: 0 <= j < i ==> keys[j].kid != Some(id)
    ensures FirstWithKid(keys, id) == FirstWithKid(keys[i..], id)
  {
    if i > 0 {
      FirstWithKidAt(keys[1..], id, i - 1);
      assert keys[1..][i - 1..] == keys[i..];
    } else {
      assert keys[0..] == keys;
    }
  }

  lemma {:induction false} FirstWithKidIndex(keys: seq<Jwk>, id: string) returns (i: nat)
    requires FirstWithKid(keys, id).Some?
    ensures i < |keys| && keys[i] == FirstWithKid(keys, id).value && keys[i].kid == Some(id)
    ensures forall j :: 0 <= j < i ==> keys[j].kid != Some(id)
  {
    if keys[0].kid == Some(id) {
      i := 0;
    } else {
      var k := FirstWithKidIndex(keys[1..], id);
      i := k + 1;
      assert forall j :: 0 < j < i ==> keys[j] == keys[1..][j - 1];
    }
  }

  lemma {:induction false} FindExact(jwks: Jwks, kid: Option<string>, jwk: Jwk)
    ensures Find(jwks, kid) == Some(jwk) <==> Selects(jwks, kid, jwk)
  {
    if kid.Some? {
      if Find(jwks, kid).Some? {
        var i := FirstWithKidIndex(jwks.keys, kid.value);
      }
      if Selects(jwks, kid, jwk) {
        var i :| 0 <= i < |jwks.keys| && jwks.keys[i] == jwk && jwk.kid == kid
                 && forall j :: 0 <= j < i ==> jwks.keys[j].kid != kid;
        FirstWithKidAt(jwks.keys, kid.value, i);
      }
    }
  }

  function KeyOfJwk(scheme: Scheme, jwk: Jwk): Result<seq<byte>, VerifyError> {
    if jwk.kty != JWK_KTY then Err(InvalidKey("kty=" + jwk.kty))
    else if jwk.crv != JWK_CRV then Err(InvalidKey("crv=" + jwk.crv))
    else match Base64Url.Decode(jwk.x)
      case None => Err(VerifyError.Base64)
      case Some(raw) =>
        if |raw| != PUBLIC_KEY_LEN then Err(InvalidKeyLength(|raw|))
        else if scheme.isKey(raw) then Ok(raw)
        else Err(InvalidKey(LIBRARY_TEXT))
  }

  function JwkOfKey(key: seq<byte>, kid: string): Jwk {
    Jwk(JWK_KTY, JWK_CRV, Base64Url.Encode(key), Some(kid), Some(JWK_USE_SIG), Some(JWT_ALG))
  }

  /** A JWK yields a key exactly when it is an Ed25519 key whose coordinate is printed canonically. */
  lemma {:induction false} KeyOfJwkExact(scheme: Scheme, jwk: Jwk, key: seq<byte>)
    ensures KeyOfJwk(scheme, jwk) == Ok(key) <==>
            jwk.kty == "OKP" && jwk.crv == "Ed25519" && scheme.ValidKey(key)
            && jwk.x == Base64Url.Encode(key)
  {
    Base64Url.DecodeEncode(key);
    if KeyOfJwk(scheme, jwk) == Ok(key) {
      Base64Url.EncodeDecode(jwk.x);
    }
  }

  /** Why a JWK yields no key, in the order in which it is looked at. */
  lemma {:induction false} KeyOfJwkErrors(scheme: Scheme, jwk: Jwk, got: nat)
    ensures jwk.kty != "OKP" ==> KeyOfJwk(scheme, jwk) == Err(InvalidKey("kty=" + jwk.kty))
    ensures jwk.kty == "OKP" && jwk.crv != "Ed25519" ==> KeyOfJwk(scheme, jwk) == Err(InvalidKey("crv=" + jwk.crv))
    ensures jwk.kty == "OKP" && jwk.crv == "Ed25519" ==>
              && (KeyOfJwk(scheme, jwk) == Err(VerifyError.Base64) <==> forall b :: Base64Url.Encode(b) != jwk.x)
              && (KeyOfJwk(scheme, jwk) == Err(InvalidKeyLength(got))
                  <==> exists b :: Base64Url.Encode(b) == jwk.x && |b| == got != 32)
              && (KeyOfJwk(scheme, jwk) == Err(InvalidKey(LIBRARY_TEXT))
                  <==> exists b :: Base64Url.Encode(b) == jwk.x && |b| == 32 && !scheme.isKey(b))
  {
    DecodesExactly(jwk.x);
  }

  /** A text decodes to some bytes exactly when it is their encoding. */
  lemma {:induction false} DecodesExactly(text: string)
    ensures forall b :: Base64Url.Decode(text) == Some(b) <==> Base64Url.Encode(b) == text
  {
    forall b ensures Base64Url.Decode(text) == Some(b) <==> Base64Url.Encode(b) == text {
      Base64Url.DecodeEncode(b);
      if Base64Url.Decode(text) == Some(b) { Base64Url.EncodeDecode(text); }
    }
  }

  /** The JWK made for a key yields the key, has the given id, and says what it is for. */
  lemma {:induction false} JwkOfKeyExact(scheme: Scheme, key: seq<byte>, kid: string)
    ensures var jwk := JwkOfKey(key, kid);
      && jwk.kid == Some(kid) && jwk.use_ == Some("sig") && jwk.alg == Some("EdDSA")
      && (KeyOfJwk(scheme, jwk) == Ok(key) <==> scheme.ValidKey(key))
  {
    KeyOfJwkExact(scheme, JwkOfKey(key, kid), key);
  }

  // ----------------------------------------------------------------- tokens

  function Bytes(v: Value): seq<byte> {
    Utf8.Encode(Print(v))
  }

  function FromBytes(b: seq<byte>): Option<Value> {
    Json.Parse(Utf8.Chars(b))
  }

  lemma {:induction false} BytesRoundTrip(v: Value)
    requires Integral(v)
    ensures FromBytes(Bytes(v)) == Some(v)
  {
    JsonRoundTrip.DocumentRoundTrip(v);
  }

  /** A segment decoded as base64url and then as a JSON record. */
  function Decode<T>(segment: string, read: Value -> Option<T>): Result<T, VerifyError> {
    match Base64Url.Decode(segment)
    case None => Err(VerifyError.Base64)
    case Some(bytes) =>
      match FromBytes(bytes)
      case None => Err(BadJson)
      case Some(v) =>
        match read(v)
        case None => Err(BadJson)
        case Some(t) => Ok(t)
  }

  function DecodeSignature(segment: string): Result<seq<byte>, VerifyError> {
    match Base64Url.Decode(segment)
    case None => Err(VerifyError.Base64)
    case Some(raw) => if |raw| == SIGNATURE_LEN then Ok(raw) else Err(InvalidSignatureLength(|raw|))
  }

  function Parse(token: string): Result<SignedJwt, VerifyError> {
    var parts := Split(token, '.');
    if |parts| != 3 then Err(MalformedJwt)
    else match Decode(parts[0], ReadHeader)
      case Err(e) => Err(e)
      case Ok(header) =>
        match Decode(parts[1], ReadClaims)
        case Err(e) => Err(e)
        case Ok(claims) =>
          match DecodeSignature(parts[2])
          case Err(e) => Err(e)
          case Ok(signature) => Ok(SignedJwt(header, claims, parts[0] + "." + parts[1], signature))
  }

  function VerifyWith(scheme: Scheme, jwt: SignedJwt, jwks: Jwks): Result<(), VerifyError> {
    if jwt.header.alg != JWT_ALG then Err(UnsupportedAlgorithm(jwt.header.alg))
    else match Find(jwks, jwt.header.kid)
      case None => Err(UnknownKeyId(if jwt.header.kid.Some? then jwt.header.kid.value else ""))
      case Some(jwk) =>
        match KeyOfJwk(scheme, jwk)
        case Err(e) => Err(e)
        case Ok(key) =>
          if scheme.verify(key, Utf8.Encode(jwt.signingInput), jwt.signature) then Ok(())
          else Err(SignatureInvalid)
  }

  function SigningInput(header: JwtHeader, claims: JwtClaims): string {
    Base64Url.Encode(Bytes(HeaderValue(header))) + "." + Base64Url.Encode(Bytes(ClaimsValue(claims)))
  }

  function EncodeJwt(scheme: Scheme, header: JwtHeader, claims: JwtClaims, secret: seq<byte>): string {
    var input := SigningInput(header, claims);
    input + "." + Base64Url.Encode(scheme.sign(secret, Utf8.Encode(input)))
  }

  // ------------------------------------------------------------------- laws

  lemma {:induction false} DecodeHeaderSegment(header: JwtHeader)
    ensures Decode(Base64Url.Encode(Bytes(HeaderValue(header))), ReadHeader) == Ok(header)
  {
    HeaderRoundTrip(header);
    BytesRoundTrip(HeaderValue(header));
    Base64Url.DecodeEncode(Bytes(HeaderValue(header)));
  }

  lemma {:induction false} DecodeClaimsSegment(claims: JwtClaims)
    ensures Decode(Base64Url.Encode(Bytes(ClaimsValue(claims))), ReadClaims) == Ok(claims)
  {
    ClaimsRoundTrip(claims);
    BytesRoundTrip(ClaimsValue(claims));
    Base64Url.DecodeEncode(Bytes(ClaimsValue(claims)));
  }

  /** Parsing a minted token gives back its header, its claims and the text that was signed. */
  lemma {:induction false} ParseMinted(scheme: Scheme, header: JwtHeader, claims: JwtClaims, secret: seq<byte>)
    requires scheme.Correct()
    ensures var input := SigningInput(header, claims);
      Parse(EncodeJwt(scheme, header, claims, secret))
      == Ok(SignedJwt(header, claims, input, scheme.sign(secret, Utf8.Encode(input))))
  {
    var h := Base64Url.Encode(Bytes(HeaderValue(header)));
    var p := Base64Url.Encode(Bytes(ClaimsValue(claims)));
    var signature := scheme.sign(secret, Utf8.Encode(SigningInput(header, claims)));
    var s := Base64Url.Encode(signature);
    ThreeSegments(EncodeJwt(scheme, header, claims, secret), h, p, s, '.');
    assert SigningInput(header, claims) == h + ['.'] + p;
    assert EncodeJwt(scheme, header, claims, secret) == h + ['.'] + p + ['.'] + s;
    DecodeHeaderSegment(header);
    DecodeClaimsSegment(claims);
    Base64Url.DecodeEncode(signature);
  }

  /** A minted token verifies against every key set in which its `kid` finds the signer's key. */
  lemma {:induction false} VerifyMinted(
      scheme: Scheme, header: JwtHeader, claims: JwtClaims, secret: seq<byte>, jwks: Jwks, jwk: Jwk)
    requires scheme.Correct() && header.alg == JWT_ALG
    requires Find(jwks, header.kid) == Some(jwk)
    requires KeyOfJwk(scheme, jwk) == Ok(scheme.publicKey(secret))
    ensures var parsed := Parse(EncodeJwt(scheme, header, claims, secret));
      parsed.Ok? && VerifyWith(scheme, parsed.value, jwks) == Ok(())
  {
    ParseMinted(scheme, header, claims, secret);
  }

  /** The three byte strings a token carries. */
  ghost predicate Carries(token: string, header: seq<byte>, payload: seq<byte>, signature: seq<byte>) {
    token == Base64Url.Encode(header) + "." + Base64Url.Encode(payload) + "." + Base64Url.Encode(signature)
  }

  lemma {:induction false} CarriesSplit(token: string, header: seq<byte>, payload: seq<byte>, signature: seq<byte>)
    requires Carries(token, header, payload, signature)
    ensures Split(token, '.')
         == [Base64Url.Encode(header), Base64Url.Encode(payload), Base64Url.Encode(signature)]
  {
    ThreeSegments(token, Base64Url.Encode(header), Base64Url.Encode(payload),
                  Base64Url.Encode(signature), '.');
  }

  /** Two texts that carry the same byte strings are the same, and a text carries one triple only. */
  lemma {:induction false} CarriesUnique(t: string, h: seq<byte>, p: seq<byte>, s: seq<byte>,
                                         u: string, i: seq<byte>, q: seq<byte>, r: seq<byte>)
    requires Carries(t, h, p, s) && Carries(u, i, q, r)
    ensures t == u <==> h == i && p == q && s == r
  {
    CarriesSplit(t, h, p, s);
    CarriesSplit(u, i, q, r);
    Base64Url.DecodeEncode(h);
    Base64Url.DecodeEncode(i);
    Base64Url.DecodeEncode(p);
    Base64Url.DecodeEncode(q);
    Base64Url.DecodeEncode(s);
    Base64Url.DecodeEncode(r);
  }

  /**
   * What `Parse` accepts, without saying how it computes: texts that are canonically encoded triples
   * of a JSON header, JSON claims and 64 bytes.
   */
  ghost predicate Compact(token: string, jwt: SignedJwt, header: seq<byte>, payload: seq<byte>) {
    && Carries(token, header, payload, jwt.signature)
    && FromBytes(header).Some? && ReadHeader(FromBytes(header).value) == Some(jwt.header)
    && FromBytes(payload).Some? && ReadClaims(FromBytes(payload).value) == Some(jwt.claims)
    && |jwt.signature| == 64
    && jwt.signingInput == Base64Url.Encode(header) + "." + Base64Url.Encode(payload)
  }

  lemma {:induction false} CompactParses(token: string, jwt: SignedJwt, header: seq<byte>, payload: seq<byte>)
    requires Compact(token, jwt, header, payload)
    ensures Parse(token) == Ok(jwt)
  {
    CarriesSplit(token, header, payload, jwt.signature);
    Base64Url.DecodeEncode(header);
    Base64Url.DecodeEncode(payload);
    Base64Url.DecodeEncode(jwt.signature);
  }

  lemma {:induction false} ParsedIsCompact(token: string, jwt: SignedJwt)
    returns (header: seq<byte>, payload: seq<byte>)
    requires Parse(token) == Ok(jwt)
    ensures Compact(token, jwt, header, payload)
  {
    var parts := Split(token, '.');
    assert parts == [parts[0], parts[1], parts[2]];
    ThreeSegments(token, parts[0], parts[1], parts[2], '.');
    header, payload := Base64Url.Decode(parts[0]).value, Base64Url.Decode(parts[1]).value;
    Base64Url.EncodeDecode(parts[0]);
    Base64Url.EncodeDecode(parts[1]);
    Base64Url.EncodeDecode(parts[2]);
  }

  /** `Parse` accepts exactly the canonical compact texts; the signed text is the token's own prefix. */
  lemma {:induction false} ParseExact(token: string, jwt: SignedJwt)
    ensures Parse(token) == Ok(jwt) <==>
            exists header, payload :: Compact(token, jwt, header, payload)
    ensures Parse(token) == Ok(jwt) ==>
            token == jwt.signingInput + "." + Base64Url.Encode(jwt.signature)
  {
    if Parse(token) == Ok(jwt) {
      var header, payload := ParsedIsCompact(token, jwt);
    }
    if header, payload :| Compact(token, jwt, header, payload) {
      CompactParses(token, jwt, header, payload);
    }
  }

  /** Why a segment is refused: it encodes no bytes, or bytes that are not read as a record. */
  lemma {:induction false} SegmentErrors<T>(segment: string, read: Value -> Option<T>)
    ensures Decode(segment, read) == Err(VerifyError.Base64) <==> forall b :: Base64Url.Encode(b) != segment
    ensures Decode(segment, read) == Err(BadJson)
            <==> exists b :: Base64Url.Encode(b) == segment
                             && forall v :: FromBytes(b) == Some(v) ==> read(v) == None
  {
    DecodesExactly(segment);
  }

  /** Why a signature segment is refused: it encodes no bytes, or not 64 of them. */
  lemma {:induction false} SignatureErrors(segment: string, got: nat)
    ensures DecodeSignature(segment) == Err(VerifyError.Base64) <==> forall b :: Base64Url.Encode(b) != segment
    ensures DecodeSignature(segment) == Err(InvalidSignatureLength(got))
            <==> exists b :: Base64Url.Encode(b) == segment && |b| == got != 64
  {
    DecodesExactly(segment);
  }

  /** The first segment that is refused gives the error, the header before the claims before the signature. */
  lemma {:induction false} ParseErrors(h: string, p: string, s: string)
    requires '.' !in h && '.' !in p && '.' !in s
    ensures var header, claims, signature := Decode(h, ReadHeader), Decode(p, ReadClaims), DecodeSignature(s);
      var parsed := Parse(h + "." + p + "." + s);
      && (header.Err? ==> parsed == Err(header.error))
      && (header.Ok? && claims.Err? ==> parsed == Err(claims.error))
      && (header.Ok? && claims.Ok? && signature.Err? ==> parsed == Err(signature.error))
      && (header.Ok? && claims.Ok? && signature.Ok? ==> parsed.Ok?)
  {
    ThreeSegments(h + "." + p + "." + s, h, p, s, '.');
  }

  /** A token is malformed as a whole exactly when it does not have two dots. */
  lemma {:induction false} MalformedExact(token: string)
    ensures Parse(token) == Err(MalformedJwt) <==> multiset(token)['.'] != 2
  {
    SegmentCount(token, '.');
  }

  /** The algorithm is EdDSA and the key set selects a well-formed Ed25519 key. */
  ghost predicate Resolved(scheme: Scheme, jwt: SignedJwt, jwks: Jwks, jwk: Jwk, key: seq<byte>) {
    && jwt.header.alg == "EdDSA"
    && Selects(jwks, jwt.header.kid, jwk)
    && jwk.kty == "OKP" && jwk.crv == "Ed25519"
    && scheme.ValidKey(key) && jwk.x == Base64Url.Encode(key)
  }

  /** What verification accepts: a signature over the token's own text by the key it resolves to. */
  ghost predicate Signed(scheme: Scheme, jwt: SignedJwt, jwks: Jwks, jwk: Jwk, key: seq<byte>) {
    && Resolved(scheme, jwt, jwks, jwk, key)
    && scheme.verify(key, Utf8.Encode(jwt.signingInput), jwt.signature)
  }

  /** The one key a token resolves to decides. */
  lemma {:induction false} ResolvedDecides(scheme: Scheme, jwt: SignedJwt, jwks: Jwks, jwk: Jwk, key: seq<byte>)
    requires Resolved(scheme, jwt, jwks, jwk, key)
    ensures Find(jwks, jwt.header.kid) == Some(jwk) && KeyOfJwk(scheme, jwk) == Ok(key)
    ensures VerifyWith(scheme, jwt, jwks)
         == if scheme.verify(key, Utf8.Encode(jwt.signingInput), jwt.signature) then Ok(()) else Err(SignatureInvalid)
  {
    FindExact(jwks, jwt.header.kid, jwk);
    KeyOfJwkExact(scheme, jwk, key);
  }

  lemma {:induction false} VerifyWithResolves(scheme: Scheme, jwt: SignedJwt, jwks: Jwks)
    returns (jwk: Jwk, key: seq<byte>)
    requires VerifyWith(scheme, jwt, jwks).Ok? || VerifyWith(scheme, jwt, jwks) == Err(SignatureInvalid)
    ensures Resolved(scheme, jwt, jwks, jwk, key)
  {
    jwk := Find(jwks, jwt.header.kid).value;
    key := KeyOfJwk(scheme, jwk).value;
    FindExact(jwks, jwt.header.kid, jwk);
    KeyOfJwkExact(scheme, jwk, key);
  }

  lemma {:induction false} VerifyWithExact(scheme: Scheme, jwt: SignedJwt, jwks: Jwks)
    ensures VerifyWith(scheme, jwt, jwks).Ok? <==>
            exists jwk, key :: Signed(scheme, jwt, jwks, jwk, key)
  {
    if VerifyWith(scheme, jwt, jwks).Ok? {
      var jwk, key := VerifyWithResolves(scheme, jwt, jwks);
      ResolvedDecides(scheme, jwt, jwks, jwk, key);
      assert Signed(scheme, jwt, jwks, jwk, key);
    }
    if jwk, key :| Signed(scheme, jwt, jwks, jwk, key) {
      ResolvedDecides(scheme, jwt, jwks, jwk, key);
    }
  }

  /**
   * Which error is reported: the algorithm before the key id, the key id before the key, and a
   * refused signature only when the token resolves to a key.
   */
  lemma {:induction false} VerifyWithErrors(scheme: Scheme, jwt: SignedJwt, jwks: Jwks)
    ensures VerifyWith(scheme, jwt, jwks) == Err(UnsupportedAlgorithm(jwt.header.alg)) <==> jwt.header.alg != JWT_ALG
    ensures VerifyWith(scheme, jwt, jwks)
            == Err(UnknownKeyId(if jwt.header.kid.Some? then jwt.header.kid.value else ""))
            <==> jwt.header.alg == JWT_ALG && forall jwk :: !Selects(jwks, jwt.header.kid, jwk)
    ensures VerifyWith(scheme, jwt, jwks) == Err(SignatureInvalid)
            <==> exists jwk, key :: Resolved(scheme, jwt, jwks, jwk, key) && !Signed(scheme, jwt, jwks, jwk, key)
  {
    forall jwk ensures Find(jwks, jwt.header.kid) == Some(jwk) <==> Selects(jwks, jwt.header.kid, jwk) {
      FindExact(jwks, jwt.header.kid, jwk);
    }
    if VerifyWith(scheme, jwt, jwks) == Err(SignatureInvalid) {
      var jwk, key := VerifyWithResolves(scheme, jwt, jwks);
      ResolvedDecides(scheme, jwt, jwks, jwk, key);
      assert Resolved(scheme, jwt, jwks, jwk, key) && !Signed(scheme, jwt, jwks, jwk, key);
    }
    if jwk, key :| Resolved(scheme, jwt, jwks, jwk, key) && !Signed(scheme, jwt, jwks, jwk, key) {
      ResolvedDecides(scheme, jwt, jwks, jwk, key);
    }
  }
}
