/** `did:key` identifiers: an Ed25519 key written as multibase base58btc over a multicodec tag. */
module DidKey {
  import opened Wrappers
  import opened Ed25519
  import opened Errors
  import opened Positional
  import Base58

  const ED25519_MULTICODEC: seq<byte> := [0xed, 0x01]
  const BASE58BTC: char := 'z'
  const DID_KEY_PREFIX: string := "did:key:"

  datatype Did = Did(text: string)

  function StripPrefix<T(==)>(s: seq<T>, prefix: seq<T>): (r: Option<seq<T>>)
    ensures r.Some? <==> prefix <= s
    ensures r.Some? ==> s == prefix + r.value
  {
    if prefix <= s then Some(s[|prefix|..]) else None
  }

  /** The identifier of a key. */
  function OfKey(key: seq<byte>): Did {
    Did(DID_KEY_PREFIX + [BASE58BTC] + Base58.Encode(ED25519_MULTICODEC + key))
  }

  /** The 32 key bytes behind the multicodec tag, if they are a key. */
  function TaggedKey(scheme: Scheme, decoded: seq<byte>): Result<seq<byte>, VerifyError> {
    match StripPrefix(decoded, ED25519_MULTICODEC)
    case None => Err(UnsupportedKeyType)
    case Some(key) =>
      if |key| != PUBLIC_KEY_LEN then Err(InvalidKeyLength(|key|))
      else if scheme.isKey(key) then Ok(key)
      else Err(UnsupportedKeyType)
  }

  /** The key an identifier encodes. */
  function KeyOf(scheme: Scheme, did: Did): Result<seq<byte>, VerifyError> {
    match StripPrefix(did.text, DID_KEY_PREFIX)
    case None => Err(MalformedDid(did.text))
    case Some(rest) =>
      if |rest| == 0 || rest[0] != BASE58BTC then Err(MalformedDid(did.text))
      else match Base58.Decode(rest[1..])
        case None => Err(MalformedDid(LIBRARY_TEXT))
        case Some(decoded) => TaggedKey(scheme, decoded)
  }

  /** Wraps an identifier after checking that it encodes a key. */
  function Parse(scheme: Scheme, s: string): Result<Did, VerifyError> {
    match KeyOf(scheme, Did(s))
    case Ok(_) => Ok(Did(s))
    case Err(e) => Err(e)
  }

  method FromVerifyingKey(key: seq<byte>) returns (did: Did)
    ensures did == OfKey(key)
  {
    var tagged: seq<byte> := [];
    tagged := tagged + ED25519_MULTICODEC;
    tagged := tagged + key;
    assert tagged == ED25519_MULTICODEC + key;
    var s := DID_KEY_PREFIX;
    s := s + [BASE58BTC];
    var text := Base58.EncodeLoop(tagged);
    s := s + text;
    did := Did(s);
  }

  method VerifyingKey(scheme: Scheme, did: Did) returns (r: Result<seq<byte>, VerifyError>)
    ensures r == KeyOf(scheme, did)
  {
    var rest := StripPrefix(did.text, DID_KEY_PREFIX);
    if rest.None? || |rest.value| == 0 || rest.value[0] != BASE58BTC {
      return Err(MalformedDid(did.text));
    }
    var decoded := Base58.DecodeLoop(rest.value[1..]);
    if decoded.None? {
      return Err(MalformedDid(LIBRARY_TEXT));
    }
    r := TaggedKey(scheme, decoded.value);
  }

  lemma {:induction false} PrintedKeyDecodes(key: seq<byte>)
    ensures var text := OfKey(key).text;
      && StripPrefix(text, DID_KEY_PREFIX) == Some([BASE58BTC] + Base58.Encode(ED25519_MULTICODEC + key))
      && Base58.Decode(Base58.Encode(ED25519_MULTICODEC + key)) == Some(ED25519_MULTICODEC + key)
      && StripPrefix(ED25519_MULTICODEC + key, ED25519_MULTICODEC) == Some(key)
  {
    Base58.DecodeEncode(ED25519_MULTICODEC + key);
    var rest := [BASE58BTC] + Base58.Encode(ED25519_MULTICODEC + key);
    assert OfKey(key).text == DID_KEY_PREFIX + rest;
  }

  lemma {:induction false} KeyOfPrinted(scheme: Scheme, key: seq<byte>)
    requires scheme.ValidKey(key)
    ensures KeyOf(scheme, OfKey(key)) == Ok(key)
  {
    PrintedKeyDecodes(key);
    assert ([BASE58BTC] + Base58.Encode(ED25519_MULTICODEC + key))[1..]
        == Base58.Encode(ED25519_MULTICODEC + key);
  }

  lemma {:induction false} DecodedIsPrinted(scheme: Scheme, did: Did)
    requires KeyOf(scheme, did).Ok?
    ensures scheme.ValidKey(KeyOf(scheme, did).value) && did == OfKey(KeyOf(scheme, did).value)
  {
    var key := KeyOf(scheme, did).value;
    var rest := StripPrefix(did.text, DID_KEY_PREFIX).value;
    Base58.EncodeDecode(rest[1..]);
    assert Base58.Decode(rest[1..]).value == ED25519_MULTICODEC + key;
    assert did.text == DID_KEY_PREFIX + ([BASE58BTC] + rest[1..]);
  }

  /**
   * Identifiers and keys are in bijection: an identifier decodes to a key exactly when it is the
   * one text printed for that key.
   */
  lemma {:induction false} KeyOfExact(scheme: Scheme, did: Did, key: seq<byte>)
    ensures KeyOf(scheme, did) == Ok(key) <==> scheme.ValidKey(key) && did == OfKey(key)
  {
    if scheme.ValidKey(key) { KeyOfPrinted(scheme, key); }
    if KeyOf(scheme, did).Ok? { DecodedIsPrinted(scheme, did); }
  }

  /** Among identifiers that decode, comparing texts is comparing keys. */
  lemma {:induction false} TextDecidesKey(scheme: Scheme, a: Did, b: Did)
    requires KeyOf(scheme, a).Ok? && KeyOf(scheme, b).Ok?
    ensures a == b <==> KeyOf(scheme, a).value == KeyOf(scheme, b).value
  {
    KeyOfExact(scheme, a, KeyOf(scheme, a).value);
    KeyOfExact(scheme, b, KeyOf(scheme, b).value);
  }

  /** What `Parse` accepts is exactly the identifiers of valid keys, unchanged. */
  lemma {:induction false} ParseExact(scheme: Scheme, s: string)
    ensures Parse(scheme, s).Ok? <==> exists key :: scheme.ValidKey(key) && Did(s) == OfKey(key)
    ensures Parse(scheme, s).Ok? ==> Parse(scheme, s).value == Did(s)
  {
    forall key ensures KeyOf(scheme, Did(s)) == Ok(key)
                   <==> scheme.ValidKey(key) && Did(s) == OfKey(key) {
      KeyOfExact(scheme, Did(s), key);
    }
    if Parse(scheme, s).Ok? {
      var key := KeyOf(scheme, Did(s)).value;
      assert scheme.ValidKey(key) && Did(s) == OfKey(key);
    }
  }

  // ------------------------------------------------------------------- errors

  /** The identifier is the multibase base58btc text of these bytes. */
  ghost predicate Spells(did: Did, bytes: seq<byte>) {
    did.text == DID_KEY_PREFIX + [BASE58BTC] + Base58.Encode(bytes)
  }

  /** The identifier of a key: `did:key:z` and the base58 text of the two tag bytes and the key. */
  lemma {:induction false} OfKeyText(key: seq<byte>, text: string)
    ensures OfKey(key) == Did("did:key:z" + text)
            <==> Base58.InAlphabet(text)
                 && LeadingZeros(Base58.Values(text)) == 0
                 && Spelled(Base58.Values(text), 58) == Spelled([0xed, 0x01] + key, 256)
  {
    var tagged: seq<byte> := [0xed, 0x01] + key;
    Base58.EncodeExact(tagged, text);
    SamePrefix("did:key:z", Base58.Encode(tagged), text);
    PrefixText();
    assert OfKey(key).text == "did:key:z" + Base58.Encode(tagged);
  }

  lemma {:induction false} PrefixText()
    ensures DID_KEY_PREFIX + [BASE58BTC] == "did:key:z"
  {
  }

  lemma {:induction false} SamePrefix(prefix: string, a: string, b: string)
    ensures prefix + a == prefix + b <==> a == b
  {
    assert (prefix + a)[|prefix|..] == a && (prefix + b)[|prefix|..] == b;
  }

  lemma {:induction false} SpelledKey(scheme: Scheme, did: Did, bytes: seq<byte>)
    requires Spells(did, bytes)
    ensures KeyOf(scheme, did) == TaggedKey(scheme, bytes)
  {
    Base58.DecodeEncode(bytes);
    var text := Base58.Encode(bytes);
    var rest := [BASE58BTC] + text;
    assert did.text == DID_KEY_PREFIX + rest && rest[1..] == text;
  }

  lemma {:induction false} SpelledText(did: Did, text: string, bytes: seq<byte>)
    requires did.text == DID_KEY_PREFIX + ([BASE58BTC] + text) && text == Base58.Encode(bytes)
    ensures Spells(did, bytes)
  {
  }

  lemma {:induction false} SpelledOrMalformed(scheme: Scheme, did: Did) returns (bytes: seq<byte>)
    ensures Spells(did, bytes) || (KeyOf(scheme, did).Err? && KeyOf(scheme, did).error.MalformedDid?)
  {
    bytes := [];
    var rest := StripPrefix(did.text, DID_KEY_PREFIX);
    if rest.Some? && |rest.value| > 0 && rest.value[0] == BASE58BTC {
      var text := rest.value[1..];
      assert rest.value == [BASE58BTC] + text;
      if Base58.Decode(text).Some? {
        bytes := Base58.Decode(text).value;
        Base58.EncodeDecode(text);
        SpelledText(did, text, bytes);
      }
    }
  }

  /** An identifier is malformed exactly when it is not the multibase text of any bytes. */
  lemma {:induction false} MalformedExact(scheme: Scheme, did: Did)
    ensures (KeyOf(scheme, did).Err? && KeyOf(scheme, did).error.MalformedDid?)
            <==> forall bytes :: !Spells(did, bytes)
  {
    var bytes := SpelledOrMalformed(scheme, did);
    if b :| Spells(did, b) {
      SpelledKey(scheme, did, b);
    }
  }

  lemma {:induction false} TagSplits(key: seq<byte>)
    ensures StripPrefix(ED25519_MULTICODEC + key, ED25519_MULTICODEC) == Some(key)
  {
  }

  /** The bytes are the tag followed by a text of this length, which is not that of a key. */
  ghost predicate WrongLength(did: Did, key: seq<byte>, got: nat) {
    Spells(did, ED25519_MULTICODEC + key) && |key| == got != 32
  }

  lemma {:induction false} LengthExact(scheme: Scheme, did: Did, got: nat)
    ensures KeyOf(scheme, did) == Err(InvalidKeyLength(got)) <==> exists key :: WrongLength(did, key, got)
  {
    if KeyOf(scheme, did) == Err(InvalidKeyLength(got)) {
      var bytes := SpelledOrMalformed(scheme, did);
      SpelledKey(scheme, did, bytes);
      var key := StripPrefix(bytes, ED25519_MULTICODEC).value;
      assert WrongLength(did, key, got);
    }
    if key :| WrongLength(did, key, got) {
      SpelledKey(scheme, did, ED25519_MULTICODEC + key);
      TagSplits(key);
    }
  }

  /** The bytes carry another tag, or 32 bytes that are no key. */
  ghost predicate WrongType(scheme: Scheme, did: Did, bytes: seq<byte>) {
    && Spells(did, bytes)
    && (ED25519_MULTICODEC <= bytes ==>
          |bytes| == 2 + 32 && !scheme.isKey(bytes[2..]))
  }

  lemma {:induction false} TypeExact(scheme: Scheme, did: Did)
    ensures KeyOf(scheme, did) == Err(UnsupportedKeyType) <==> exists bytes :: WrongType(scheme, did, bytes)
  {
    if KeyOf(scheme, did) == Err(UnsupportedKeyType) {
      var bytes := SpelledOrMalformed(scheme, did);
      SpelledKey(scheme, did, bytes);
      assert WrongType(scheme, did, bytes);
    }
    if bytes :| WrongType(scheme, did, bytes) {
      SpelledKey(scheme, did, bytes);
    }
  }
}
