/** Verifiable credentials: their JSON, their canonical signing payload and their proof. */
module Credential {
  import opened Wrappers
  import opened Ed25519
  import opened Errors
  import opened Fields
  import opened Json
  import opened JsonRoundTrip
  import opened DidKey
  import opened Ordering
  import Hex
  import Utf8

  const PROOF_TYPE := "Ed25519Signature2020"

  datatype CredentialSubject = CredentialSubject(id: Did, claims: map<string, string>)

  datatype Proof = Proof(proofType: string, verificationMethod: Did, created: i64, signatureHex: string)

  datatype VerifiableCredential = VerifiableCredential(
    id: string,
    credentialType: string,
    issuer: Did,
    subject: CredentialSubject,
    issuedAt: i64,
    expiresAt: Option<i64>,
    proof: Option<Proof>)

  // ------------------------------------------------------------------ writing

  /** The claims in the order of the given keys. */
  function ClaimMembers(keys: seq<string>, claims: map<string, string>): seq<Member>
    requires forall k :: k in keys ==> k in claims
  {
    if |keys| == 0 then [] else
      var last := keys[|keys| - 1];
      ClaimMembers(keys[..|keys| - 1], claims) + [Member(Some(last), Str(claims[last]))]
  }

  function ClaimsValue(claims: map<string, string>): Value {
    Obj(ClaimMembers(Sorted(claims.Keys), claims))
  }

  function SubjectSlots(subject: CredentialSubject): seq<Slot> {
    [Slot("id", Some(Str(subject.id.text))), Slot("claims", Some(ClaimsValue(subject.claims)))]
  }

  /** The fields the proof signs, in their canonical order. */
  function SignedSlots(vc: VerifiableCredential): seq<Slot> {
    [Slot("id", Some(Str(vc.id))),
     Slot("type", Some(Str(vc.credentialType))),
     Slot("issuer", Some(Str(vc.issuer.text))),
     Slot("subject", Some(Obj(Present(SubjectSlots(vc.subject))))),
     Slot("issued_at", Some(Int(vc.issuedAt))),
     Slot("expires_at", Some(if vc.expiresAt.Some? then Int(vc.expiresAt.value) else Null))]
  }

  function ProofSlots(proof: Proof): seq<Slot> {
    [Slot("type", Some(Str(proof.proofType))),
     Slot("verification_method", Some(Str(proof.verificationMethod.text))),
     Slot("created", Some(Int(proof.created))),
     Slot("signature_hex", Some(Str(proof.signatureHex)))]
  }

  function ProofSlot(proof: Option<Proof>): Slot {
    Slot("proof", if proof.Some? then Some(Obj(Present(ProofSlots(proof.value)))) else None)
  }

  function DocumentSlots(vc: VerifiableCredential): seq<Slot> {
    SignedSlots(vc) + [ProofSlot(vc.proof)]
  }

  /** The whole document; a missing proof is left out. */
  function ToJson(vc: VerifiableCredential): Value {
    Obj(Present(DocumentSlots(vc)))
  }

  /** The bytes the proof signs: the compact JSON of the document without its proof. */
  function SigningPayload(vc: VerifiableCredential): seq<byte> {
    Utf8.Encode(Print(Obj(Present(SignedSlots(vc)))))
  }

  // ------------------------------------------------------------------ reading

  /** A map of strings; the last value of a repeated key wins. */
  function ReadClaims(members: seq<Member>): Option<map<string, string>> {
    if |members| == 0 then Some(map[]) else
      var last := members[|members| - 1];
      match (ReadClaims(members[..|members| - 1]), last.key, AsString(last.value))
      case (Some(m), Some(key), Some(s)) => Some(m[key := s])
      case _ => None
  }

  function ReadSubject(v: Value): Option<CredentialSubject> {
    match Record(v, ["id", "claims"], 2)
    case None => None
    case Some(ms) =>
      match (RequiredString(ms, "id"), Required(ms, "claims"))
      case (Some(id), Some(Obj(claims))) =>
        (match ReadClaims(claims)
         case None => None
         case Some(m) => Some(CredentialSubject(Did(id), m)))
      case _ => None
  }

  function ReadProof(v: Value): Option<Proof> {
    match Record(v, ["type", "verification_method", "created", "signature_hex"], 4)
    case None => None
    case Some(ms) =>
      match (RequiredString(ms, "type"), RequiredString(ms, "verification_method"),
             RequiredI64(ms, "created"), RequiredString(ms, "signature_hex"))
      case (Some(t), Some(method_), Some(created), Some(sig)) => Some(Proof(t, Did(method_), created, sig))
      case _ => None
  }

  function ReadOptionalProof(members: seq<Member>): Option<Option<Proof>> {
    match Optional(members, "proof")
    case None => None
    case Some(None) => Some(None)
    case Some(Some(v)) =>
      match ReadProof(v)
      case None => None
      case Some(p) => Some(Some(p))
  }

  const CREDENTIAL_FIELDS: seq<string> :=
    ["id", "type", "issuer", "subject", "issued_at", "expires_at", "proof"]

  /** Only the proof may be missing from an array. */
  function FromJson(v: Value): Option<VerifiableCredential> {
    match Record(v, CREDENTIAL_FIELDS, 6)
    case None => None
    case Some(ms) =>
      match (RequiredString(ms, "id"), RequiredString(ms, "type"), RequiredString(ms, "issuer"),
             Required(ms, "subject"), RequiredI64(ms, "issued_at"), OptionalI64(ms, "expires_at"),
             ReadOptionalProof(ms))
      case (Some(id), Some(ty), Some(issuer), Some(subject), Some(issued), Some(expires), Some(proof)) =>
        (match ReadSubject(subject)
         case None => None
         case Some(s) => Some(VerifiableCredential(id, ty, Did(issuer), s, issued, expires, proof)))
      case _ => None
  }

  function ParseCredential(text: string): Option<VerifiableCredential> {
    match Json.Parse(Utf8.Wire(text))
    case None => None
    case Some(v) => FromJson(v)
  }

  // --------------------------------------------------------------- signatures

  /** The raw signature; the hexadecimal text may be in either case. */
  function SignatureBytes(proof: Proof): Result<seq<byte>, VerifyError> {
    match Hex.Decode(proof.signatureHex)
    case None => Err(MalformedDid(LIBRARY_TEXT))
    case Some(raw) => if |raw| == SIGNATURE_LEN then Ok(raw) else Err(InvalidSignatureLength(|raw|))
  }

  function VerifySignature(scheme: Scheme, vc: VerifiableCredential): Result<(), VerifyError> {
    match vc.proof
    case None => Err(MissingProof)
    case Some(proof) =>
      if proof.verificationMethod != vc.issuer then Err(IssuerMismatch)
      else match KeyOf(scheme, vc.issuer)
        case Err(e) => Err(e)
        case Ok(key) =>
          match SignatureBytes(proof)
          case Err(e) => Err(e)
          case Ok(signature) =>
            if scheme.verify(key, SigningPayload(vc), signature) then Ok(()) else Err(SignatureInvalid)
  }

  /** A credential held by an issuer, which signs it in place. */
  class Draft {
    var vc: VerifiableCredential

    constructor (vc: VerifiableCredential)
      ensures this.vc == vc
    {
      this.vc := vc;
    }

    /** Attaches a proof made with `secret`; every other field stays. */
    method SignWith(scheme: Scheme, secret: seq<byte>, created: i64)
      modifies this
      ensures vc == old(vc).(proof := Some(Proof("Ed25519Signature2020", old(vc).issuer, created,
                                  Hex.Encode(scheme.sign(secret, SigningPayload(old(vc)))))))
      ensures SigningPayload(vc) == SigningPayload(old(vc))
      ensures scheme.Correct() && vc.issuer == OfKey(scheme.publicKey(secret))
              ==> VerifySignature(scheme, vc) == Ok(())
    {
      var payload := SigningPayload(vc);
      var signature := scheme.sign(secret, payload);
      ghost var before := vc;
      vc := vc.(proof := Some(Proof(PROOF_TYPE, vc.issuer, created, Hex.Encode(signature))));
      assert SignedSlots(vc) == SignedSlots(before);
      if scheme.Correct() {
        SignedVerifies(scheme, vc, secret);
      }
    }
  }

  /** A proof over the canonical payload by the key the issuer identifier prints verifies. */
  lemma {:induction false} SignedVerifies(scheme: Scheme, vc: VerifiableCredential, secret: seq<byte>)
    requires scheme.Correct() && vc.proof.Some? && vc.proof.value.verificationMethod == vc.issuer
    requires vc.proof.value.signatureHex == Hex.Encode(scheme.sign(secret, SigningPayload(vc)))
    ensures vc.issuer == OfKey(scheme.publicKey(secret)) ==> VerifySignature(scheme, vc) == Ok(())
  {
    var key := scheme.publicKey(secret);
    assert scheme.ValidKey(key);
    KeyOfExact(scheme, OfKey(key), key);
    Hex.DecodeEncode(scheme.sign(secret, SigningPayload(vc)));
  }

  /**
   * The proof names the issuer, the issuer is the printed form of a valid key, and the signature text
   * is 64 bytes of hexadecimal.
   */
  ghost predicate Presented(scheme: Scheme, vc: VerifiableCredential, key: seq<byte>, signature: seq<byte>) {
    && vc.proof.Some? && vc.proof.value.verificationMethod == vc.issuer
    && scheme.ValidKey(key) && vc.issuer == OfKey(key)
    && |signature| == 64 && Hex.AllHex(vc.proof.value.signatureHex)
    && Hex.LowerAll(vc.proof.value.signatureHex) == Hex.Encode(signature)
  }

  /** What acceptance means: such a proof, and the scheme accepts it for the canonical payload. */
  ghost predicate Proven(scheme: Scheme, vc: VerifiableCredential, key: seq<byte>, signature: seq<byte>) {
    Presented(scheme, vc, key, signature) && scheme.verify(key, SigningPayload(vc), signature)
  }

  lemma {:induction false} PresentedDecides(scheme: Scheme, vc: VerifiableCredential, key: seq<byte>,
                                            signature: seq<byte>)
    requires Presented(scheme, vc, key, signature)
    ensures VerifySignature(scheme, vc)
         == if scheme.verify(key, SigningPayload(vc), signature) then Ok(()) else Err(SignatureInvalid)
  {
    KeyOfExact(scheme, vc.issuer, key);
    Hex.DecodeExact(vc.proof.value.signatureHex, signature);
  }

  lemma {:induction false} VerifySignaturePresents(scheme: Scheme, vc: VerifiableCredential)
    returns (key: seq<byte>, signature: seq<byte>)
    requires VerifySignature(scheme, vc).Ok? || VerifySignature(scheme, vc) == Err(SignatureInvalid)
    ensures Presented(scheme, vc, key, signature)
  {
    NoEarlySignatureError(scheme, vc);
    key, signature := KeyOf(scheme, vc.issuer).value, SignatureBytes(vc.proof.value).value;
    KeyOfExact(scheme, vc.issuer, key);
    Hex.DecodeExact(vc.proof.value.signatureHex, signature);
  }

  lemma {:induction false} NoEarlySignatureError(scheme: Scheme, vc: VerifiableCredential)
    ensures KeyOf(scheme, vc.issuer) != Err(SignatureInvalid)
    ensures vc.proof.Some? ==> SignatureBytes(vc.proof.value) != Err(SignatureInvalid)
  {
  }

  lemma {:induction false} VerifySignatureExact(scheme: Scheme, vc: VerifiableCredential)
    ensures VerifySignature(scheme, vc).Ok? <==>
            exists key, signature :: Proven(scheme, vc, key, signature)
  {
    if VerifySignature(scheme, vc).Ok? {
      var key, signature := VerifySignaturePresents(scheme, vc);
      PresentedDecides(scheme, vc, key, signature);
      assert Proven(scheme, vc, key, signature);
    }
    if key, signature :| Proven(scheme, vc, key, signature) {
      PresentedDecides(scheme, vc, key, signature);
    }
  }

  /** A text is the hexadecimal form of some bytes, in either case. */
  ghost predicate HexOf(text: string, raw: seq<byte>) {
    Hex.AllHex(text) && Hex.LowerAll(text) == Hex.Encode(raw)
  }

  /** Why a signature text is refused: it is not hexadecimal, or not of 64 bytes. */
  lemma {:induction false} SignatureBytesErrors(proof: Proof, got: nat)
    ensures SignatureBytes(proof) == Err(MalformedDid(LIBRARY_TEXT)) <==> forall raw :: !HexOf(proof.signatureHex, raw)
    ensures SignatureBytes(proof) == Err(InvalidSignatureLength(got))
            <==> exists raw :: HexOf(proof.signatureHex, raw) && |raw| == got != 64
  {
    forall raw ensures Hex.Decode(proof.signatureHex) == Some(raw) <==> HexOf(proof.signatureHex, raw) {
      Hex.DecodeExact(proof.signatureHex, raw);
    }
  }

  /** The order of the errors: the proof, the issuer it names, the issuer's key, the signature text. */
  lemma {:induction false} VerifySignatureErrors(scheme: Scheme, vc: VerifiableCredential)
    ensures vc.proof.None? ==> VerifySignature(scheme, vc) == Err(MissingProof)
    ensures vc.proof.Some? && vc.proof.value.verificationMethod != vc.issuer ==>
              VerifySignature(scheme, vc) == Err(IssuerMismatch)
    ensures vc.proof.Some? && vc.proof.value.verificationMethod == vc.issuer && KeyOf(scheme, vc.issuer).Err? ==>
              VerifySignature(scheme, vc) == Err(KeyOf(scheme, vc.issuer).error)
    ensures vc.proof.Some? && vc.proof.value.verificationMethod == vc.issuer && KeyOf(scheme, vc.issuer).Ok?
            && SignatureBytes(vc.proof.value).Err? ==>
              VerifySignature(scheme, vc) == Err(SignatureBytes(vc.proof.value).error)
  {
  }

  /** A signature is refused only when everything that is checked before it is in order. */
  lemma {:induction false} SignatureInvalidExact(scheme: Scheme, vc: VerifiableCredential)
    ensures VerifySignature(scheme, vc) == Err(SignatureInvalid)
            <==> exists key, signature :: Presented(scheme, vc, key, signature) && !Proven(scheme, vc, key, signature)
  {
    if VerifySignature(scheme, vc) == Err(SignatureInvalid) {
      var key, signature := VerifySignaturePresents(scheme, vc);
      PresentedDecides(scheme, vc, key, signature);
      assert Presented(scheme, vc, key, signature) && !Proven(scheme, vc, key, signature);
    }
    if key, signature :| Presented(scheme, vc, key, signature) && !Proven(scheme, vc, key, signature) {
      PresentedDecides(scheme, vc, key, signature);
    }
  }

  /** Two accepted credentials with one proof were accepted under one key and one signature. */
  lemma {:induction false} SharedProof(scheme: Scheme, a: VerifiableCredential, b: VerifiableCredential,
                                       key: seq<byte>, signature: seq<byte>)
    requires VerifySignature(scheme, b).Ok? && a.proof == b.proof && Proven(scheme, a, key, signature)
    ensures a.issuer == b.issuer && Proven(scheme, b, key, signature)
  {
    var k, s := VerifySignaturePresents(scheme, b);
    assert Presented(scheme, b, key, signature);
    PresentedDecides(scheme, b, key, signature);
  }

  /**
   * A proof accepted for two credentials that differ in a signed field names one issuer, and the
   * scheme accepts that issuer's key and the proof's own signature for two different payloads.
   */
  lemma {:induction false} ProofBindsSignedFields(scheme: Scheme, a: VerifiableCredential, b: VerifiableCredential)
    requires VerifySignature(scheme, a).Ok? && VerifySignature(scheme, b).Ok?
    requires a.proof == b.proof && a.(proof := None) != b.(proof := None)
    ensures a.issuer == b.issuer && SigningPayload(a) != SigningPayload(b)
    ensures exists key, signature :: Proven(scheme, a, key, signature) && Proven(scheme, b, key, signature)
  {
    PayloadInjective(a, b);
    VerifySignatureExact(scheme, a);
    var key, signature :| Proven(scheme, a, key, signature);
    SharedProof(scheme, a, b, key, signature);
  }

  // --------------------------------------------------------------- round trip

  lemma {:induction false} ReadClaimsSnoc(members: seq<Member>, key: string, value: string)
    ensures ReadClaims(members + [Member(Some(key), Str(value))])
         == match ReadClaims(members) case None => None case Some(m) => Some(m[key := value])
  {
    var all := members + [Member(Some(key), Str(value))];
    assert all[..|all| - 1] == members;
  }

  /** The claims under the given keys. */
  function Restrict(keys: seq<string>, claims: map<string, string>): map<string, string>
    requires forall k :: k in keys ==> k in claims
  {
    map k | k in keys :: claims[k]
  }

  lemma {:induction false} RestrictSnoc(keys: seq<string>, last: string, claims: map<string, string>)
    requires forall k :: k in keys + [last] ==> k in claims
    ensures (forall k :: k in keys ==> k in keys + [last])
    ensures Restrict(keys + [last], claims) == Restrict(keys, claims)[last := claims[last]]
  {
    assert forall k :: k in keys ==> k in keys + [last];
    assert last in keys + [last];
  }

  lemma {:induction false} ReadClaimMembers(keys: seq<string>, claims: map<string, string>)
    requires forall k :: k in keys ==> k in claims
    ensures ReadClaims(ClaimMembers(keys, claims)) == Some(Restrict(keys, claims))
  {
    if |keys| > 0 {
      var init, last := keys[..|keys| - 1], keys[|keys| - 1];
      assert keys == init + [last];
      RestrictSnoc(init, last, claims);
      ReadClaimMembers(init, claims);
      ReadClaimsSnoc(ClaimMembers(init, claims), last, claims[last]);
    }
  }

  lemma {:induction false} ClaimsIntegral(keys: seq<string>, claims: map<string, string>)
    requires forall k :: k in keys ==> k in claims
    ensures Integral(Obj(ClaimMembers(keys, claims))) && |ClaimMembers(keys, claims)| == |keys|
  {
    if |keys| > 0 { ClaimsIntegral(keys[..|keys| - 1], claims); }
  }

  lemma {:induction false} SubjectRoundTrip(subject: CredentialSubject)
    ensures var v := Obj(Present(SubjectSlots(subject)));
      Integral(v) && ReadSubject(v) == Some(subject)
  {
    var slots := SubjectSlots(subject);
    var keys := Sorted(subject.claims.Keys);
    ReadClaimMembers(keys, subject.claims);
    assert Restrict(keys, subject.claims) == subject.claims;
    ClaimsIntegral(keys, subject.claims);
    PresentIntegral(slots);
    ReadSlot(slots, 0);
    ReadSlot(slots, 1);
  }

  lemma {:induction false} ProofRoundTrip(proof: Proof)
    ensures var v := Obj(Present(ProofSlots(proof)));
      Integral(v) && ReadProof(v) == Some(proof)
  {
    var slots := ProofSlots(proof);
    PresentIntegral(slots);
    ReadAll(slots);
    assert slots[0].key == "type" && slots[1].key == "verification_method"
        && slots[2].key == "created" && slots[3].key == "signature_hex";
  }

  lemma {:induction false} DocumentIntegral(vc: VerifiableCredential)
    ensures Integral(ToJson(vc)) && KeysAreText(ToJson(vc).members)
  {
    SubjectRoundTrip(vc.subject);
    if vc.proof.Some? { ProofRoundTrip(vc.proof.value); }
    PresentIntegral(DocumentSlots(vc));
  }

  /** What each key of a written document holds. */
  lemma {:induction false} DocumentFields(vc: VerifiableCredential)
    ensures var ms := ToJson(vc).members;
      && RequiredString(ms, "id") == Some(vc.id)
      && RequiredString(ms, "type") == Some(vc.credentialType)
      && RequiredString(ms, "issuer") == Some(vc.issuer.text)
      && Required(ms, "subject") == Some(Obj(Present(SubjectSlots(vc.subject))))
      && RequiredI64(ms, "issued_at") == Some(vc.issuedAt)
      && OptionalI64(ms, "expires_at") == Some(vc.expiresAt)
      && Optional(ms, "proof") == Some(ProofSlot(vc.proof).value)
  {
    var slots := DocumentSlots(vc);
    ReadAll(slots);
    assert slots[0].key == "id" && slots[1].key == "type" && slots[2].key == "issuer"
        && slots[3].key == "subject" && slots[4].key == "issued_at" && slots[5].key == "expires_at"
        && slots[6].key == "proof";
  }

  /** Reading a written document gives the credential it was written from. */
  lemma {:induction false} ValueRoundTrip(vc: VerifiableCredential)
    ensures Integral(ToJson(vc)) && FromJson(ToJson(vc)) == Some(vc)
  {
    DocumentIntegral(vc);
    DocumentFields(vc);
    SubjectRoundTrip(vc.subject);
    if vc.proof.Some? { ProofRoundTrip(vc.proof.value); }
  }

  /** Parsing the JSON text printed for any credential gives the same credential. */
  lemma {:induction false} DocumentRoundTrip(vc: VerifiableCredential)
    ensures ParseCredential(Print(ToJson(vc))) == Some(vc)
  {
    ValueRoundTrip(vc);
    JsonRoundTrip.DocumentRoundTrip(ToJson(vc));
  }

  lemma {:induction false} PresentSnocNone(slots: seq<Slot>, key: string)
    ensures Present(slots + [Slot(key, None)]) == Present(slots)
  {
    if |slots| > 0 {
      PresentSnocNone(slots[1..], key);
      assert (slots + [Slot(key, None)])[1..] == slots[1..] + [Slot(key, None)];
    } else {
      assert slots + [Slot(key, None)] == [Slot(key, None)];
      assert [Slot(key, None)][1..] == [];
    }
  }

  /** The payload is the document without its proof. */
  lemma {:induction false} PayloadIsUnsignedDocument(vc: VerifiableCredential)
    ensures SigningPayload(vc) == Utf8.Encode(Print(ToJson(vc.(proof := None))))
  {
    assert SignedSlots(vc) == SignedSlots(vc.(proof := None));
    PresentSnocNone(SignedSlots(vc), "proof");
  }

  /** Two credentials have the same payload exactly when they agree on every signed field. */
  lemma {:induction false} PayloadInjective(a: VerifiableCredential, b: VerifiableCredential)
    ensures SigningPayload(a) == SigningPayload(b) <==> a.(proof := None) == b.(proof := None)
  {
    PayloadIsUnsignedDocument(a);
    PayloadIsUnsignedDocument(b);
    if SigningPayload(a) == SigningPayload(b) {
      Utf8.Injective(Print(ToJson(a.(proof := None))), Print(ToJson(b.(proof := None))));
      DocumentRoundTrip(a.(proof := None));
      DocumentRoundTrip(b.(proof := None));
    }
  }
}
