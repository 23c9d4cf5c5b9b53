/** What reading a credential means, member by member. */
module CredentialReading {
  import opened Wrappers
  import opened Json
  import JsonParsing
  import opened Fields
  import opened Credential
  import Utf8

  // -------------------------------------------------------------------------- claims

  /** The last member with a key. */
  ghost predicate LastAt(ms: seq<Member>, key: string, i: nat) {
    i < |ms| && ms[i].key == Some(key) && forall j :: i < j < |ms| ==> ms[j].key != Some(key)
  }

  predicate AllText(ms: seq<Member>) {
    forall i :: 0 <= i < |ms| ==> ms[i].key.Some? && ms[i].value.Str?
  }

  /** The map has the keys of the members, each with the value given last. */
  ghost predicate Collects(ms: seq<Member>, claims: map<string, string>)
    requires AllText(ms)
  {
    && (forall k :: k in claims ==> exists i: nat :: LastAt(ms, k, i))
    && (forall k, i: nat :: LastAt(ms, k, i) ==> k in claims && claims[k] == ms[i].value.s)
  }

  lemma {:induction false} CollectsUnique(ms: seq<Member>, a: map<string, string>, b: map<string, string>)
    requires AllText(ms) && Collects(ms, a) && Collects(ms, b)
    ensures a == b
  {
    forall k | k in a ensures k in b && a[k] == b[k] {
      var i: nat :| LastAt(ms, k, i);
    }
    forall k | k in b ensures k in a {
      var i: nat :| LastAt(ms, k, i);
    }
  }

  lemma {:induction false} LastSnoc(init: seq<Member>, last: Member, k: string, i: nat)
    requires last.key.Some?
    ensures LastAt(init + [last], k, i)
            <==> if k == last.key.value then i == |init| else LastAt(init, k, i)
  {
    var ms := init + [last];
    assert ms[|init|] == last;
    assert forall j :: 0 <= j < |init| ==> ms[j] == init[j];
  }

  lemma {:induction false} CollectsSnoc(init: seq<Member>, last: Member, claims: map<string, string>)
    requires AllText(init + [last]) && AllText(init) && Collects(init, claims)
    requires last.key.Some? && last.value.Str?
    ensures Collects(init + [last], claims[last.key.value := last.value.s])
  {
    var ms, more := init + [last], claims[last.key.value := last.value.s];
    forall k, i: nat ensures LastAt(ms, k, i)
                             <==> if k == last.key.value then i == |init| else LastAt(init, k, i) {
      LastSnoc(init, last, k, i);
    }
    assert LastAt(ms, last.key.value, |init|);
    forall k | k in more ensures exists i: nat :: LastAt(ms, k, i) {
      if k != last.key.value {
        var i: nat :| LastAt(init, k, i);
        assert LastAt(ms, k, i);
      }
    }
  }

  lemma {:induction false} ReadClaimsCollects(ms: seq<Member>)
    ensures ReadClaims(ms).Some? <==> AllText(ms)
    ensures AllText(ms) ==> Collects(ms, ReadClaims(ms).value)
  {
    if |ms| > 0 {
      var init, last := ms[..|ms| - 1], ms[|ms| - 1];
      assert ms == init + [last];
      ReadClaimsCollects(init);
      if AllText(ms) {
        assert forall i :: 0 <= i < |init| ==> init[i] == ms[i];
        CollectsSnoc(init, last, ReadClaims(init).value);
      }
    }
  }

  /** Claims are read from members exactly when all are texts, the last of each key counting. */
  lemma {:induction false} ReadClaimsExact(ms: seq<Member>, claims: map<string, string>)
    ensures ReadClaims(ms) == Some(claims) <==> AllText(ms) && Collects(ms, claims)
  {
    ReadClaimsCollects(ms);
    if AllText(ms) && Collects(ms, claims) {
      CollectsUnique(ms, claims, ReadClaims(ms).value);
    }
  }

  // ------------------------------------------------------------- subject and proof

  ghost predicate SubjectMembers(ms: seq<Member>, subject: CredentialSubject, claims: seq<Member>) {
    && Sole(ms, "id", Str(subject.id.text)) && Sole(ms, "claims", Obj(claims))
    && AllText(claims) && Collects(claims, subject.claims)
  }

  ghost predicate SubjectRead(v: Value, subject: CredentialSubject) {
    exists ms, claims :: Record(v, ["id", "claims"], 2) == Some(ms) && SubjectMembers(ms, subject, claims)
  }

  lemma {:induction false} ReadSubjectExact(v: Value, subject: CredentialSubject)
    ensures ReadSubject(v) == Some(subject) <==> SubjectRead(v, subject)
  {
    var record := Record(v, ["id", "claims"], 2);
    if record.Some? {
      var ms := record.value;
      RequiredTextExact(ms, "id", subject.id.text);
      forall claims ensures Required(ms, "claims") == Some(Obj(claims)) <==> Sole(ms, "claims", Obj(claims)) {
        RequiredExact(ms, "claims", Obj(claims));
      }
      forall claims ensures ReadClaims(claims) == Some(subject.claims)
                            <==> AllText(claims) && Collects(claims, subject.claims) {
        ReadClaimsExact(claims, subject.claims);
      }
      if ReadSubject(v) == Some(subject) {
        var claims := Required(ms, "claims").value.members;
        assert SubjectMembers(ms, subject, claims);
      }
    }
  }

  ghost predicate ProofRead(v: Value, proof: Proof) {
    exists ms :: Record(v, ["type", "verification_method", "created", "signature_hex"], 4) == Some(ms)
                 && Sole(ms, "type", Str(proof.proofType))
                 && Sole(ms, "verification_method", Str(proof.verificationMethod.text))
                 && Sole(ms, "created", Int(proof.created))
                 && Sole(ms, "signature_hex", Str(proof.signatureHex))
  }

  lemma {:induction false} ReadProofExact(v: Value, proof: Proof)
    ensures ReadProof(v) == Some(proof) <==> ProofRead(v, proof)
  {
    var record := Record(v, ["type", "verification_method", "created", "signature_hex"], 4);
    if record.Some? {
      var ms := record.value;
      RequiredTextExact(ms, "type", proof.proofType);
      RequiredTextExact(ms, "verification_method", proof.verificationMethod.text);
      RequiredNumberExact(ms, "created", proof.created);
      RequiredTextExact(ms, "signature_hex", proof.signatureHex);
    }
  }

  /** A proof that is missing or null is none. */
  ghost predicate OptionalProofRead(ms: seq<Member>, proof: Option<Proof>) {
    match proof
    case None => Holds(ms, "proof", None)
    case Some(p) => exists v :: Holds(ms, "proof", Some(v)) && ProofRead(v, p)
  }

  lemma {:induction false} ReadOptionalProofExact(ms: seq<Member>, proof: Option<Proof>)
    ensures ReadOptionalProof(ms) == Some(proof) <==> OptionalProofRead(ms, proof)
  {
    OptionalExact(ms, "proof", None);
    forall v ensures Optional(ms, "proof") == Some(Some(v)) <==> Holds(ms, "proof", Some(v)) {
      OptionalExact(ms, "proof", Some(v));
    }
    if proof.Some? {
      forall v ensures ReadProof(v) == Some(proof.value) <==> ProofRead(v, proof.value) {
        ReadProofExact(v, proof.value);
      }
      if ReadOptionalProof(ms) == Some(proof) {
        var v := Optional(ms, "proof").value.value;
        assert Holds(ms, "proof", Some(v)) && ProofRead(v, proof.value);
      }
    }
  }

  // ---------------------------------------------------------------------- documents

  ghost predicate TextsRead(ms: seq<Member>, vc: VerifiableCredential) {
    && Sole(ms, "id", Str(vc.id)) && Sole(ms, "type", Str(vc.credentialType)) && Sole(ms, "issuer", Str(vc.issuer.text))
    && Sole(ms, "issued_at", Int(vc.issuedAt))
    && Holds(ms, "expires_at", if vc.expiresAt.Some? then Some(Int(vc.expiresAt.value)) else None)
  }

  /** What the members of a credential say. */
  ghost predicate CredentialRead(ms: seq<Member>, vc: VerifiableCredential) {
    && TextsRead(ms, vc) && OptionalProofRead(ms, vc.proof)
    && exists v :: Sole(ms, "subject", v) && SubjectRead(v, vc.subject)
  }

  lemma {:induction false} TextsExact(ms: seq<Member>, vc: VerifiableCredential)
    ensures TextsRead(ms, vc) <==>
            && RequiredString(ms, "id") == Some(vc.id) && RequiredString(ms, "type") == Some(vc.credentialType)
            && RequiredString(ms, "issuer") == Some(vc.issuer.text) && RequiredI64(ms, "issued_at") == Some(vc.issuedAt)
            && OptionalI64(ms, "expires_at") == Some(vc.expiresAt)
  {
    RequiredTextExact(ms, "id", vc.id);
    RequiredTextExact(ms, "type", vc.credentialType);
    RequiredTextExact(ms, "issuer", vc.issuer.text);
    RequiredNumberExact(ms, "issued_at", vc.issuedAt);
    OptionalNumberExact(ms, "expires_at", vc.expiresAt);
  }

  lemma {:induction false} SubjectMemberExact(ms: seq<Member>, subject: CredentialSubject)
    ensures (Required(ms, "subject").Some? && ReadSubject(Required(ms, "subject").value) == Some(subject))
            <==> exists v :: Sole(ms, "subject", v) && SubjectRead(v, subject)
  {
    forall v ensures Required(ms, "subject") == Some(v) <==> Sole(ms, "subject", v) {
      RequiredExact(ms, "subject", v);
    }
    forall v ensures ReadSubject(v) == Some(subject) <==> SubjectRead(v, subject) {
      ReadSubjectExact(v, subject);
    }
    if Required(ms, "subject").Some? && ReadSubject(Required(ms, "subject").value) == Some(subject) {
      var v := Required(ms, "subject").value;
      assert Sole(ms, "subject", v) && SubjectRead(v, subject);
    }
  }

  const FIELDS: seq<string> := ["id", "type", "issuer", "subject", "issued_at", "expires_at", "proof"]

  /** A value is read as a credential exactly when the members it has as a record say so. */
  lemma {:induction false} FromJsonExact(v: Value, vc: VerifiableCredential)
    ensures FromJson(v) == Some(vc) <==> exists ms :: Record(v, FIELDS, 6) == Some(ms) && CredentialRead(ms, vc)
  {
    var record := Record(v, FIELDS, 6);
    if record.Some? {
      var ms := record.value;
      TextsExact(ms, vc);
      SubjectMemberExact(ms, vc.subject);
      ReadOptionalProofExact(ms, vc.proof);
    }
  }

  /** The text is JSON for a value that is read as this credential. */
  ghost predicate Describes(text: string, vc: VerifiableCredential, v: Value, ms: seq<Member>) {
    && JsonParsing.IsTextOf(Utf8.Wire(text), v)
    && Record(v, FIELDS, 6) == Some(ms) && CredentialRead(ms, vc)
  }

  /** The text is a document of the credential. */
  ghost predicate IsDocumentOf(text: string, vc: VerifiableCredential) {
    exists v, ms :: Describes(text, vc, v, ms)
  }

  /** A text is accepted as a credential exactly when it is JSON that describes it. */
  lemma {:induction false} ParseCredentialExact(text: string, vc: VerifiableCredential)
    ensures ParseCredential(text) == Some(vc) <==> IsDocumentOf(text, vc)
  {
    forall v ensures Json.Parse(Utf8.Wire(text)) == Some(v) <==> JsonParsing.IsTextOf(Utf8.Wire(text), v) {
      JsonParsing.ParseExact(Utf8.Wire(text), v);
    }
    forall v ensures FromJson(v) == Some(vc)
                     <==> exists ms :: Record(v, FIELDS, 6) == Some(ms) && CredentialRead(ms, vc) {
      FromJsonExact(v, vc);
    }
    if ParseCredential(text) == Some(vc) {
      var v := Json.Parse(Utf8.Wire(text)).value;
      var ms :| Record(v, FIELDS, 6) == Some(ms) && CredentialRead(ms, vc);
      assert Describes(text, vc, v, ms);
    }
  }
}
