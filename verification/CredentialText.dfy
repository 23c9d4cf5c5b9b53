/** The text of a credential, written out without the functions that print it. */
module CredentialText {
  import opened Wrappers
  import opened Json
  import opened Fields
  import opened Ordering
  import opened Credential
  import opened RecordText
  import Utf8

  /** One member for each key, in the order given. */
  function ClaimFields(keys: seq<string>, claims: map<string, string>): (texts: seq<string>)
    requires forall k :: k in keys ==> k in claims
    ensures |texts| == |keys| && forall i :: 0 <= i < |keys| ==> texts[i] == Field(keys[i], Quote(claims[keys[i]]))
  {
    if |keys| == 0 then [] else [Field(keys[0], Quote(claims[keys[0]]))] + ClaimFields(keys[1..], claims)
  }

  function NumberOrNull(n: Option<i64>): string {
    if n.Some? then PrintInt(n.value) else "null"
  }

  /** The keys of the claims, each once and in increasing order. */
  ghost predicate KeysInOrder(keys: seq<string>, claims: map<string, string>) {
    StrictlySorted(keys) && forall k :: k in keys <==> k in claims
  }

  function SubjectText(subject: CredentialSubject, keys: seq<string>): string
    requires forall k :: k in keys ==> k in subject.claims
  {
    Braced(FieldsText(["id", "claims"], [Quote(subject.id.text), Braced(ClaimFields(keys, subject.claims))]))
  }

  const SIGNED_KEYS: seq<string> := ["id", "type", "issuer", "subject", "issued_at", "expires_at"]
  const PROOF_KEYS: seq<string> := ["type", "verification_method", "created", "signature_hex"]

  /** The six values that are signed; an expiry that is not given is null. */
  function SignedTexts(vc: VerifiableCredential, keys: seq<string>): (texts: seq<string>)
    requires forall k :: k in keys ==> k in vc.subject.claims
    ensures |texts| == 6
  {
    [Quote(vc.id), Quote(vc.credentialType), Quote(vc.issuer.text), SubjectText(vc.subject, keys),
     PrintInt(vc.issuedAt), NumberOrNull(vc.expiresAt)]
  }

  function ProofText(proof: Proof): string {
    Braced(FieldsText(PROOF_KEYS, [Quote(proof.proofType), Quote(proof.verificationMethod.text),
                                   PrintInt(proof.created), Quote(proof.signatureHex)]))
  }

  lemma {:induction false} ClaimMembersAt(keys: seq<string>, claims: map<string, string>)
    requires forall k :: k in keys ==> k in claims
    ensures var ms := ClaimMembers(keys, claims);
      |ms| == |keys| && forall i :: 0 <= i < |keys| ==> ms[i] == Member(Some(keys[i]), Str(claims[keys[i]]))
  {
    if |keys| > 0 { ClaimMembersAt(keys[..|keys| - 1], claims); }
  }

  lemma {:induction false} ClaimsPrinted(keys: seq<string>, claims: map<string, string>)
    requires KeysInOrder(keys, claims)
    ensures Print(ClaimsValue(claims)) == Braced(ClaimFields(keys, claims))
  {
    SortedUnique(keys, Sorted(claims.Keys));
    ClaimMembersAt(keys, claims);
    MembersJoined(ClaimMembers(keys, claims), ClaimFields(keys, claims));
  }

  lemma {:induction false} SubjectPrinted(subject: CredentialSubject, keys: seq<string>)
    requires KeysInOrder(keys, subject.claims)
    ensures Print(Obj(Present(SubjectSlots(subject)))) == SubjectText(subject, keys)
  {
    ClaimsPrinted(keys, subject.claims);
    FullRecordPrinted(SubjectSlots(subject), ["id", "claims"],
                      [Quote(subject.id.text), Braced(ClaimFields(keys, subject.claims))]);
  }

  lemma {:induction false} ProofPrinted(proof: Proof)
    ensures Print(Obj(Present(ProofSlots(proof)))) == ProofText(proof)
  {
    FullRecordPrinted(ProofSlots(proof), PROOF_KEYS,
                      [Quote(proof.proofType), Quote(proof.verificationMethod.text),
                       PrintInt(proof.created), Quote(proof.signatureHex)]);
  }

  lemma {:induction false} SignedGiven(vc: VerifiableCredential, keys: seq<string>)
    requires KeysInOrder(keys, vc.subject.claims)
    ensures Given(SignedSlots(vc), SIGNED_KEYS, SignedTexts(vc, keys))
  {
    SubjectPrinted(vc.subject, keys);
  }

  /**
   * The signed bytes, written out: compact JSON of six fields in this order, the claims in the order
   * of their keys, and null for a missing expiry.
   */
  lemma {:induction false} PayloadText(vc: VerifiableCredential, keys: seq<string>)
    requires KeysInOrder(keys, vc.subject.claims)
    ensures SigningPayload(vc) == Utf8.Encode(Braced(FieldsText(SIGNED_KEYS, SignedTexts(vc, keys))))
  {
    SignedGiven(vc, keys);
    FullRecordPrinted(SignedSlots(vc), SIGNED_KEYS, SignedTexts(vc, keys));
  }

  /** The whole document: the signed fields, and the proof after them if there is one. */
  lemma {:induction false} DocumentText(vc: VerifiableCredential, keys: seq<string>)
    requires KeysInOrder(keys, vc.subject.claims)
    ensures vc.proof.None? ==> Print(ToJson(vc)) == Braced(FieldsText(SIGNED_KEYS, SignedTexts(vc, keys)))
    ensures vc.proof.Some? ==>
              Print(ToJson(vc)) == Braced(FieldsText(SIGNED_KEYS + ["proof"],
                                                     SignedTexts(vc, keys) + [ProofText(vc.proof.value)]))
  {
    SignedGiven(vc, keys);
    if vc.proof.Some? {
      ProofPrinted(vc.proof.value);
      FullRecordPrinted(DocumentSlots(vc), SIGNED_KEYS + ["proof"],
                        SignedTexts(vc, keys) + [ProofText(vc.proof.value)]);
    } else {
      PresentSnocNone(SignedSlots(vc), "proof");
      FullRecordPrinted(SignedSlots(vc), SIGNED_KEYS, SignedTexts(vc, keys));
    }
  }

  /** Every claims map has its keys in order, in one way. */
  lemma {:induction false} OrderedKeys(claims: map<string, string>, keys: seq<string>)
    ensures KeysInOrder(keys, claims) <==> keys == Sorted(claims.Keys)
  {
    if KeysInOrder(keys, claims) { SortedUnique(keys, Sorted(claims.Keys)); }
  }
}
