/** The hard failures of parsing and signature checking, and their messages. */
module Errors {
  import opened Ed25519
  import Json

  /** Stands for the message of a codec library, which is not modelled. */
  const LIBRARY_TEXT := "(library message)"

  datatype VerifyError =
    | MalformedJwt
    | UnsupportedAlgorithm(alg: string)
    | UnknownKeyId(kid: string)
    | InvalidKey(detail: string)
    | SignatureInvalid
    | Base64
    | BadJson
    | MalformedDid(detail: string)
    | UnsupportedKeyType
    | InvalidKeyLength(got: nat)
    | InvalidSignatureLength(got: nat)
    | MissingProof
    | IssuerMismatch
  {
    function Message(): string {
      match this
      case MalformedJwt => "malformed JWT: expected exactly three dot-separated segments"
      case UnsupportedAlgorithm(alg) => "unsupported JWS algorithm: expected EdDSA, got " + alg
      case UnknownKeyId(kid) => "unknown key id: " + kid
      case InvalidKey(detail) => "invalid verifying key: " + detail
      case SignatureInvalid => "signature verification failed"
      case Base64 => "base64 decode error: " + LIBRARY_TEXT
      case BadJson => "json decode error: " + LIBRARY_TEXT
      case MalformedDid(detail) => "malformed did:key: " + detail
      case UnsupportedKeyType => "unsupported DID key type (only Ed25519 is supported)"
      case InvalidKeyLength(got) =>
        "invalid key length: expected " + Json.PrintNat(PUBLIC_KEY_LEN) + ", got " + Json.PrintNat(got)
      case InvalidSignatureLength(got) =>
        "invalid signature length: " + Json.PrintNat(got) + " (expected 64)"
      case MissingProof => "credential has no proof"
      case IssuerMismatch => "proof verification method does not match issuer"
    }
  }

  /** The messages of what goes wrong in decoding, with the library's words or the lengths in them. */
  lemma {:induction false} DecodingMessages(detail: string, got: nat)
    ensures Base64.Message() == "base64 decode error: " + LIBRARY_TEXT
    ensures BadJson.Message() == "json decode error: " + LIBRARY_TEXT
    ensures MalformedDid(detail).Message() == "malformed did:key: " + detail
    ensures InvalidKey(detail).Message() == "invalid verifying key: " + detail
    ensures UnsupportedKeyType.Message() == "unsupported DID key type (only Ed25519 is supported)"
    ensures InvalidKeyLength(got).Message() == "invalid key length: expected 32, got " + Json.PrintNat(got)
    ensures InvalidSignatureLength(got).Message()
         == "invalid signature length: " + Json.PrintNat(got) + " (expected 64)"
  {
    assert Json.PrintNat(32) == Json.PrintNat(3) + "2" == "3" + "2";
    assert "expected " + "32" == "expected 32";
    assert "invalid key length: expected " + Json.PrintNat(32) + ", got " == "invalid key length: expected 32, got ";
  }
}
