/** Ed25519 kept abstract: four functions, and the one thing assumed of them. */
module Ed25519 {
  import opened Wrappers

  const PUBLIC_KEY_LEN: nat := 32
  const SIGNATURE_LEN: nat := 64

  /**
   * `isKey` says which 32 bytes are the encoding of a usable point; `sign` takes the secret key and
   * the message; `verify` takes the public key, the message and the signature.
   */
  datatype Scheme = Scheme(
    isKey: seq<byte> -> bool,
    publicKey: seq<byte> -> seq<byte>,
    sign: (seq<byte>, seq<byte>) -> seq<byte>,
    verify: (seq<byte>, seq<byte>, seq<byte>) -> bool)
  {
    /** What the bytes of a verifying key look like. */
    predicate ValidKey(key: seq<byte>) {
      |key| == PUBLIC_KEY_LEN && isKey(key)
    }

    /** A correctly made signature verifies, and keys and signatures have their fixed lengths. */
    ghost predicate Correct() {
      && (forall secret :: ValidKey(publicKey(secret)))
      && (forall secret, message :: |sign(secret, message)| == SIGNATURE_LEN
                                    && verify(publicKey(secret), message, sign(secret, message)))
    }
  }
}
