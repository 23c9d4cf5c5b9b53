# EdgeAuth: a verified model

EdgeAuth decides at the network edge whether a compact EdDSA token or a `did:key` credential is
acceptable. This project models the parts of it on which that decision rests, and the machinery that
keeps its key set fresh:

* **Codecs.** base58btc with its carry loops, base64url without padding, hexadecimal, UTF-8, the JSON
  that `serde_json` prints and parses, and how derived `serde` code turns records into objects and
  back. Nothing here is assumed: each codec is written out on bytes and characters, and has a
  definition beside it that does not mention how it computes: the number a text spells, the bits in
  order, the grammar of RFC 8259. The JSON parser reads bytes, so a member it ignores may hold what is
  no text.
* **Artifacts.** `did:key` identifiers, credentials with their canonical signing payload and detached
  proof, compact tokens and JSON Web Key Sets.
* **Decisions.** The checks of the verifier, the outcome it reports, per-request overrides, and the
  service that counts and publishes outcomes for many callers at once.
* **Refresh.** The circuit breaker, the retry loop with its machine arithmetic, and the cached key set,
  both as a class used by one caller and as atomic steps of any number of callers.

Ed25519 is abstract (`Ed25519.Scheme`): which 32 bytes are a key, the public key of a secret, signing
and verifying are arbitrary functions. The one hypothesis, `Scheme.Correct`, says that a correctly made
signature verifies and that keys and signatures have their lengths; it appears as a `requires` exactly
where something is signed. No claim about forgery is made; `ProofBindsSignedFields` says what a
proof moved to another credential would take: the issuer's key and the proof's own signature, accepted
for two different payloads.

## How it is built

Operations that the program runs as loops or in-place updates are methods and classes proved against
specification functions (`Positional.RebaseLoop` against `Rebase`, `Breaker.CircuitBreaker` against
`Breaker.Run` of its history, `Retry.Run` against `Outcome` and `Calls`, `Service.EdgeVerifier` and
`Provider.CachedJwksProvider` against the functions they orchestrate). The laws are lemmas about those
functions. A predicate such as `Jwt.Compact`, `Jwt.Signed`, `Credential.Proven`,
`VerifierLaws.Permitted` or `Policy.Window` says what is accepted without saying how it is found, and a
lemma ending in `Exact` connects it to the code in both directions.

| layer | files |
|---|---|
| codecs | `Alphabets`, `Positional`, `Base58`, `Base64Url`, `Base64Groups`, `Hex`, `Utf8`, `ByteOrder`, `Ordering`, `Segments` |
| JSON | `Json`, `JsonGrammar`, `JsonParsing`, `JsonRoundTrip`, `Fields`, `RecordText` |
| artifacts | `Ed25519`, `Errors`, `DidKey`, `Credential`, `CredentialText`, `CredentialReading`, `Jwt`, `TokenText`, `Scopes` |
| decisions | `Policy`, `Verifier`, `VerifierLaws`, `Overrides`, `Service` |
| refresh | `Backoff`, `Retry`, `Breaker`, `BreakerLaws`, `Provider`, `RefreshRuns` |

## Where the code and its documentation disagree

The model follows the code, and each disagreement is stated as a lemma.

* `crates/edgeauth-resilience/src/breaker.rs:36` promises a single trial call in the half-open state;
  `acquire` (line 96) admits every caller there, besides the call that ended the cooldown.
  `BreakerLaws.TwoTrials` is an instance, and `HalfOpenAdmitsAll` with `SingleTrialExact` says exactly
  when there is one trial: when no call follows the one that ended the cooldown.
* A success recorded by a call admitted before the trip closes an open breaker (lines 109-113), so
  "open lasts the whole cooldown" (lines 17 and 34) fails: `LateSuccessEndsCooldown` is an instance,
  and `CooldownExact` gives the exact condition under which a call is admitted during the cooldown.
* `crates/edgeauth-infra/src/service.rs:23-27` calls an override a tightening; it replaces the audience,
  and so can accept a token the base policy rejects. `Overrides.NeverLoosensExact` is the exact
  condition under which an override never does.
* `crates/edgeauth-resilience/src/retry.rs:35-43` saturates the power at 2^32 - 1 and truncates the
  capped milliseconds to 64 bits: `Backoff.BackoffExact` says exactly when the delay is the one the
  policy describes; `HugeCapTruncates` and `SaturatedPowerStalls` are instances where it is not.
* `now + leeway` and `now - leeway` are 64-bit sums: `Policy.StartedExact` and `NotEndedExact` say
  exactly when the checks mean what they say; `LargeLeewayRejects` is an instance where they do not, in
  which a larger leeway rejects, and `VerifierLaws.LeewayMonotoneExact` says exactly when none can.

## Model

| member | source | states |
|---|---|---|
| Positional.RebaseRoundTrip | crates/edgeauth-types/src/did.rs:34 | Rewriting digits in another base and back gives the same digit string, each leading zero kept, for all digits and bases |
| Positional.RebaseExact | crates/edgeauth-types/src/did.rs:34 | A changed base keeps the number spelled and the count of leading zeros, and is the only string of the new base that does |
| Positional.CarryPass | crates/edgeauth-types/src/did.rs:34 | The inner carry loops over a digit buffer, with the spill of new digits, compute multiply-and-add |
| Positional.DigitsLoop | crates/edgeauth-types/src/did.rs:34 | One carry pass for each input digit leaves exactly the digits of the input's value, without a leading zero |
| Positional.RebaseLoop | crates/edgeauth-types/src/did.rs:62-64 | The whole loop, leading zeros included, refines the arithmetic definition of changing the base |
| Base58.EncodeLoop | crates/edgeauth-types/src/did.rs:34 | The byte loop prints the base58btc text of the bytes |
| Base58.DecodeLoop | crates/edgeauth-types/src/did.rs:62-64 | The character loop decodes that text, and refuses any character outside the alphabet |
| Base58.AlphabetExact | crates/edgeauth-types/src/did.rs:34 | The value of a character is its place in the Bitcoin alphabet |
| Base58.EncodeExact | crates/edgeauth-types/src/did.rs:34 | The text of some bytes is the one text that spells in base 58 the number they spell in base 256, with a `1` for each leading zero byte |
| Base58.DecodeEncode | crates/edgeauth-types/src/did.rs:28-36 | Decoding a printed text gives the bytes, for all bytes |
| Base58.EncodeDecode | crates/edgeauth-types/src/did.rs:53-76 | Every text that decodes is the one printed for the bytes it decodes to |
| DidKey.FromVerifyingKey | crates/edgeauth-types/src/did.rs:28-36 | The buffers filled in place end up as the multibase text of the tagged key |
| DidKey.OfKeyText | crates/edgeauth-types/src/did.rs:28-36 | The identifier of a key is `did:key:z` and the base58 text of the bytes ed, 01 and the key |
| DidKey.VerifyingKey | crates/edgeauth-types/src/did.rs:53-76 | Prefix stripping and decoding step by step refine `KeyOf`, including every error |
| DidKey.KeyOfExact | crates/edgeauth-types/src/did.rs:28-76 | An identifier decodes to a key if and only if it is the text printed for that key and the key is valid: a bijection |
| DidKey.TextDecidesKey | crates/edgeauth-types/src/credential.rs:138 | Among identifiers that decode, comparing texts is comparing keys |
| DidKey.ParseExact | crates/edgeauth-types/src/did.rs:43-47 | Parsing accepts exactly the texts printed for valid keys and returns them unchanged |
| DidKey.MalformedExact | crates/edgeauth-types/src/did.rs:54-64 | An identifier is malformed if and only if it is the multibase text of no byte string |
| DidKey.LengthExact | crates/edgeauth-types/src/did.rs:65-74 | A wrong length is reported if and only if the text is that of a tagged key of that length, other than 32 |
| DidKey.TypeExact | crates/edgeauth-types/src/did.rs:65-75 | An unsupported type is reported if and only if the text spells another tag, or 32 tagged bytes that are no key |
| Base64Url.DecodeEncode | crates/edgeauth-types/src/jwt.rs:30-40 | Decoding an encoded byte string gives it back, for all byte strings |
| Base64Url.EncodeDecode | crates/edgeauth-types/src/jwt.rs:30-40 | Strictness: every accepted text is the encoding of its own bytes, so padding and stray trailing bits are refused |
| Base64Groups.AlphabetExact | crates/edgeauth-types/src/jwt.rs:30-40 | The value of a character is its place in the URL-safe alphabet (section 5 of RFC 4648) |
| Base64Groups.SextetsExact | crates/edgeauth-types/src/jwt.rs:30-40 | The groups of six bits are the bits of the octets in order, filled with zeros on the right, and nothing else is |
| Hex.DecodeEncode | crates/edgeauth-types/src/credential.rs:124 | Decoding a printed signature gives its bytes |
| Hex.EncodeAt | crates/edgeauth-types/src/credential.rs:124 | Each byte is printed as two lower-case digits, the high four bits first |
| Hex.ValueExact | crates/edgeauth-types/src/credential.rs:48 | What is a hexadecimal digit, in either case, and what it is worth |
| Hex.DecodeExact | crates/edgeauth-types/src/credential.rs:47-52 | A text decodes to some bytes if and only if it is hexadecimal and its lower-case form is their printed form |
| Utf8.DecodeEncode | crates/edgeauth-types/src/jwt.rs:255-258 | The bytes of a string decode to the string, for all strings |
| Utf8.EncodeDecode | crates/edgeauth-types/src/jwt.rs:255-258 | Bytes that are a string are the encoding of that string: overlong forms and surrogates are refused |
| Utf8.Injective | crates/edgeauth-types/src/credential.rs:105 | Different strings have different bytes |
| ByteOrder.OrderIsByteOrder | crates/edgeauth-types/src/credential.rs:25 | The order in which ordered maps and sets keep their strings, by bytes, is the order by characters used in the model |
| Ordering.SortedUnique | crates/edgeauth-types/src/credential.rs:25 | A sorted listing of a set of strings is unique, so the claims have one order |
| JsonParsing.ParseExact | crates/edgeauth-types/src/jwt.rs:255-258 | A text is accepted with a value if and only if the grammar of RFC 8259 derives it with that meaning: white space, escapes, surrogate pairs, numbers and nesting, and nothing after the value |
| JsonRoundTrip.PrintExact | crates/edgeauth-types/src/credential.rs:105 | The printed bytes of a value are the one compact text of the grammar for it: no white space, plain integers, and an escape only where one is due, in its short form if there is one |
| JsonRoundTrip.PrintParse | crates/edgeauth-types/src/credential.rs:105 | The bytes of a printed value parse back with exactly the bytes after it left over, through escapes, control characters, every character beyond ASCII and nesting |
| JsonRoundTrip.DocumentRoundTrip | crates/edgeauth-types/src/jwt.rs:307-310 | Parsing the bytes of a printed document gives the value it was printed from |
| JsonRoundTrip.PrintInjective | crates/edgeauth-types/src/credential.rs:105 | Different values have different texts |
| Fields.RecordExact | crates/edgeauth-types/src/jwt.rs:43-118 | A record is an object whose keys are text, or an array of its fields in their order, not too short and not too long |
| Fields.RequiredExact | crates/edgeauth-types/src/credential.rs:56-74 | A required field has a value if and only if its key is given exactly once, with that value |
| Fields.OptionalExact | crates/edgeauth-types/src/jwt.rs:44-118 | An optional field is read as none when missing or null, as a value when given once, and is refused when repeated |
| Credential.DocumentRoundTrip | crates/edgeauth-types/src/credential.rs:56-74 | Parsing the JSON printed for any credential, with or without proof and expiry, gives the same credential |
| CredentialText.PayloadText | crates/edgeauth-types/src/credential.rs:79-106 | The signed bytes, written out: six fields in the source's order, the claims in the order of their keys, and null for a missing expiry |
| CredentialText.DocumentText | crates/edgeauth-types/src/credential.rs:56-74 | The whole document, written out: the signed fields, and the proof after them only if there is one |
| CredentialText.OrderedKeys | crates/edgeauth-types/src/credential.rs:25 | The claims have their keys in order in exactly one way |
| CredentialReading.FromJsonExact | crates/edgeauth-types/src/credential.rs:20-74 | A value is read as a credential if and only if its members say so: each field once, proof and expiry missing or null for none, as an object or as an array of the fields |
| CredentialReading.ReadClaimsExact | crates/edgeauth-types/src/credential.rs:25 | The claims of a credential are the texts of its claims object, the last of each key counting |
| CredentialReading.ParseCredentialExact | crates/edgeauth-verifier/src/lib.rs:162-163 | A text is accepted as a credential if and only if it is JSON whose members describe that credential |
| Credential.PayloadIsUnsignedDocument | crates/edgeauth-types/src/credential.rs:79-106 | The signing payload is byte for byte the document without its proof |
| Credential.PayloadInjective | crates/edgeauth-types/src/credential.rs:79-106 | Two credentials have equal payloads if and only if they agree on every signed field, for all strings and claim maps |
| Credential.Draft.SignWith | crates/edgeauth-types/src/credential.rs:113-127 | Signing in place sets the proof and nothing else, leaves the payload as it was, and makes the signature check pass when the issuer is the signer |
| Credential.SignedVerifies | crates/edgeauth-types/src/credential.rs:113-145 | A proof made over the canonical payload with the issuer's key is accepted |
| Credential.VerifySignatureExact | crates/edgeauth-types/src/credential.rs:136-145 | Acceptance if and only if the proof names the issuer, the issuer prints a valid key, the hexadecimal is 64 bytes and the scheme accepts |
| Credential.SignatureBytesErrors | crates/edgeauth-types/src/credential.rs:47-52 | A signature text is malformed if and only if it is the hexadecimal form of no bytes, and of wrong length if and only if of other than 64 |
| Credential.VerifySignatureErrors | crates/edgeauth-types/src/credential.rs:136-145 | The order of the errors: no proof, another issuer, the issuer's key, the signature text |
| Credential.SignatureInvalidExact | crates/edgeauth-types/src/credential.rs:136-145 | The signature is what is refused if and only if everything before it is in order and the scheme does not accept |
| Credential.ProofBindsSignedFields | crates/edgeauth-types/src/credential.rs:136-145 | If one proof is accepted for two credentials that differ in a signed field, they name one issuer, and the scheme accepts that issuer's key and the proof's own signature for two different payloads |
| Segments.ThreeSegments | crates/edgeauth-types/src/jwt.rs:246-253 | The split at dots yields three given segments if and only if the text is those dot-free segments joined |
| Jwt.MalformedExact | crates/edgeauth-types/src/jwt.rs:246-253 | A token is malformed as a whole if and only if it does not have exactly two dots |
| Jwt.HeaderRoundTrip | crates/edgeauth-types/src/jwt.rs:44-53 | Reading a written header gives it back, absent optional fields included |
| Jwt.ClaimsRoundTrip | crates/edgeauth-types/src/jwt.rs:89-118 | Reading written claims gives them back: any mix of absent fields, one or many audiences, empty roles |
| Jwt.UnknownClaimIgnored | crates/edgeauth-types/src/jwt.rs:85-88 | A claim that is not a known one is ignored, wherever it stands in the object and whatever its value |
| TokenText.HeaderText | crates/edgeauth-types/src/jwt.rs:44-53 | The text of a header, written out: three fields in the source's order, absent ones left out |
| TokenText.ClaimsText | crates/edgeauth-types/src/jwt.rs:89-118 | The text of claims, written out: nine fields in the source's order, absent ones and empty roles left out, one or many audiences |
| TokenText.ReadHeaderExact | crates/edgeauth-types/src/jwt.rs:44-53 | A header is read from an object if and only if its members say so |
| TokenText.ReadClaimsExact | crates/edgeauth-types/src/jwt.rs:89-118 | Claims are read from an object if and only if its members say so: texts, 64-bit times, one or many audiences, roles missing or a list but never null |
| TokenText.ReadHeaderArray | crates/edgeauth-types/src/jwt.rs:44-53 | A header is read from an array if and only if its elements, in the order of the fields, say so |
| TokenText.ReadClaimsArray | crates/edgeauth-types/src/jwt.rs:89-118 | Claims are read from an array if and only if its elements, in the order of the fields, say so |
| TokenText.ReadNothingElse | crates/edgeauth-types/src/jwt.rs:255-258 | Nothing but an object or an array is read as a header or as claims |
| TokenText.FromBytesExact | crates/edgeauth-types/src/jwt.rs:255-258 | The bytes of a segment are read as a value if and only if they are JSON text of it |
| Jwt.FindExact | crates/edgeauth-types/src/jwt.rs:207-213 | The key found is the earliest with the id, or the only key when there is no id, and nothing else |
| Jwt.KeyOfJwkExact | crates/edgeauth-types/src/jwt.rs:153-187 | A JWK yields a key if and only if it is an Ed25519 key whose coordinate is the one printed for that valid key |
| Jwt.KeyOfJwkErrors | crates/edgeauth-types/src/jwt.rs:170-186 | Why a JWK yields no key, in order: another type, another curve, a coordinate that encodes nothing, one of another length, or no point |
| Jwt.JwkOfKeyExact | crates/edgeauth-types/src/jwt.rs:154-163 | The JWK made for a key yields the key, and has the given id, use and algorithm |
| Jwt.ParseMinted | crates/edgeauth-types/src/jwt.rs:245-317 | Parsing a minted token gives back its header, claims, signed text and signature |
| Jwt.VerifyMinted | crates/edgeauth-types/src/jwt.rs:281-317 | A minted EdDSA token verifies with every key set in which its key id finds the signer's key |
| Jwt.ParseExact | crates/edgeauth-types/src/jwt.rs:245-272 | Parsing accepts exactly the canonically encoded triples of a JSON header, JSON claims and 64 bytes, and the signed text is the token's own prefix |
| Jwt.SegmentErrors | crates/edgeauth-types/src/jwt.rs:255-258 | A header or claims segment is refused as base64 if and only if it encodes no bytes, and as JSON if and only if its bytes are no such record |
| Jwt.SignatureErrors | crates/edgeauth-types/src/jwt.rs:260-264 | A signature segment is refused if and only if it encodes no bytes, or not 64 of them |
| Jwt.ParseErrors | crates/edgeauth-types/src/jwt.rs:245-272 | The first refused segment gives the error: header, then claims, then signature |
| Jwt.CarriesUnique | crates/edgeauth-types/src/jwt.rs:245-272 | Two canonical texts are equal if and only if they carry the same three byte strings |
| Jwt.VerifyWithExact | crates/edgeauth-types/src/jwt.rs:281-292 | Verification succeeds if and only if the algorithm is EdDSA and the selected, well-formed key verifies the token's own text |
| Jwt.VerifyWithErrors | crates/edgeauth-types/src/jwt.rs:281-292 | Which error is reported, and that a refused signature means the token did resolve to a key |
| Scopes.WordsExact | crates/edgeauth-types/src/jwt.rs:123-128 | Splitting gives a list if and only if the text is some white-space spacing of that list of words |
| Scopes.WhitespaceExact | crates/edgeauth-types/src/jwt.rs:126 | White space is the twenty-five code points of the Unicode property |
| Scopes.ScopeOfWords | crates/edgeauth-types/src/jwt.rs:123-128 | Any set of words has a scope text that grants exactly that set |
| Scopes.GrantedAreWords | crates/edgeauth-verifier/src/lib.rs:88 | A required scope that is empty or holds white space is never satisfied |
| Scopes.ScopeListExact | crates/edgeauth-verifier/src/lib.rs:100 | The reported list is the one strictly sorted list of the granted scopes |
| Policy.ChecksAreWindow | crates/edgeauth-types/src/credential.rs:150-154 | Without overflow the two time checks are membership in [start - leeway, end + leeway) |
| Policy.StartedExact | crates/edgeauth-verifier/src/lib.rs:82 | The not-before check means what it says for every bound if and only if the 64-bit sum does not overflow |
| Policy.NotEndedExact | crates/edgeauth-verifier/src/lib.rs:81 | The same for the expiry check and the 64-bit difference |
| Policy.StartedMonotoneExact | crates/edgeauth-verifier/src/lib.rs:82 | Raising the leeway keeps the not-before check for every bound if and only if the sum stays on its side of the 64-bit range |
| Policy.NotEndedMonotoneExact | crates/edgeauth-verifier/src/lib.rs:81 | The same for the expiry check and the difference |
| Policy.LargeLeewayRejects | crates/edgeauth-types/src/credential.rs:150-154 | An input on which a larger leeway turns acceptance into rejection, by overflow |
| VerifierLaws.VerifyJwtExact | crates/edgeauth-verifier/src/lib.rs:66-105 | A token is valid if and only if it is an authentic compact text whose claims the policy permits and whose window passes the 64-bit time checks; without overflow, if and only if the widened window holds now |
| VerifierLaws.VerifyCredentialExact | crates/edgeauth-verifier/src/lib.rs:116-146 | A credential is valid if and only if it is proven, its issuer trusted, its window passes and its id is not revoked; without overflow, passing is the widened window holding now |
| VerifierLaws.FirstFailureExact | crates/edgeauth-verifier/src/lib.rs:38-56 | The reason names the first failing check of the ranking, and there is none if and only if all pass |
| VerifierLaws.JwtOutcomeWellFormed | crates/edgeauth-verifier/src/lib.rs:66-105 | Valid, all checks and no reason agree; nothing is reported of a token that is not authentic; the signature check means authentic |
| VerifierLaws.JwtReport | crates/edgeauth-verifier/src/lib.rs:79-104 | The report on an authentic token: its own subject, issuer and roles, its scopes in order, and the meaning of each single check |
| VerifierLaws.JwtRefusal | crates/edgeauth-verifier/src/lib.rs:67-73 | A token refused outright is reported with the message of what refused it |
| VerifierLaws.MalformedReason | crates/edgeauth-verifier/src/lib.rs:67-70 | The reason given for a token without exactly two dots |
| VerifierLaws.AlgorithmReason | crates/edgeauth-verifier/src/lib.rs:71-73 | The reason given for another algorithm |
| VerifierLaws.KeyIdReason | crates/edgeauth-verifier/src/lib.rs:71-73 | The reason given when the key set selects no key |
| VerifierLaws.SignatureReason | crates/edgeauth-verifier/src/lib.rs:71-73 | The reason given when the resolved key refuses the signature |
| VerifierLaws.CredentialOutcomeWellFormed | crates/edgeauth-verifier/src/lib.rs:116-146 | The same for credentials, the signature check meaning proven |
| VerifierLaws.CredentialReport | crates/edgeauth-verifier/src/lib.rs:125-145 | The report on a proven credential: its own subject and issuer, no scopes or roles, and the meaning of each single check |
| VerifierLaws.CredentialRefusal | crates/edgeauth-verifier/src/lib.rs:121-123 | A credential refused outright is reported with the message of what refused it |
| VerifierLaws.NoProofReason | crates/edgeauth-verifier/src/lib.rs:121-123 | The reason given for a credential without a proof |
| VerifierLaws.OtherProofReason | crates/edgeauth-verifier/src/lib.rs:121-123 | The reason given for a proof of another issuer |
| VerifierLaws.BadProofReason | crates/edgeauth-verifier/src/lib.rs:121-123 | The reason given when the issuer's key refuses the signature |
| Errors.DecodingMessages | crates/edgeauth-types/src/error.rs:18-74 | The messages of decoding errors, with the detail or the lengths in them |
| VerifierLaws.AcceptedInOneInterval | crates/edgeauth-verifier/src/lib.rs:79-93 | With all else fixed, the times at which a token is accepted are none, when it is not authentic or not permitted, or exactly the widened window of its own claims |
| VerifierLaws.LeewayMonotone | crates/edgeauth-verifier/src/lib.rs:81-82 | Raising the leeway never turns acceptance into rejection while each sum stays on its side of the 64-bit range |
| VerifierLaws.CredentialLeewayMonotone | crates/edgeauth-verifier/src/lib.rs:125 | The same for credentials |
| VerifierLaws.LeewayMonotoneExact | crates/edgeauth-verifier/src/lib.rs:81-82 | At a given time, raising the leeway loses no token under any policy if and only if each sum stays on its side of the 64-bit range |
| VerifierLaws.MintedAcceptance | crates/edgeauth-types/src/jwt.rs:302-317 | A minted token is accepted if and only if the policy permits its claims and its window passes; without overflow, passing is the widened window holding now |
| VerifierLaws.CredentialJsonDecides | crates/edgeauth-verifier/src/lib.rs:157-165 | A text that is a document of some credential gives that credential's outcome |
| VerifierLaws.CredentialJsonError | crates/edgeauth-verifier/src/lib.rs:157-165 | The call is an error, a JSON one, if and only if the text is a document of no credential |
| VerifierLaws.PrintedCredentialVerifies | crates/edgeauth-verifier/src/lib.rs:157-165 | Verifying the printed JSON of a credential is verifying the credential |
| Overrides.OverrideExact | crates/edgeauth-infra/src/service.rs:120-133 | A request accepts a token if and only if it is authentic, meets the base policy on issuer, revocation and time, is addressed to the override's audience or else the base one, and has the scopes of both |
| Overrides.StackedOverrides | crates/edgeauth-infra/src/service.rs:120-133 | Two overrides in turn are one override: scopes add up, the last audience set wins |
| Overrides.OverrideKeepsOtherChecks | crates/edgeauth-infra/src/service.rs:120-133 | What any override accepts passes every check of the base policy but the audience |
| Overrides.KeptAudienceTightens | crates/edgeauth-infra/src/service.rs:120-133 | An override that keeps the base audience accepts only what the base policy accepts |
| Overrides.UngrantableAcceptsNothing | crates/edgeauth-infra/src/service.rs:129 | A token accepted under an override shows that every scope demanded is a word |
| Overrides.LooseToken | crates/edgeauth-infra/src/service.rs:126-128 | For every override that replaces the base audience and whose scopes can be granted, a token it accepts and the base policy rejects |
| Overrides.NeverLoosensExact | crates/edgeauth-infra/src/service.rs:23-27 | An override never loosens the base policy if and only if it keeps the base audience or demands a scope no token can have |
| Overrides.CredentialsIgnoreOverrides | crates/edgeauth-infra/src/service.rs:150-160 | An override changes nothing for a credential: audience and scopes do not apply to it |
| Service.EdgeVerifier.constructor | crates/edgeauth-infra/src/service.rs:78-91 | All counters start at zero with an empty trail |
| Service.EdgeVerifier.Record | crates/edgeauth-infra/src/service.rs:174-202 | One event is published and one counter incremented, and every counter stays the number of its events modulo 2^64 |
| Service.EdgeVerifier.VerifyJwt | crates/edgeauth-infra/src/service.rs:137-144 | The outcome under the effective policy, recorded once; a malformed token counts as rejected |
| Service.EdgeVerifier.VerifyCredentialJson | crates/edgeauth-infra/src/service.rs:150-160 | The same for a credential; a document that does not parse is an error and leaves no trace |
| Service.EdgeVerifier.Stats | crates/edgeauth-infra/src/service.rs:164-171 | With no call beside it, each counter is the number of published events of its kind and verdict, modulo 2^64 |
| Service.EventExact | crates/edgeauth-infra/src/audit.rs:31-40 | An event carries the kind, verdict, subject, issuer and reason of the outcome and its time, each in its place |
| Service.CountersAgree | crates/edgeauth-infra/src/service.rs:174-202 | After any interleaving of callers each counter is the published events of its kind and verdict plus the calls between increment and publish, modulo 2^64 |
| Service.SnapshotAgrees | crates/edgeauth-infra/src/service.rs:164-171 | Loaded one after the other while callers run, each counter is what was published and in flight when that counter was loaded |
| Service.AloneIsVerifyJwt | crates/edgeauth-infra/src/service.rs:137-144 | A token call whose two atomic steps run with nothing between them does what the method does |
| Service.AloneIsVerifyCredential | crates/edgeauth-infra/src/service.rs:150-160 | The same for a credential call; one whose document does not parse changes nothing |
| Backoff.CheckedPowExact | crates/edgeauth-resilience/src/retry.rs:36 | Square-and-multiply yields the power if it fits in 32 bits and overflows if and only if it does not |
| Backoff.SaturatingPowExact | crates/edgeauth-resilience/src/retry.rs:36 | The saturating power is the power or 2^32 - 1, whichever is less |
| Backoff.ProductFits | crates/edgeauth-resilience/src/retry.rs:37-40 | The 128-bit product never saturates, whatever the policy |
| Backoff.AsMillisExact | crates/edgeauth-resilience/src/retry.rs:39-41 | Milliseconds are whole millions of nanoseconds, the rest dropped |
| Backoff.BackoffIsCapped | crates/edgeauth-resilience/src/retry.rs:35-43 | The delay in every case: the product with the power saturated at 2^32 - 1, capped, and cut to 64 bits |
| Backoff.BackoffExact | crates/edgeauth-resilience/src/retry.rs:35-43 | The delay is min(initial * multiplier^n, max) over unbounded integers if and only if the cap covers a saturated power and the result fits in 64 bits |
| Backoff.HugeCapTruncates | crates/edgeauth-resilience/src/retry.rs:42 | A policy whose delay the cast cuts to zero |
| Backoff.SaturatedPowerStalls | crates/edgeauth-resilience/src/retry.rs:36 | A policy whose delay a saturated power keeps below the cap |
| Backoff.BackoffAtMostMax | crates/edgeauth-resilience/src/retry.rs:41 | No delay exceeds the configured bound |
| Backoff.BackoffMonotone | crates/edgeauth-resilience/src/retry.rs:35-43 | Delays never shrink with the attempt, for a multiplier of at least one and a cap that fits in 64 bits |
| Retry.Run | crates/edgeauth-resilience/src/retry.rs:51-70 | The loop makes calls up to the first success or the configured maximum, a maximum of zero counting as one, returns the result of the last, and sleeps the delays of attempts 0, 1, ... in order, never after the last |
| Retry.SleepWithin | crates/edgeauth-resilience/src/retry.rs:56-69 | The sleeps of a run, fewer than the allowed attempts, last at most (attempts - 1) * max in all |
| Retry.CallsExact | crates/edgeauth-resilience/src/retry.rs:56-69 | The number of calls is the one number within the configured maximum, or one, such that all before the last fail and the last succeeds or reaches the maximum |
| Retry.CallsWithinMaximum | crates/edgeauth-resilience/src/retry.rs:56 | At most the configured maximum, a maximum of zero counting as one, and exactly that when every attempt fails |
| Retry.FailsExact | crates/edgeauth-resilience/src/retry.rs:56-69 | The run fails if and only if every allowed attempt fails, and then all of them were made |
| Retry.TotalSleepBound | crates/edgeauth-resilience/src/retry.rs:63-65 | The total sleep is at most the number of sleeps times the configured bound |
| Retry.TotalSleepGeometric | crates/edgeauth-resilience/src/retry.rs:63-65 | While no delay is capped, the total sleep is the closed form of the geometric series, and sleeps times the initial delay when the multiplier is one |
| Breaker.CircuitBreaker.State | crates/edgeauth-resilience/src/breaker.rs:80-86 | What is shown is the state the history leads to |
| Breaker.CircuitBreaker.Acquire | crates/edgeauth-resilience/src/breaker.rs:93-106 | Admission and the new state are those of the history with this call; a refusal changes nothing |
| Breaker.CircuitBreaker.RecordSuccess | crates/edgeauth-resilience/src/breaker.rs:109-113 | The new state is that of the history with this success |
| Breaker.CircuitBreaker.RecordFailure | crates/edgeauth-resilience/src/breaker.rs:116-134 | The new state is that of the history with this failure |
| BreakerLaws.HistoryDecides | crates/edgeauth-resilience/src/breaker.rs:93-134 | Closed if and only if there was no failure since the last success or fewer than the configured threshold; the counter is that number, up to the threshold |
| BreakerLaws.NeverSaturates | crates/edgeauth-resilience/src/breaker.rs:125 | The saturating increment never saturates |
| BreakerLaws.TripExact | crates/edgeauth-resilience/src/breaker.rs:116-134 | An operation opens the breaker if and only if it is a failure that ends a trial or meets the threshold |
| BreakerLaws.TripsSpaced | crates/edgeauth-resilience/src/breaker.rs:97-132 | Trips without a success between them are at least the open duration apart, for every history on a clock that does not run back |
| BreakerLaws.TripBound | crates/edgeauth-resilience/src/breaker.rs:97-132 | In a window without a success the breaker trips at most 1 + floor(window / open duration) times |
| BreakerLaws.CooldownExact | crates/edgeauth-resilience/src/breaker.rs:93-134 | During a cooldown a call is admitted if and only if failures since the last success are below the threshold; never without a success |
| BreakerLaws.OpenExact | crates/edgeauth-resilience/src/breaker.rs:93-134 | After a trip, until a success or a call past the cooldown, the breaker is open since that trip whatever fails late, and admits a call if and only if the cooldown of that trip is over |
| BreakerLaws.NotClosedExact | crates/edgeauth-resilience/src/breaker.rs:93-134 | A breaker that is not closed is open since its last trip until a call comes after the cooldown, and half-open from then on |
| BreakerLaws.LateFailureKeepsCooldown | crates/edgeauth-resilience/src/breaker.rs:132 | A history in which a failure after the cooldown does not start it again |
| BreakerLaws.LateSuccessEndsCooldown | crates/edgeauth-resilience/src/breaker.rs:109-113 | A history in which a late success ends the cooldown early |
| BreakerLaws.SingleTrialExact | crates/edgeauth-resilience/src/breaker.rs:96-101 | A half-open breaker has admitted at least one trial, and exactly one if and only if the latest operation is the call that ended the cooldown |
| BreakerLaws.HalfOpenAdmitsAll | crates/edgeauth-resilience/src/breaker.rs:96 | In half-open every further call is admitted and is one more trial; there is a single trial if and only if no call follows the one that ended the cooldown |
| BreakerLaws.TwoTrials | crates/edgeauth-resilience/src/breaker.rs:93-106 | A history with two trials in one half-open period |
| BreakerLaws.AttemptIsRun | crates/edgeauth-resilience/src/breaker.rs:93-134 | A failing attempt is an acquire and, if admitted, a failure in the history |
| BreakerLaws.LoadBound | crates/edgeauth-resilience/src/breaker.rs:93-134 | Failing attempts one at a time are admitted, in any window and after any history, at most threshold + floor(window / open duration) times |
| BreakerLaws.LoadBoundReached | crates/edgeauth-resilience/src/breaker.rs:93-134 | The bound is the least one: in every window some failing attempts reach it |
| Provider.CachedJwksProvider.Refresh | crates/edgeauth-infra/src/jwks.rs:127-156 | A refused refresh makes no request and keeps the cache; a failed one keeps the cache and records the failure; a successful one writes the decoded set |
| Provider.OutcomeExact | crates/edgeauth-infra/src/jwks.rs:132-138 | A refresh comes to the first set decoded within the allowed requests, else to the error of the last one, a timeout being one |
| Provider.AfterRefreshIsRun | crates/edgeauth-infra/src/jwks.rs:127-156 | The breaker after a refresh is the breaker after the operations it recorded |
| Provider.FetchesPerAdmission | crates/edgeauth-infra/src/jwks.rs:127-156 | Against a failing endpoint every admitted refresh makes exactly the allowed attempts |
| Provider.FetchBound | crates/edgeauth-infra/src/jwks.rs:127-156 | A failing endpoint gets at most attempts * (threshold + floor(window / open duration)) requests in any window |
| RefreshRuns.AloneIsRefresh | crates/edgeauth-infra/src/jwks.rs:127-156 | A refresh whose atomic steps run with nothing between them does what the sequential refresh does to the breaker and its log, the cache and the requests, admitted or refused |
| RefreshRuns.BreakerFollowsEvents | crates/edgeauth-infra/src/jwks.rs:127-156 | For every interleaving the shared breaker is in the state its logged operations lead to |
| RefreshRuns.EventsTimed | crates/edgeauth-resilience/src/breaker.rs:93-134 | On a clock that does not run back the logged operations are in order of time |
| RefreshRuns.ConcurrentTripsSpaced | crates/edgeauth-resilience/src/breaker.rs:97-132 | Trips keep their distance for every interleaving of refreshing callers |
| RefreshRuns.ConcurrentTripBound | crates/edgeauth-resilience/src/breaker.rs:97-132 | For every interleaving a window without a success sees at most 1 + floor(window / open duration) trips |
| RefreshRuns.ConcurrentCooldown | crates/edgeauth-resilience/src/breaker.rs:93-134 | For every interleaving a caller that asks during a cooldown is admitted if and only if failures since the last success are below the threshold |
| RefreshRuns.ConcurrentOpen | crates/edgeauth-resilience/src/breaker.rs:93-134 | For every interleaving, after a trip and until a success or a call past the cooldown, a caller is admitted if and only if the cooldown of that trip is over |
| RefreshRuns.AdmittedCounted | crates/edgeauth-infra/src/jwks.rs:128-130 | For every interleaving the admitted refreshes are exactly the admitted calls of the breaker log |
| RefreshRuns.CacheHistory | crates/edgeauth-infra/src/jwks.rs:123-156 | For every interleaving the cache is the initial set or the last one written, each write is a set decoded by the refresh that wrote it, no refresh writes twice, and none that failed decoded a set |
| RefreshRuns.FailedWritesNothing | crates/edgeauth-infra/src/jwks.rs:149-154 | In every run, a refresh that has failed, recorded or not, has written nothing and never will |
| RefreshRuns.RejectedDoesNothing | crates/edgeauth-infra/src/jwks.rs:128-130 | In every run a refused refresh adds its question to the breaker log and nothing else: until its caller begins another, the run is the run without that caller |
| RefreshRuns.RequestBound | crates/edgeauth-infra/src/jwks.rs:132-138 | For every interleaving the requests are at most the allowed attempts for each admitted call of the breaker log, and each belongs to one of them |

## Left out

- Ed25519 itself: curve points, key validity and unforgeability; the scheme is a parameter.
- Messages of the base64, base58, hex, JSON and Ed25519 libraries: every one of them is the same constant text.
- Failure of serialization: writing these records to memory cannot fail, so `signing_payload`, `sign_with` and `encode_jwt` return their value directly.
- Debug builds, in which an overflowing `now + leeway` panics; the wrapping sum of release builds is modelled.
- Decoding of a fetched key set: a request returns a decoded set or an error, and a timeout is one more error.
- The HTTP client, timers, and cancellation; time is a natural number of nanoseconds, and a refresh that is dropped part-way is a caller that takes no further step.
- Which of two concurrent refreshes is newer: the cache holds the last set written, which an older request may have fetched.
- `RateLimiter`: the algorithm belongs to another crate.
- The broadcast channel behind the audit trail, its capacity and lagging readers: the trail is an append-only sequence.
- Metrics, tracing, the GraphQL schema, the HTTP router, the playground, the command line, configuration and the wasm bindings.
- `StaticJwksProvider`, getters, builders and defaults, which would only add easy members.
