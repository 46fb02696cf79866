# Polly request signing in Dafny

A model of the AWS Signature Version 4 signing that `PollyClient` in
`src/polly.rs` performs before it calls Amazon Polly's `SynthesizeSpeech`
endpoint, together with the pure parts of constructing the client and of
assembling the HTTP request.

- `Utf8`, `Hex`, `Fields`: the byte and text encodings the signer relies on
  (Rust's `as_bytes`, `hex::encode`, joining fields with a separator). `Hex`
  and `Fields` come with a reference inverse and both round trips; `Utf8`
  comes with a reference decoder that undoes encoding, which makes `as_bytes`
  injective.
- `Crypto`: SHA-256 and HMAC-SHA256 as parameters of the model (a `Primitives`
  value whose functions return 32-byte digests), the `sign` helper, and the
  chain of `sign` calls that derives a key from a credential path.
- `Timestamp`: a UTC instant and the two `chrono` format strings the signer
  uses, `%Y%m%d` and `%Y%m%dT%H%M%SZ`, with a reference parser for the
  second one.
- `SigV4`: `generate_aws_signature` step by step (canonical request,
  credential scope, string to sign, signing key, signature, `Authorization`
  value), plus a reference verifier `ExpectedSignature` that rebuilds the
  signature the way a receiving service does, from the credential in the
  header, the received host, the received `x-amz-date` and the body.
- `Polly`: `PollyClient::new` over an explicit environment, the request
  `synthesize_speech` builds as written, and a corrected variant.

The clock is read twice in the source (line 36 for the signature, line 107
for the `x-amz-date` header) and the model takes the two readings as two
separate `Instant` parameters. The signed host and region are the fixed
`us-west-2` values of lines 98-99, while the URL uses the endpoint built
from `AWS_REGION` (default `us-east-1`, lines 19-22). The model keeps the two
apart, and the "## Findings" section states what follows from each
mismatch.

The byte strings `b"polly"` and `b"aws4_request"` that the key chain signs
(lines 71-72) are kept as byte constants; a lemma ties the first to the
UTF-8 encoding of the service name in the credential scope, and the
reference verifier, after checking that the credential ends in
`aws4_request`, signs the same constant bytes.

`new` does not reject an empty `AWS_SECRET_ACCESS_KEY`; the model accepts
it and uses it as is. The only failure modelled for `new` is a missing
environment variable, checked in the order the code checks them.

## Model

| member | source | states |
|---|---|---|
| Utf8.DecodeEncode | src/polly.rs:45 | the bytes `as_bytes` yields for any string decode back to that string, so distinct payloads hash distinct byte strings |
| Utf8.EncodeAppend | src/polly.rs:69 | encoding a concatenation is the concatenation of the encodings, as used for the `AWS4` key prefix |
| Hex.Encode | src/polly.rs:45 | `hex::encode` output has two characters per byte, all from `0-9a-f` |
| Hex.DecodeEncode | src/polly.rs:45 | the hexadecimal form of any byte string decodes back to those bytes |
| Hex.EncodeDecode | src/polly.rs:73 | every even-length lowercase hexadecimal string is the encoding of the bytes it decodes to |
| Crypto.Sign | src/polly.rs:119-123 | the `sign` helper yields a 32-byte HMAC-SHA256 tag for every key, including keys of any length |
| Crypto.Chain | src/polly.rs:69-72 | folding `sign` over a non-empty list of messages yields a 32-byte key; over no messages it returns the starting key |
| Timestamp.DateStamp | src/polly.rs:37 | the `%Y%m%d` rendering of an instant, 8 characters; `Timestamp.AmzDateShape` states it is the first 8 characters of the `x-amz-date` stamp of the same instant |
| Timestamp.AmzDate | src/polly.rs:38 | the `%Y%m%dT%H%M%SZ` rendering of an instant, 16 characters; `Timestamp.ParseAmzDateOfAmzDate` and `Timestamp.AmzDateInjective` state that it determines the instant |
| Timestamp.AmzDateShape | src/polly.rs:36-38 | the `x-amz-date` stamp is 16 characters: the 8-digit date stamp of the same instant, `T`, six digits, `Z` |
| Timestamp.ParseAmzDateOfAmzDate | src/polly.rs:38 | the stamp of any valid instant parses back to that instant |
| Timestamp.AmzDateOfParseAmzDate | src/polly.rs:38 | any well-shaped stamp that parses is the stamp of the parsed instant |
| Timestamp.AmzDateInjective | src/polly.rs:38 | two valid instants have the same stamp exactly when they are the same instant |
| SigV4.PayloadHash | src/polly.rs:45 | the payload hash is 64 lowercase hexadecimal characters that decode to the SHA-256 digest of the payload's UTF-8 bytes |
| SigV4.CanonicalRequest | src/polly.rs:40-54 | the canonical request from host, stamp and payload hash; `SigV4Properties.CanonicalRequestLiteral` spells out its layout and `SigV4Properties.CanonicalRequestInjective` that it determines its three inputs |
| SigV4Properties.CanonicalRequestLiteral | src/polly.rs:40-54 | the canonical request is `POST`, `/v1/speech`, an empty query, the `host` and `x-amz-date` lines, a blank line, `host;x-amz-date`, and the payload hash, newline-separated |
| SigV4Properties.CanonicalRequestInjective | src/polly.rs:43-54 | for stamps and hashes of fixed length, equal canonical requests have equal hosts, stamps and payload hashes |
| SigV4Properties.CanonicalRequestEqualIff | src/polly.rs:43-54 | canonical requests with the same payload hash agree exactly when host and stamp agree |
| SigV4Properties.CanonicalRequestEndsWithPayloadHash | src/polly.rs:45-54 | the last 64 characters of the canonical request are the payload hash |
| SigV4Properties.CanonicalRequestSeparatesDigests | src/polly.rs:45-54 | payloads with different SHA-256 digests give different canonical requests |
| SigV4.CredentialScope | src/polly.rs:58 | the scope `<date>/<region>/polly/aws4_request`; `SigV4Properties.CredentialScopeFields` states it splits back into those four fields |
| SigV4Properties.CredentialScopeFields | src/polly.rs:58 | for a region without `/`, the credential scope splits into exactly date stamp, region, `polly`, `aws4_request` |
| SigV4.StringToSign | src/polly.rs:57-66 | the string to sign; `SigV4Properties.StringToSignFields` states it splits back into its four lines |
| SigV4Properties.StringToSignFields | src/polly.rs:57-66 | for a region without a newline, the string to sign has four lines: algorithm, `x-amz-date` stamp, credential scope, hex hash of the canonical request |
| SigV4.SigningKey | src/polly.rs:69-72 | the four chained `sign` calls, yielding a 32-byte key; `SigV4Properties.SigningKeyFollowsScope` states the chain follows the credential scope |
| SigV4Properties.SigningKeyRoot | src/polly.rs:69 | the first HMAC key is the bytes `AWS4` followed by the UTF-8 bytes of the secret |
| SigV4Properties.SigningKeyFollowsScope | src/polly.rs:69-72 | the signing key is the `sign` chain over the encodings of the date, region and service fields of the credential scope, in order, followed by the `b"aws4_request"` bytes, which are the encoding of its fourth field |
| SigV4Properties.ReferenceMatchesSigner | src/polly.rs:58-73 | for an access key and region without `/`, the reference verifier given the generated credential, host, stamp and payload returns the signer's signature over its own string to sign |
| SigV4.Signature | src/polly.rs:73 | the signature is 64 lowercase hexadecimal characters that decode to the HMAC of the string to sign under the signing key |
| SigV4.AuthorizationValue | src/polly.rs:76-83 | the header value from access key, scope and signature; `SigV4Properties.ReadAuthorizationValue` states the credential and signature read back from it |
| SigV4.GenerateAwsSignature | src/polly.rs:34-84 | `generate_aws_signature` with the clock read as a parameter; `SigV4Properties.ServiceAcceptsGeneratedSignature` states that a service rebuilding the signature from the header obtains the one in the header |
| SigV4Properties.AuthorizationValueLiteral | src/polly.rs:76-83 | the header value is the algorithm, ` Credential=`, access key `/` scope, `, SignedHeaders=host;x-amz-date, Signature=`, signature |
| SigV4Properties.ReadAuthorizationValue | src/polly.rs:76-83 | reading a generated header value back yields the credential `access key/scope` and the signature |
| SigV4Properties.ServiceAcceptsGeneratedSignature | src/polly.rs:34-84 | for an access key and region without `/`, a service that rebuilds the signature from the header's credential, the signed host, the stamp of the same instant and the payload obtains exactly the signature in the header |
| SigV4Properties.SignatureIgnoresAccessKey | src/polly.rs:69-83 | the access key appears only in the credential; the signature does not depend on it |
| Polly.New | src/polly.rs:18-31 | construction succeeds exactly when both keys are set; the endpoint uses `AWS_REGION` or `us-east-1`; a missing access key is reported before a missing secret |
| Polly.Endpoint | src/polly.rs:19-22 | the endpoint `https://polly.<region>.amazonaws.com` for `AWS_REGION` or `us-east-1`; `PollyProperties.EndpointRegionInverse` states the region reads back from it |
| PollyProperties.EndpointRegionInverse | src/polly.rs:19-22 | the endpoint reads back to the effective region, and every endpoint of that form is the endpoint of the region it names |
| PollyProperties.HostForInjective | src/polly.rs:19-22 | two regions give the same Polly host exactly when they are the same region |
| Polly.SynthesizeSpeechRequest | src/polly.rs:87-109 | the request `synthesize_speech` hands to the transport, as written; `PollyProperties.SynthesizeSpeechRequestSignsBody` states its parts and that its signature covers the body sent |
| Polly.SynthesizeSpeechRequestConsistent | src/polly.rs:87-109 | the request with one instant and one region; `PollyProperties.ConsistentRequestIsAccepted` states that a service accepts its signature |
| PollyProperties.SynthesizeSpeechRequestSignsBody | src/polly.rs:87-109 | the request is a `POST` to the endpoint's `/v1/speech` with body the serialised text, voice and `mp3`, `Content-Type: application/json`, a credential scoped to `us-west-2`/`polly`, and a signature that verifies against the fixed host, the stamp of the first clock read and the body actually sent |
| PollyProperties.TimestampHeaderMatchesIff | src/polly.rs:103-109 | the `x-amz-date` header equals the signed stamp exactly when both clock reads return the same instant |
| PollyProperties.UrlHostMatchesSignedHostIff | src/polly.rs:96-105 | the URL's host is the signed host exactly when the configured region is `us-west-2` |
| PollyProperties.ReceivedCanonicalRequestMatchesIff | src/polly.rs:96-109 | the canonical request a service rebuilds from the sent request equals the signed one exactly when the region is `us-west-2` and both clock reads agree |
| PollyProperties.DefaultRegionIsNotSignedRegion | src/polly.rs:19-22 | with `AWS_REGION` unset the request goes to `polly.us-east-1.amazonaws.com`, not to the signed host, and the rebuilt canonical request differs from the signed one |
| PollyProperties.MidnightClockReads | src/polly.rs:107 | with reads at 2023-12-31 23:59:59 and 2024-01-01 00:00:00 the header does not carry the signed stamp |
| PollyProperties.ConsistentRequestIsAccepted | src/polly.rs:87-109 | with one instant and one region the rebuilt canonical request is the signed one and the reference verifier reproduces the header's signature |
| PollyProperties.ConsistentRequestKeepsDestination | src/polly.rs:103-109 | the corrected request keeps the as-written URL, body and `x-amz-date` header |

## Left out

- Sending the request and reading the response (`send`, `text`, the `reqwest::Error` result, lines 103-114) are I/O and are not modelled; `synthesize_speech` is modelled up to the request it hands to the transport.
- The HTTP connection pool field of `PollyClient` and asynchronous execution carry no logic of their own.
- SHA-256 and HMAC-SHA256 are parameters whose only promised property is the 32-byte output; their internals belong to the `sha2` and `hmac` crates.
- The JSON serialisation by `serde_json` (key order, escaping) is a parameter applied to the three fields; the model fixes only which fields it receives.
- Reading the clock and the environment are parameters; an environment variable that is set but not Unicode is treated as unset, as `env::var` reports it as an error.
- Timestamp.Instant: years outside 0..9999, which `chrono` prints with a sign or more digits, are excluded by `Valid`.
- Timestamp.Strftime: only the six specifiers the signer uses (`%Y %m %d %H %M %S`) are rendered; any other specifier yields `None`.
- Polly.Authority: ports and user information in a URL are not modelled; the lemmas about hosts require region names made of lowercase letters, digits and dashes.
- SigV4Properties.CanonicalRequestSeparatesDigests: "a different payload changes the signature" holds only under collision resistance of SHA-256 and HMAC, so the lemma assumes distinct digests instead of distinct payloads.
- SigV4Properties.CredentialScopeFields: a region containing `/` makes the scope ambiguous; the lemma requires a region without one (so does ServiceAcceptsGeneratedSignature for the access key).
- Streaming audio, speech-mark metadata and a classification of errors are not implemented in `src/polly.rs` and are not modelled.
- Determinism of the signature for a fixed instant holds by construction: every signing member is a function of its inputs.
- `src/main.rs` wires the client to an HTTP route (an axum server with `POST /generate-tts` and `/voices` behind a CORS layer) and is not part of this model.
- Utf8.Decode: the reference decoder also accepts overlong byte forms (such as `C0 80` for the NUL character), so only decoding after encoding is promised, not encoding after decoding; the signer never decodes.

## Findings

| source | as written | input that shows it | evidently intended | confidence | as-written member | corrected member |
|---|---|---|---|---|---|---|
| src/polly.rs:96-105 | the signature is computed for host `polly.us-west-2.amazonaws.com` and region `us-west-2`, while the request goes to the endpoint built from `AWS_REGION` | `AWS_REGION` unset: URL host `polly.us-east-1.amazonaws.com`, signed host `polly.us-west-2.amazonaws.com` | sign for the host and region the request is sent to | high, not executed | PollyProperties.DefaultRegionIsNotSignedRegion | PollyProperties.ConsistentRequestIsAccepted |
| src/polly.rs:107 | the `x-amz-date` header comes from a second clock read, not from the instant the signature covers | first read 2023-12-31 23:59:59, second read 2024-01-01 00:00:00 | send the `amz_date` stamp that was signed | medium (needs a second boundary between the reads), not executed | PollyProperties.MidnightClockReads | PollyProperties.ConsistentRequestIsAccepted |

Both corrections are in `Polly.SynthesizeSpeechRequestConsistent`, which
takes one instant and one region; `PollyProperties.ConsistentRequestIsAccepted`
proves the service-side check succeeds for it and
`PollyProperties.ConsistentRequestKeepsDestination` that it still goes to the
configured endpoint with the same body.
