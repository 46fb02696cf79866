/**
 The two cryptographic primitives the signer depends on: SHA-256
 (FIPS 180-4) and HMAC-SHA256 (RFC 2104). Their internals belong to the
 `sha2` and `hmac` crates and are not modelled; they enter the model as
 arbitrary functions whose only promise is the 32-byte output length.
 */
module Crypto {

  import opened Utf8

  /** A 32-byte SHA-256 output. */
  type Digest = d: seq<Byte> | |d| == 32
    witness seq(32, _ => 0)

  /** The primitives, supplied by the caller: any pair of functions with these types. */
  datatype Primitives = Primitives(
    sha256: seq<Byte> -> Digest,
    hmacSha256: (seq<Byte>, seq<Byte>) -> Digest)

  /**
   The `sign` helper of src/polly.rs: one HMAC-SHA256 of `message` under
   `key`. HMAC accepts keys of any length, so the key-construction error the
   source turns into a panic cannot occur and has no counterpart here.
   */
  function Sign(p: Primitives, key: seq<Byte>, message: seq<Byte>): (tag: seq<Byte>)
    ensures |tag| == 32
  {
    p.hmacSha256(key, message)
  }

  /** HMAC chaining: each message keyed by the tag of the previous step. */
  function Chain(p: Primitives, key: seq<Byte>, messages: seq<seq<Byte>>): (k: seq<Byte>)
    ensures messages != [] ==> |k| == 32
    ensures messages == [] ==> k == key
    decreases |messages|
  {
    if messages == [] then key else Chain(p, Sign(p, key, messages[0]), messages[1..])
  }
}
