/**
 AWS Signature Version 4 for the one request shape the client sends
 (`generate_aws_signature` in src/polly.rs): the canonical request, the
 credential scope, the string to sign, the four-step HMAC key chain, the
 signature and the `Authorization` header value.
 */
module SigV4 {

  import opened Wrappers
  import opened Utf8
  import Hex
  import opened Crypto
  import opened Fields
  import opened Timestamp

  const Algorithm: string := "AWS4-HMAC-SHA256"
  const CanonicalUri: string := "/v1/speech"
  const CanonicalQueryString: string := ""
  const SignedHeaders: string := "host;x-amz-date"
  const Service: string := "polly"
  const ScopeTerminator: string := "aws4_request"

  /** The byte-string literals `b"polly"` and `b"aws4_request"` of the key chain. */
  const ServiceBytes: seq<Byte> := [0x70, 0x6F, 0x6C, 0x6C, 0x79]
  const TerminatorBytes: seq<Byte> := [0x61, 0x77, 0x73, 0x34, 0x5F, 0x72, 0x65, 0x71, 0x75, 0x65, 0x73, 0x74]

  /** The two canonical header lines, each newline-terminated. */
  function CanonicalHeaders(host: string, amzDate: string): string {
    "host:" + host + "\nx-amz-date:" + amzDate + "\n"
  }

  /** Lowercase hex of the SHA-256 of the UTF-8 bytes of `payload`. */
  function PayloadHash(p: Primitives, payload: string): (h: string)
    ensures |h| == 64 && Hex.IsLowerHex(h)
    ensures Hex.Decode(h) == Some(p.sha256(Encode(payload)))
  {
    Hex.DecodeEncode(p.sha256(Encode(payload)));
    Hex.Encode(p.sha256(Encode(payload)))
  }

  /** The canonical request: six newline-separated parts, as the source's `format!` lays them out. */
  function CanonicalRequest(host: string, amzDate: string, payloadHash: string): string {
    "POST" + "\n" + CanonicalUri + "\n" + CanonicalQueryString + "\n" + CanonicalHeaders(host, amzDate)
      + "\n" + SignedHeaders + "\n" + payloadHash
  }

  /** The credential scope `<date>/<region>/polly/aws4_request`. */
  function CredentialScope(date: string, region: string): string {
    date + "/" + region + "/" + Service + "/" + ScopeTerminator
  }

  /** The string to sign: four newline-separated fields. */
  function StringToSign(p: Primitives, amzDate: string, scope: string, canonicalRequest: string): string {
    Algorithm + "\n" + amzDate + "\n" + scope + "\n" + Hex.Encode(p.sha256(Encode(canonicalRequest)))
  }

  /** The signing key: four chained HMACs rooted in `"AWS4" + secret`. */
  function SigningKey(p: Primitives, secret: string, date: string, region: string): (k: seq<Byte>)
    ensures |k| == 32
  {
    var kDate := Sign(p, Encode("AWS4" + secret), Encode(date));
    var kRegion := Sign(p, kDate, Encode(region));
    var kService := Sign(p, kRegion, ServiceBytes);
    Sign(p, kService, TerminatorBytes)
  }

  /** The signature: lowercase hex of the HMAC of the string to sign under the signing key. */
  function Signature(p: Primitives, signingKey: seq<Byte>, stringToSign: string): (s: string)
    ensures |s| == 64 && Hex.IsLowerHex(s)
    ensures Hex.Decode(s) == Some(Sign(p, signingKey, Encode(stringToSign)))
  {
    Hex.DecodeEncode(Sign(p, signingKey, Encode(stringToSign)));
    Hex.Encode(Sign(p, signingKey, Encode(stringToSign)))
  }

  /** The text before the access key, and the text between the scope and the signature. */
  const CredentialPrefix: string := Algorithm + " Credential="
  const SignatureInfix: string := ", SignedHeaders=" + SignedHeaders + ", Signature="

  /** The `Authorization` header value assembled from its parts. */
  function AuthorizationValue(accessKey: string, scope: string, signature: string): string {
    CredentialPrefix + (accessKey + "/" + scope) + SignatureInfix + signature
  }

  /**
   `generate_aws_signature`: the `Authorization` header value for a request
   whose body is `payload`, signed for `host` and `region` at instant `now`
   (the source reads the clock; here the instant is a parameter).
   */
  function GenerateAwsSignature(p: Primitives, secret: string, accessKey: string,
                                payload: string, host: string, region: string, now: Instant): string
    requires now.Valid()
  {
    var date := DateStamp(now);
    var amzDate := AmzDate(now);
    var canonicalRequest := CanonicalRequest(host, amzDate, PayloadHash(p, payload));
    var scope := CredentialScope(date, region);
    var stringToSign := StringToSign(p, amzDate, scope, canonicalRequest);
    var signature := Signature(p, SigningKey(p, secret, date, region), stringToSign);
    AuthorizationValue(accessKey, scope, signature)
  }

  /**
   The reference reading of an `Authorization` value of this shape, as the
   receiving service performs it: the credential (access key and scope) and
   the 64-character signature, or `None` when the fixed parts do not match.
   */
  function ReadAuthorization(h: string): Option<(string, string)> {
    var n := |CredentialPrefix| + |SignatureInfix| + 64;
    if |h| < n then None
    else
      var infixStart := |h| - 64 - |SignatureInfix|;
      if h[..|CredentialPrefix|] != CredentialPrefix || h[infixStart..|h| - 64] != SignatureInfix
      then None
      else Some((h[|CredentialPrefix|..infixStart], h[|h| - 64..]))
  }

  /**
   The signature the receiving service expects, recomputed from what the
   request carries: the credential of the `Authorization` header, the
   received `Host` and `x-amz-date` values and the received body, together
   with the secret the service holds for the access key. The key is chained
   over the date, region and service of the path and then the fixed
   `aws4_request` bytes. `None` when the credential is not
   `<key>/<date>/<region>/<service>/aws4_request`.
   */
  function ExpectedSignature(p: Primitives, secret: string, credential: string,
                             receivedHost: string, receivedAmzDate: string, body: string): Option<string>
  {
    var path := Split(credential, '/');
    if |path| != 5 || path[4] != ScopeTerminator then None
    else
      var scope := Join(path[1..], '/');
      var canonicalRequest := CanonicalRequest(receivedHost, receivedAmzDate, PayloadHash(p, body));
      var stringToSign := StringToSign(p, receivedAmzDate, scope, canonicalRequest);
      var key := Chain(p, Encode("AWS4" + secret), EncodeAll(path[1..4]) + [TerminatorBytes]);
      Some(Hex.Encode(Sign(p, key, Encode(stringToSign))))
  }
}
