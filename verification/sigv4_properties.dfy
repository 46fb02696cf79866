/**
 Properties of the Signature Version 4 signer: the literal layout of the
 canonical request, what can be read back from each signed string, and how
 the key chain follows the credential scope.
 */
module SigV4Properties {

  import opened Wrappers
  import opened Utf8
  import Hex
  import opened Crypto
  import opened Fields
  import opened Timestamp
  import opened SigV4

  /** The fixed text before the host: method, URI, empty query, and the `host:` label. */
  lemma CanonicalRequestHead()
    ensures "POST" + "\n" + CanonicalUri + "\n" + CanonicalQueryString + "\n" + "host:" == "POST\n/v1/speech\n\nhost:"
  {
  }

  /** The fixed text after the timestamp: the headers' final newline, the blank line, the signed headers. */
  lemma CanonicalRequestTail(payloadHash: string)
    ensures "\n" + ("\n" + SignedHeaders + "\n" + payloadHash) == "\n\nhost;x-amz-date\n" + payloadHash
  {
    var fixed := "\n" + SignedHeaders + "\n";
    CanonicalRequestTailText();
    Assoc("\n", fixed, payloadHash);
  }

  lemma CanonicalRequestTailText()
    ensures "\n" + ("\n" + SignedHeaders + "\n") == "\n\nhost;x-amz-date\n"
  {
  }

  /** The canonical request spelled out, with the blank line from the headers' final newline. */
  lemma CanonicalRequestLiteral(host: string, amzDate: string, payloadHash: string)
    ensures CanonicalRequest(host, amzDate, payloadHash)
      == "POST\n/v1/speech\n\nhost:" + host + "\nx-amz-date:" + amzDate
         + "\n\nhost;x-amz-date\n" + payloadHash
  {
    var head, hostLabel, mid, nl := "POST" + "\n" + CanonicalUri + "\n" + CanonicalQueryString + "\n", "host:", "\nx-amz-date:", "\n";
    var rest := "\n" + SignedHeaders + "\n" + payloadHash;
    var v := hostLabel + host;
    var w := v + mid;
    var z := w + amzDate;
    assert CanonicalRequest(host, amzDate, payloadHash) == head + (z + nl) + rest;
    Assoc(head, hostLabel, host);
    Assoc(head, v, mid);
    Assoc(head, w, amzDate);
    Assoc(head, z, nl);
    Assoc(head + z, nl, rest);
    CanonicalRequestHead();
    CanonicalRequestTail(payloadHash);
    Assoc(head + z, "\n\nhost;x-amz-date\n", payloadHash);
  }

  /**
   A canonical request determines the host, the timestamp and the payload
   hash it was built from (timestamps and hashes have fixed lengths).
   */
  lemma CanonicalRequestInjective(h1: string, a1: string, p1: string,
                                  h2: string, a2: string, p2: string)
    requires |a1| == |a2| && |p1| == |p2|
    requires CanonicalRequest(h1, a1, p1) == CanonicalRequest(h2, a2, p2)
    ensures h1 == h2 && a1 == a2 && p1 == p2
  {
    CanonicalRequestLiteral(h1, a1, p1);
    CanonicalRequestLiteral(h2, a2, p2);
    var head, mid, tail := "POST\n/v1/speech\n\nhost:", "\nx-amz-date:", "\n\nhost;x-amz-date\n";
    ConcatCancel(head + h1 + mid + a1 + tail, p1, head + h2 + mid + a2 + tail, p2);
    ConcatCancel(head + h1 + mid + a1, tail, head + h2 + mid + a2, tail);
    ConcatCancel(head + h1 + mid, a1, head + h2 + mid, a2);
    ConcatCancel(head + h1, mid, head + h2, mid);
    ConcatCancel(head, h1, head, h2);
  }

  /** Over the same payload hash, two canonical requests agree exactly when host and timestamp agree. */
  lemma CanonicalRequestEqualIff(h1: string, a1: string, h2: string, a2: string, payloadHash: string)
    requires |a1| == |a2|
    ensures CanonicalRequest(h1, a1, payloadHash) == CanonicalRequest(h2, a2, payloadHash)
            <==> h1 == h2 && a1 == a2
  {
    if CanonicalRequest(h1, a1, payloadHash) == CanonicalRequest(h2, a2, payloadHash) {
      CanonicalRequestInjective(h1, a1, payloadHash, h2, a2, payloadHash);
    }
  }

  /** The last 64 characters of a canonical request are the payload hash. */
  lemma CanonicalRequestEndsWithPayloadHash(p: Primitives, host: string, amzDate: string, payload: string)
    ensures var cr := CanonicalRequest(host, amzDate, PayloadHash(p, payload));
      |cr| >= 64 && cr[|cr| - 64..] == PayloadHash(p, payload)
  {
    CanonicalRequestLiteral(host, amzDate, PayloadHash(p, payload));
  }

  /** For a fixed host and timestamp, payloads with distinct digests give distinct canonical requests. */
  lemma CanonicalRequestSeparatesDigests(p: Primitives, host: string, amzDate: string,
                                         payload1: string, payload2: string)
    requires p.sha256(Encode(payload1)) != p.sha256(Encode(payload2))
    ensures CanonicalRequest(host, amzDate, PayloadHash(p, payload1))
         != CanonicalRequest(host, amzDate, PayloadHash(p, payload2))
  {
    if CanonicalRequest(host, amzDate, PayloadHash(p, payload1))
       == CanonicalRequest(host, amzDate, PayloadHash(p, payload2)) {
      CanonicalRequestInjective(host, amzDate, PayloadHash(p, payload1),
                                host, amzDate, PayloadHash(p, payload2));
      Hex.EncodeInjective(p.sha256(Encode(payload1)), p.sha256(Encode(payload2)));
    }
  }

  /** Neither stamp of a valid instant contains a separator used by the signer. */
  lemma StampsSeparatorFree(t: Instant)
    requires t.Valid()
    ensures '/' !in DateStamp(t) && '\n' !in DateStamp(t) && '/' !in AmzDate(t) && '\n' !in AmzDate(t)
  {
    AmzDateShape(t);
    var a := AmzDate(t);
    assert forall i :: 0 <= i < |a| ==> a[i] != '/' && a[i] != '\n' by {
      forall i | 0 <= i < |a| ensures a[i] != '/' && a[i] != '\n' {
        if i != 8 && i != 15 {
          assert IsDigit(a[i]);
        }
      }
    }
    assert forall i :: 0 <= i < 8 ==> DateStamp(t)[i] == a[i];
  }

  /** The fixed components of the scope contain neither separator. */
  lemma ScopeConstantsSeparatorFree()
    ensures '/' !in Service && '\n' !in Service
    ensures '/' !in ScopeTerminator && '\n' !in ScopeTerminator
  {
  }

  /**
   Read as a slash-separated path, the credential scope is exactly the date,
   the region, `polly` and `aws4_request`.
   */
  lemma CredentialScopeFields(t: Instant, region: string)
    requires t.Valid() && '/' !in region
    ensures Split(CredentialScope(DateStamp(t), region), '/')
      == [DateStamp(t), region, Service, ScopeTerminator]
  {
    ScopeConstantsSeparatorFree();
    StampsSeparatorFree(t);
    SplitFour(DateStamp(t), region, Service, ScopeTerminator, '/');
  }

  /**
   Read as newline-separated lines, the string to sign is exactly four fields:
   the algorithm, the timestamp, the scope and the canonical request's digest.
   */
  lemma StringToSignFields(p: Primitives, t: Instant, region: string, canonicalRequest: string)
    requires t.Valid() && '\n' !in region
    ensures var scope := CredentialScope(DateStamp(t), region);
      Split(StringToSign(p, AmzDate(t), scope, canonicalRequest), '\n')
      == [Algorithm, AmzDate(t), scope, Hex.Encode(p.sha256(Encode(canonicalRequest)))]
  {
    var scope := CredentialScope(DateStamp(t), region);
    var digest := Hex.Encode(p.sha256(Encode(canonicalRequest)));
    StampsSeparatorFree(t);
    ScopeConstantsSeparatorFree();
    assert '\n' !in scope;
    assert '\n' !in digest by {
      assert forall i :: 0 <= i < |digest| ==> Hex.IsHexChar(digest[i]);
    }
    assert '\n' !in Algorithm;
    SplitFour(Algorithm, AmzDate(t), scope, digest, '\n');
  }

  /** The root key is the bytes of `AWS4` followed by the bytes of the secret. */
  lemma SigningKeyRoot(secret: string)
    ensures Encode("AWS4" + secret) == [0x41, 0x57, 0x53, 0x34] + Encode(secret)
  {
    EncodeAppend("AWS4", secret);
    EncodeAscii("AWS4");
  }

  /** The byte literal `b"polly"` is the UTF-8 encoding of the service name. */
  lemma ServiceBytesSpelling()
    ensures Encode(Service) == ServiceBytes
  {
  }

  /** The byte literal `b"aws4_request"` is the UTF-8 encoding of the scope's last field. */
  lemma TerminatorBytesSpelling()
    ensures Encode(ScopeTerminator) == TerminatorBytes
  {
    EncodeAsciiBytes(ScopeTerminator, TerminatorBytes);
  }

  /**
   The key chain is four HMAC steps, whatever the inputs' sizes: starting from
   `AWS4` + secret, it absorbs the date, the region and `polly`, the first
   three components of the credential scope, and then the bytes `aws4_request`.
   */
  lemma SigningKeyChain(p: Primitives, secret: string, t: Instant, region: string)
    requires t.Valid() && '/' !in region
    ensures var path := Split(CredentialScope(DateStamp(t), region), '/');
      && |path| == 4 && path[3] == ScopeTerminator
      && SigningKey(p, secret, DateStamp(t), region)
         == Chain(p, Encode("AWS4" + secret), EncodeAll(path[..3]) + [TerminatorBytes])
  {
    CredentialScopeFields(t, region);
    var path: seq<string> := [DateStamp(t), region, Service, ScopeTerminator];
    assert path[..3] == [DateStamp(t), region, Service];
    var ms: seq<seq<Byte>> := EncodeAll(path[..3]) + [TerminatorBytes];
    assert |ms[1..][1..][1..][1..]| == 0;
    var root := Encode("AWS4" + secret);
    var kDate := Sign(p, root, Encode(DateStamp(t)));
    var kRegion := Sign(p, kDate, Encode(region));
    var kService := Sign(p, kRegion, ServiceBytes);
    ServiceBytesSpelling();
    assert Chain(p, root, ms) == Chain(p, kDate, ms[1..]);
    assert Chain(p, kDate, ms[1..]) == Chain(p, kRegion, ms[1..][1..]);
    assert Chain(p, kRegion, ms[1..][1..]) == Chain(p, kService, ms[1..][1..][1..]);
  }

  /**
   The signing key follows the credential scope field by field: the chain
   absorbs the encodings of its first three fields, and the bytes it absorbs
   last are the encoding of the fourth, `aws4_request`.
   */
  lemma SigningKeyFollowsScope(p: Primitives, secret: string, t: Instant, region: string)
    requires t.Valid() && '/' !in region
    ensures var path := Split(CredentialScope(DateStamp(t), region), '/');
      && |path| == 4 && path[3] == ScopeTerminator && Encode(path[3]) == TerminatorBytes
      && SigningKey(p, secret, DateStamp(t), region)
         == Chain(p, Encode("AWS4" + secret), EncodeAll(path[..3]) + [TerminatorBytes])
  {
    SigningKeyChain(p, secret, t, region);
    TerminatorBytesSpelling();
  }

  /** The `Authorization` value spelled out. */
  lemma AuthorizationValueLiteral(accessKey: string, scope: string, signature: string)
    ensures AuthorizationValue(accessKey, scope, signature)
      == "AWS4-HMAC-SHA256 Credential=" + accessKey + "/" + scope
         + ", SignedHeaders=host;x-amz-date, Signature=" + signature
  {
    AuthorizationConstants();
    Assoc(CredentialPrefix, accessKey + "/", scope);
    Assoc(CredentialPrefix, accessKey, "/");
  }

  /** The fixed parts of the `Authorization` value spelled out. */
  lemma AuthorizationConstants()
    ensures CredentialPrefix == "AWS4-HMAC-SHA256 Credential="
    ensures SignatureInfix == ", SignedHeaders=host;x-amz-date, Signature="
  {
    CredentialPrefixSpelling();
    SignatureInfixSpelling();
  }

  lemma CredentialPrefixSpelling()
    ensures CredentialPrefix == "AWS4-HMAC-SHA256 Credential="
  {
  }

  lemma SignatureInfixSpelling()
    ensures SignatureInfix == ", SignedHeaders=host;x-amz-date, Signature="
  {
  }

  /** An `Authorization` value reads back to its credential and signature. */
  lemma ReadAuthorizationValue(accessKey: string, scope: string, signature: string)
    requires |signature| == 64
    ensures ReadAuthorization(AuthorizationValue(accessKey, scope, signature))
      == Some((accessKey + "/" + scope, signature))
  {
    var h := AuthorizationValue(accessKey, scope, signature);
    var cred := accessKey + "/" + scope;
    Slices3(CredentialPrefix + cred, SignatureInfix, signature);
    assert h == CredentialPrefix + cred + (SignatureInfix + signature);
    Slices3(CredentialPrefix, cred, SignatureInfix + signature);
  }

  /** The credential splits into the access key and the four scope components. */
  lemma CredentialPath(accessKey: string, t: Instant, region: string)
    requires t.Valid() && '/' !in accessKey && '/' !in region
    ensures var scope := CredentialScope(DateStamp(t), region);
      var path := Split(accessKey + "/" + scope, '/');
      && path == [accessKey, DateStamp(t), region, Service, ScopeTerminator]
      && Join(path[1..], '/') == scope
  {
    var scope := CredentialScope(DateStamp(t), region);
    CredentialScopeFields(t, region);
    var scopePath := [DateStamp(t), region, Service, ScopeTerminator];
    SplitPrefix(accessKey, '/', scope);
    assert accessKey + "/" + scope == accessKey + ['/'] + scope;
    assert ([accessKey] + scopePath)[1..] == scopePath;
    JoinSplit(scope, '/');
  }

  /**
   The reference verifier, given the credential `<accessKey>/<scope>`, the
   host, the timestamp and the body, computes the signer's signature: the
   key it derives from the parsed path is the signer's key chain, and the
   string it signs is the signer's string to sign.
   */
  lemma ReferenceMatchesSigner(p: Primitives, secret: string, accessKey: string,
                               payload: string, host: string, region: string, t: Instant)
    requires t.Valid()
    requires '/' !in accessKey && '/' !in region
    ensures var date, amzDate := DateStamp(t), AmzDate(t);
      var scope := CredentialScope(date, region);
      var sts := StringToSign(p, amzDate, scope, CanonicalRequest(host, amzDate, PayloadHash(p, payload)));
      ExpectedSignature(p, secret, accessKey + "/" + scope, host, amzDate, payload)
      == Some(Signature(p, SigningKey(p, secret, date, region), sts))
  {
    var date, amzDate := DateStamp(t), AmzDate(t);
    var scope := CredentialScope(date, region);
    var sts := StringToSign(p, amzDate, scope, CanonicalRequest(host, amzDate, PayloadHash(p, payload)));
    var key := SigningKey(p, secret, date, region);
    var cred := accessKey + "/" + scope;
    CredentialPath(accessKey, t, region);
    var path := Split(cred, '/');
    SigningKeyChain(p, secret, t, region);
    CredentialScopeFields(t, region);
    assert path[1..] == Split(scope, '/');
    assert path[1..4] == Split(scope, '/')[..3];
    assert Chain(p, Encode("AWS4" + secret), EncodeAll(path[1..4]) + [TerminatorBytes]) == key;
    assert |path| == 5 && path[4] == ScopeTerminator;
  }

  /**
   The header `generate_aws_signature` produces is accepted by a service that
   receives the same host, timestamp and body: the credential it carries is
   `<accessKey>/<date>/<region>/polly/aws4_request`, and recomputing the
   signature from that credential alone gives the signature it carries.
   */
  lemma ServiceAcceptsGeneratedSignature(p: Primitives, secret: string, accessKey: string,
                                         payload: string, host: string, region: string, t: Instant)
    requires t.Valid()
    requires '/' !in accessKey && '/' !in region
    ensures var h := GenerateAwsSignature(p, secret, accessKey, payload, host, region, t);
      && ReadAuthorization(h).Some?
      && Split(ReadAuthorization(h).value.0, '/')
         == [accessKey, DateStamp(t), region, Service, ScopeTerminator]
      && ExpectedSignature(p, secret, ReadAuthorization(h).value.0, host, AmzDate(t), payload)
         == Some(ReadAuthorization(h).value.1)
  {
    var date, amzDate := DateStamp(t), AmzDate(t);
    var scope := CredentialScope(date, region);
    var sts := StringToSign(p, amzDate, scope, CanonicalRequest(host, amzDate, PayloadHash(p, payload)));
    var sig := Signature(p, SigningKey(p, secret, date, region), sts);
    assert GenerateAwsSignature(p, secret, accessKey, payload, host, region, t)
      == AuthorizationValue(accessKey, scope, sig);
    ReadAuthorizationValue(accessKey, scope, sig);
    CredentialPath(accessKey, t, region);
    ReferenceMatchesSigner(p, secret, accessKey, payload, host, region, t);
  }

  /** The signature part of the header does not depend on the access key. */
  lemma SignatureIgnoresAccessKey(p: Primitives, secret: string, accessKey1: string, accessKey2: string,
                                  payload: string, host: string, region: string, t: Instant)
    requires t.Valid()
    ensures ReadAuthorization(GenerateAwsSignature(p, secret, accessKey1, payload, host, region, t)).Some?
    ensures ReadAuthorization(GenerateAwsSignature(p, secret, accessKey2, payload, host, region, t)).Some?
    ensures ReadAuthorization(GenerateAwsSignature(p, secret, accessKey1, payload, host, region, t)).value.1
         == ReadAuthorization(GenerateAwsSignature(p, secret, accessKey2, payload, host, region, t)).value.1
  {
    var date, amzDate := DateStamp(t), AmzDate(t);
    var scope := CredentialScope(date, region);
    var cr := CanonicalRequest(host, amzDate, PayloadHash(p, payload));
    var sig := Signature(p, SigningKey(p, secret, date, region), StringToSign(p, amzDate, scope, cr));
    ReadAuthorizationValue(accessKey1, scope, sig);
    ReadAuthorizationValue(accessKey2, scope, sig);
  }
}
