/**
 Properties of client construction and request assembly, including the two
 places where what `synthesize_speech` signs and what it sends disagree.
 */
module PollyProperties {

  import opened Wrappers
  import opened Crypto
  import opened Fields
  import opened Timestamp
  import opened SigV4
  import opened SigV4Properties
  import opened Polly

  /** Reading the region back from an endpoint inverts `Endpoint`, in both directions. */
  lemma EndpointRegionInverse(awsRegion: Option<string>, endpoint: string)
    ensures EndpointRegion(Endpoint(awsRegion)) == Some(EffectiveRegion(awsRegion))
    ensures EndpointRegion(endpoint).Some? ==> Endpoint(Some(EndpointRegion(endpoint).value)) == endpoint
  {
    var prefix, suffix := "https://polly.", ".amazonaws.com";
    var e := Endpoint(awsRegion);
    assert e == prefix + EffectiveRegion(awsRegion) + suffix;
    assert e[..|prefix|] == prefix;
    assert e[|e| - |suffix|..] == suffix;
    if EndpointRegion(endpoint).Some? {
      var r := EndpointRegion(endpoint).value;
      assert endpoint == endpoint[..|prefix|] + r + endpoint[|endpoint| - |suffix|..];
    }
  }

  /** Distinct regions have distinct hosts. */
  lemma HostForInjective(a: string, b: string)
    ensures HostFor(a) == HostFor(b) <==> a == b
  {
    if HostFor(a) == HostFor(b) {
      ConcatCancel("polly." + a, ".amazonaws.com", "polly." + b, ".amazonaws.com");
      ConcatCancel("polly.", a, "polly.", b);
    }
  }

  /** The header lookups of the three headers `synthesize_speech` attaches. */
  lemma SentHeaders(authorization: string, amzDate: string)
    ensures var hs := [Header("Authorization", authorization), Header("x-amz-date", amzDate),
                       Header("Content-Type", "application/json")];
      && HeaderValue(hs, "Authorization") == Some(authorization)
      && HeaderValue(hs, "x-amz-date") == Some(amzDate)
      && HeaderValue(hs, "Content-Type") == Some("application/json")
  {
    var hs := [Header("Authorization", authorization), Header("x-amz-date", amzDate),
               Header("Content-Type", "application/json")];
    assert hs[1..][1..] == [Header("Content-Type", "application/json")];
    assert "Content-Type" != "Authorization" && "Content-Type" != "x-amz-date";
    assert "x-amz-date" != "Authorization";
    assert HeaderValue(hs[1..][1..], "Content-Type") == Some("application/json");
    assert HeaderValue(hs[1..], "Content-Type") == Some("application/json");
  }

  /** The parts of the request as written: verb, URL, body and the three header values. */
  lemma AsWrittenRequest(c: Client, p: Primitives, serialize: Serializer, text: string, voiceId: string,
                         signedAt: Instant, sentAt: Instant)
    requires signedAt.Valid() && sentAt.Valid()
    ensures var r := SynthesizeSpeechRequest(c, p, serialize, text, voiceId, signedAt, sentAt);
      var payload := SpeechPayload(serialize, text, voiceId);
      && r.verb == "POST" && r.url == c.endpoint + "/v1/speech" && r.body == payload
      && HeaderValue(r.headers, "Authorization")
         == Some(GenerateAwsSignature(p, c.secretKey, c.accessKey, payload, SignedHost, SignedRegion, signedAt))
      && HeaderValue(r.headers, "x-amz-date") == Some(AmzDate(sentAt))
      && HeaderValue(r.headers, "Content-Type") == Some("application/json")
  {
    var payload := SpeechPayload(serialize, text, voiceId);
    var auth := GenerateAwsSignature(p, c.secretKey, c.accessKey, payload, SignedHost, SignedRegion, signedAt);
    var r := SynthesizeSpeechRequest(c, p, serialize, text, voiceId, signedAt, sentAt);
    assert r.headers == [Header("Authorization", auth), Header("x-amz-date", AmzDate(sentAt)),
                         Header("Content-Type", "application/json")];
    SentHeaders(auth, AmzDate(sentAt));
  }

  /** The parts of the consistent request: verb, URL, body and the three header values. */
  lemma ConsistentRequest(c: Client, region: string, p: Primitives, serialize: Serializer,
                          text: string, voiceId: string, now: Instant)
    requires now.Valid()
    ensures var r := SynthesizeSpeechRequestConsistent(c, region, p, serialize, text, voiceId, now);
      var payload := SpeechPayload(serialize, text, voiceId);
      && r.verb == "POST" && r.url == "https://" + HostFor(region) + "/v1/speech" && r.body == payload
      && HeaderValue(r.headers, "Authorization")
         == Some(GenerateAwsSignature(p, c.secretKey, c.accessKey, payload, HostFor(region), region, now))
      && HeaderValue(r.headers, "x-amz-date") == Some(AmzDate(now))
      && HeaderValue(r.headers, "Content-Type") == Some("application/json")
  {
    var payload := SpeechPayload(serialize, text, voiceId);
    var auth := GenerateAwsSignature(p, c.secretKey, c.accessKey, payload, HostFor(region), region, now);
    var r := SynthesizeSpeechRequestConsistent(c, region, p, serialize, text, voiceId, now);
    assert r.headers == [Header("Authorization", auth), Header("x-amz-date", AmzDate(now)),
                         Header("Content-Type", "application/json")];
    SentHeaders(auth, AmzDate(now));
  }

  /** The hardcoded signing region is a well-formed region name. */
  lemma SignedRegionIsRegionName()
    ensures IsRegionName(SignedRegion) && '/' !in SignedRegion && HostFor(SignedRegion) == SignedHost
  {
    SignedRegionSpelling();
    RegionNameHasNoSlash(SignedRegion);
    SignedHostSpelling();
  }

  lemma SignedRegionSpelling()
    ensures IsRegionName(SignedRegion)
  {
  }

  lemma SignedHostSpelling()
    ensures HostFor(SignedRegion) == SignedHost
  {
  }

  /** The default region is a well-formed region name. */
  lemma DefaultRegionIsRegionName()
    ensures IsRegionName(DefaultRegion) && HostFor(DefaultRegion) == "polly.us-east-1.amazonaws.com"
  {
  }

  /** A well-formed region name contains no slash. */
  lemma RegionNameHasNoSlash(region: string)
    requires IsRegionName(region)
    ensures '/' !in region
  {
    assert forall i :: 0 <= i < |region| ==> region[i] != '/';
  }

  /** A host built from a well-formed region contains no slash. */
  lemma HostForHasNoSlash(region: string)
    requires IsRegionName(region)
    ensures '/' !in HostFor(region)
  {
    RegionNameHasNoSlash(region);
    assert '/' !in "polly." && '/' !in ".amazonaws.com";
    assert '/' !in "polly." + region;
  }

  /** The endpoint of a region is `https://` followed by the region's host. */
  lemma EndpointIsHttpsHost(region: string)
    ensures Endpoint(Some(region)) == "https://" + HostFor(region)
  {
    assert "https://polly." == "https://" + "polly.";
  }

  /** The authority of a Polly URL for a well-formed region is that region's host. */
  lemma AuthorityOfPollyUrl(region: string)
    requires IsRegionName(region)
    ensures Authority("https://" + HostFor(region) + "/v1/speech") == Some(HostFor(region))
    ensures Endpoint(Some(region)) + "/v1/speech" == "https://" + HostFor(region) + "/v1/speech"
  {
    var host := HostFor(region);
    var rest := host + ['/'] + "v1/speech";
    var url := "https://" + host + "/v1/speech";
    assert url == "https://" + rest;
    ConcatCancel(url[..8], url[8..], "https://", rest);
    HostForHasNoSlash(region);
    SplitPrefix(host, '/', "v1/speech");
    EndpointIsHttpsHost(region);
  }

  /**
   The request `synthesize_speech` assembles: a POST of the serialised
   parameters (output format `mp3`) to the client's endpoint, with a JSON
   content type, whose `Authorization` value carries the credential
   `<accessKey>/<date>/us-west-2/polly/aws4_request` and a signature that a
   service receiving this very body, the signed host and the signing-time
   timestamp recomputes exactly.
   */
  lemma SynthesizeSpeechRequestSignsBody(c: Client, p: Primitives, serialize: Serializer,
                                         text: string, voiceId: string,
                                         signedAt: Instant, sentAt: Instant)
    requires signedAt.Valid() && sentAt.Valid() && '/' !in c.accessKey
    ensures var r := SynthesizeSpeechRequest(c, p, serialize, text, voiceId, signedAt, sentAt);
      && r.verb == "POST"
      && r.url == c.endpoint + "/v1/speech"
      && r.body == serialize(SpeechParams(text, voiceId, "mp3"))
      && HeaderValue(r.headers, "Content-Type") == Some("application/json")
      && HeaderValue(r.headers, "Authorization").Some?
      && var auth := ReadAuthorization(HeaderValue(r.headers, "Authorization").value);
         && auth.Some?
         && Split(auth.value.0, '/')
            == [c.accessKey, DateStamp(signedAt), SignedRegion, Service, ScopeTerminator]
         && ExpectedSignature(p, c.secretKey, auth.value.0, SignedHost, AmzDate(signedAt), r.body)
            == Some(auth.value.1)
  {
    var payload := SpeechPayload(serialize, text, voiceId);
    var auth := GenerateAwsSignature(p, c.secretKey, c.accessKey, payload, SignedHost, SignedRegion, signedAt);
    var r := SynthesizeSpeechRequest(c, p, serialize, text, voiceId, signedAt, sentAt);
    assert r.headers == [Header("Authorization", auth), Header("x-amz-date", AmzDate(sentAt)),
                         Header("Content-Type", "application/json")];
    SentHeaders(auth, AmzDate(sentAt));
    SignedRegionIsRegionName();
    ServiceAcceptsGeneratedSignature(p, c.secretKey, c.accessKey, payload, SignedHost, SignedRegion, signedAt);
  }

  /**
   The `x-amz-date` header agrees with the timestamp that was signed exactly
   when the two clock reads return the same instant (to the second).
   */
  lemma TimestampHeaderMatchesIff(c: Client, p: Primitives, serialize: Serializer,
                                  text: string, voiceId: string, signedAt: Instant, sentAt: Instant)
    requires signedAt.Valid() && sentAt.Valid()
    ensures var r := SynthesizeSpeechRequest(c, p, serialize, text, voiceId, signedAt, sentAt);
      HeaderValue(r.headers, "x-amz-date") == Some(AmzDate(signedAt)) <==> signedAt == sentAt
  {
    AmzDateInjective(signedAt, sentAt);
  }

  /** A request sent to the endpoint of a client built from the environment names that region's host. */
  lemma UrlOfClientFromEnvironment(env: Environment, r: HttpRequest)
    requires New(env).Success? && IsRegionName(EffectiveRegion(env.awsRegion))
    requires r.url == New(env).value.endpoint + "/v1/speech"
    ensures Authority(r.url) == Some(HostFor(EffectiveRegion(env.awsRegion)))
  {
    var region := EffectiveRegion(env.awsRegion);
    assert Endpoint(env.awsRegion) == Endpoint(Some(region));
    AuthorityOfPollyUrl(region);
  }

  /**
   For a client built from the environment, the host the request goes to is
   the host that was signed exactly when the configured region (or the
   default) is `us-west-2`.
   */
  lemma UrlHostMatchesSignedHostIff(env: Environment, p: Primitives, serialize: Serializer,
                                    text: string, voiceId: string, signedAt: Instant, sentAt: Instant)
    requires New(env).Success? && IsRegionName(EffectiveRegion(env.awsRegion))
    requires signedAt.Valid() && sentAt.Valid()
    ensures var r := SynthesizeSpeechRequest(New(env).value, p, serialize, text, voiceId, signedAt, sentAt);
      Authority(r.url) == Some(SignedHost) <==> EffectiveRegion(env.awsRegion) == SignedRegion
  {
    var region := EffectiveRegion(env.awsRegion);
    var r := SynthesizeSpeechRequest(New(env).value, p, serialize, text, voiceId, signedAt, sentAt);
    UrlOfClientFromEnvironment(env, r);
    SignedRegionIsRegionName();
    HostForInjective(region, SignedRegion);
  }

  /** What a service receiving the request as written rebuilds: the endpoint's host and the second timestamp. */
  lemma ReceivedOfAsWritten(env: Environment, p: Primitives, serialize: Serializer,
                            text: string, voiceId: string, signedAt: Instant, sentAt: Instant)
    requires New(env).Success? && IsRegionName(EffectiveRegion(env.awsRegion))
    requires signedAt.Valid() && sentAt.Valid()
    ensures var r := SynthesizeSpeechRequest(New(env).value, p, serialize, text, voiceId, signedAt, sentAt);
      ReceivedCanonicalRequest(p, r)
      == Some(CanonicalRequest(HostFor(EffectiveRegion(env.awsRegion)), AmzDate(sentAt), PayloadHash(p, r.body)))
  {
    var c := New(env).value;
    var r := SynthesizeSpeechRequest(c, p, serialize, text, voiceId, signedAt, sentAt);
    AsWrittenRequest(c, p, serialize, text, voiceId, signedAt, sentAt);
    UrlOfClientFromEnvironment(env, r);
  }

  /**
   The canonical request a receiving service rebuilds equals the one that was
   signed exactly when both mismatches are absent: the region is `us-west-2`
   and the two clock reads agree. Otherwise the service computes its
   signature over different bytes than the client did.
   */
  lemma ReceivedCanonicalRequestMatchesIff(env: Environment, p: Primitives, serialize: Serializer,
                                           text: string, voiceId: string,
                                           signedAt: Instant, sentAt: Instant)
    requires New(env).Success? && IsRegionName(EffectiveRegion(env.awsRegion))
    requires signedAt.Valid() && sentAt.Valid()
    ensures var r := SynthesizeSpeechRequest(New(env).value, p, serialize, text, voiceId, signedAt, sentAt);
      ReceivedCanonicalRequest(p, r) == Some(CanonicalRequest(SignedHost, AmzDate(signedAt), PayloadHash(p, r.body)))
      <==> EffectiveRegion(env.awsRegion) == SignedRegion && signedAt == sentAt
  {
    var r := SynthesizeSpeechRequest(New(env).value, p, serialize, text, voiceId, signedAt, sentAt);
    var region := EffectiveRegion(env.awsRegion);
    ReceivedOfAsWritten(env, p, serialize, text, voiceId, signedAt, sentAt);
    CanonicalRequestEqualIff(HostFor(region), AmzDate(sentAt), SignedHost, AmzDate(signedAt),
                             PayloadHash(p, r.body));
    SignedRegionIsRegionName();
    HostForInjective(region, SignedRegion);
    AmzDateInjective(sentAt, signedAt);
  }

  /** With `AWS_REGION` unset, the request goes to `us-east-1` but is signed for `us-west-2`. */
  lemma DefaultRegionIsNotSignedRegion(env: Environment, p: Primitives, serialize: Serializer,
                                       text: string, voiceId: string, signedAt: Instant, sentAt: Instant)
    requires New(env).Success? && env.awsRegion.None?
    requires signedAt.Valid() && sentAt.Valid()
    ensures var r := SynthesizeSpeechRequest(New(env).value, p, serialize, text, voiceId, signedAt, sentAt);
      && Authority(r.url) == Some("polly.us-east-1.amazonaws.com")
      && Authority(r.url) != Some(SignedHost)
      && ReceivedCanonicalRequest(p, r)
         != Some(CanonicalRequest(SignedHost, AmzDate(signedAt), PayloadHash(p, r.body)))
  {
    var r := SynthesizeSpeechRequest(New(env).value, p, serialize, text, voiceId, signedAt, sentAt);
    DefaultRegionIsRegionName();
    UrlOfClientFromEnvironment(env, r);
    UrlHostMatchesSignedHostIff(env, p, serialize, text, voiceId, signedAt, sentAt);
    ReceivedCanonicalRequestMatchesIff(env, p, serialize, text, voiceId, signedAt, sentAt);
  }

  /**
   Two clock reads one second apart across midnight: the `x-amz-date` header
   names 1 January 2024 while the signed timestamp and credential date name
   31 December 2023.
   */
  lemma MidnightClockReads(c: Client, p: Primitives, serialize: Serializer, text: string, voiceId: string)
    ensures var signedAt := Instant(2023, 12, 31, 23, 59, 59);
      var sentAt := Instant(2024, 1, 1, 0, 0, 0);
      && signedAt.Valid() && sentAt.Valid()
      && var r := SynthesizeSpeechRequest(c, p, serialize, text, voiceId, signedAt, sentAt);
         HeaderValue(r.headers, "x-amz-date") != Some(AmzDate(signedAt))
  {
    var signedAt := Instant(2023, 12, 31, 23, 59, 59);
    var sentAt := Instant(2024, 1, 1, 0, 0, 0);
    TimestampHeaderMatchesIff(c, p, serialize, text, voiceId, signedAt, sentAt);
  }

  /**
   The consistent request is accepted by the service it is sent to: the
   canonical request rebuilt from its URL host, `x-amz-date` header and body
   is the one that was signed, and the signature recomputed from its
   credential is the one it carries.
   */
  lemma ConsistentRequestIsAccepted(c: Client, region: string, p: Primitives, serialize: Serializer,
                                    text: string, voiceId: string, now: Instant)
    requires now.Valid() && IsRegionName(region) && '/' !in c.accessKey
    ensures var r := SynthesizeSpeechRequestConsistent(c, region, p, serialize, text, voiceId, now);
      && ReceivedCanonicalRequest(p, r) == Some(CanonicalRequest(HostFor(region), AmzDate(now), PayloadHash(p, r.body)))
      && HeaderValue(r.headers, "Authorization").Some?
      && var auth := ReadAuthorization(HeaderValue(r.headers, "Authorization").value);
         && auth.Some?
         && Split(auth.value.0, '/') == [c.accessKey, DateStamp(now), region, Service, ScopeTerminator]
         && ExpectedSignature(p, c.secretKey, auth.value.0, Authority(r.url).value,
                              HeaderValue(r.headers, "x-amz-date").value, r.body) == Some(auth.value.1)
  {
    var payload := SpeechPayload(serialize, text, voiceId);
    var host := HostFor(region);
    var auth := GenerateAwsSignature(p, c.secretKey, c.accessKey, payload, host, region, now);
    var r := SynthesizeSpeechRequestConsistent(c, region, p, serialize, text, voiceId, now);
    assert r.url == "https://" + host + "/v1/speech";
    assert r.headers == [Header("Authorization", auth), Header("x-amz-date", AmzDate(now)),
                         Header("Content-Type", "application/json")];
    AuthorityOfPollyUrl(region);
    SentHeaders(auth, AmzDate(now));
    assert ReceivedCanonicalRequest(p, r) == Some(CanonicalRequest(host, AmzDate(now), PayloadHash(p, r.body)));
    RegionNameHasNoSlash(region);
    ServiceAcceptsGeneratedSignature(p, c.secretKey, c.accessKey, payload, HostFor(region), region, now);
  }

  /**
   For a client built from the environment and that environment's region, the
   consistent request goes to the same URL with the same body as the request
   as written: only what is signed, and when, changes.
   */
  lemma ConsistentRequestKeepsDestination(env: Environment, p: Primitives, serialize: Serializer,
                                          text: string, voiceId: string, signedAt: Instant, sentAt: Instant)
    requires New(env).Success? && IsRegionName(EffectiveRegion(env.awsRegion))
    requires signedAt.Valid() && sentAt.Valid()
    ensures var c := New(env).value;
      var fixed := SynthesizeSpeechRequestConsistent(c, EffectiveRegion(env.awsRegion), p, serialize, text, voiceId, sentAt);
      var asWritten := SynthesizeSpeechRequest(c, p, serialize, text, voiceId, signedAt, sentAt);
      && fixed.url == asWritten.url && fixed.body == asWritten.body
      && HeaderValue(fixed.headers, "x-amz-date") == HeaderValue(asWritten.headers, "x-amz-date")
  {
    var c, region := New(env).value, EffectiveRegion(env.awsRegion);
    AsWrittenRequest(c, p, serialize, text, voiceId, signedAt, sentAt);
    ConsistentRequest(c, region, p, serialize, text, voiceId, sentAt);
    assert c.endpoint == Endpoint(Some(region));
    AuthorityOfPollyUrl(region);
  }
}
