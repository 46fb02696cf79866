/**
 The pure parts of `PollyClient` in src/polly.rs: construction from the
 process environment (`new`) and the assembly of the request that
 `synthesize_speech` sends. Environment lookups and both clock reads are
 parameters; sending the request and reading the response are not modelled.
 */
module Polly {

  import opened Wrappers
  import opened Crypto
  import opened Fields
  import opened Timestamp
  import opened SigV4

  /** The region used when `AWS_REGION` is not set. */
  const DefaultRegion: string := "us-east-1"

  /** The host and region `synthesize_speech` always signs for, whatever the endpoint. */
  const SignedHost: string := "polly.us-west-2.amazonaws.com"
  const SignedRegion: string := "us-west-2"

  /** The three environment variables `new` reads; `None` when unset (or not Unicode). */
  datatype Environment = Environment(
    awsRegion: Option<string>,
    accessKeyId: Option<string>,
    secretAccessKey: Option<string>)

  /** A constructed client: the fields of `PollyClient` other than the HTTP connection pool. */
  datatype Client = Client(endpoint: string, accessKey: string, secretKey: string)

  /** The panic `new` raises through `expect`, naming the missing variable. */
  datatype ConfigError = MissingVariable(name: string)

  /** The region `new` builds the endpoint for: `AWS_REGION`, or the default. */
  function EffectiveRegion(awsRegion: Option<string>): string {
    match awsRegion
    case Some(r) => r
    case None => DefaultRegion
  }

  /** The Polly host of a region. */
  function HostFor(region: string): string {
    "polly." + region + ".amazonaws.com"
  }

  /** The endpoint string `new` stores: `https://polly.<region>.amazonaws.com`. */
  function Endpoint(awsRegion: Option<string>): string {
    "https://polly." + EffectiveRegion(awsRegion) + ".amazonaws.com"
  }

  /**
   `PollyClient::new`: the endpoint is formatted first, then the access key
   and the secret key are required in that order; a missing one is the
   construction error naming it.
   */
  function New(env: Environment): (r: Result<Client, ConfigError>)
    ensures r.Success? <==> env.accessKeyId.Some? && env.secretAccessKey.Some?
    ensures r.Success? ==> && r.value.endpoint == Endpoint(env.awsRegion)
                           && r.value.accessKey == env.accessKeyId.value
                           && r.value.secretKey == env.secretAccessKey.value
    ensures env.accessKeyId.None? ==> r == Failure(MissingVariable("AWS_ACCESS_KEY_ID"))
    ensures env.accessKeyId.Some? && env.secretAccessKey.None?
            ==> r == Failure(MissingVariable("AWS_SECRET_ACCESS_KEY"))
  {
    var endpoint := Endpoint(env.awsRegion);
    match env.accessKeyId
    case None => Failure(MissingVariable("AWS_ACCESS_KEY_ID"))
    case Some(accessKey) =>
      match env.secretAccessKey
      case None => Failure(MissingVariable("AWS_SECRET_ACCESS_KEY"))
      case Some(secretKey) => Success(Client(endpoint, accessKey, secretKey))
  }

  /** The reference reading of an endpoint back into its region. */
  function EndpointRegion(endpoint: string): Option<string> {
    var prefix, suffix := "https://polly.", ".amazonaws.com";
    if |endpoint| >= |prefix| + |suffix|
       && endpoint[..|prefix|] == prefix && endpoint[|endpoint| - |suffix|..] == suffix
    then Some(endpoint[|prefix|..|endpoint| - |suffix|])
    else None
  }

  /** The fields of the JSON body: text, voice and output format. */
  datatype SpeechParams = SpeechParams(text: string, voiceId: string, outputFormat: string)

  /** A JSON serialiser, as `serde_json` provides: a parameter of the model. */
  type Serializer = SpeechParams -> string

  /** The request body: the serialised parameters, always with output format `mp3`. */
  function SpeechPayload(serialize: Serializer, text: string, voiceId: string): string {
    serialize(SpeechParams(text, voiceId, "mp3"))
  }

  datatype Header = Header(name: string, value: string)

  /** An outgoing HTTP request as handed to the transport. */
  datatype HttpRequest = HttpRequest(verb: string, url: string, headers: seq<Header>, body: string)

  /** The value of the first header called `name`. */
  function HeaderValue(headers: seq<Header>, name: string): (v: Option<string>)
    ensures v.Some? <==> exists i :: 0 <= i < |headers| && headers[i].name == name
    ensures v.Some? ==> exists i :: && 0 <= i < |headers| && headers[i] == Header(name, v.value)
                                     && forall j :: 0 <= j < i ==> headers[j].name != name
  {
    if headers == [] then None
    else if headers[0].name == name then Some(headers[0].value)
    else
      var v := HeaderValue(headers[1..], name);
      assert forall i :: 0 < i < |headers| ==> headers[i] == headers[1..][i - 1];
      if v.Some? then
        var k :| && 0 <= k < |headers[1..]| && headers[1..][k] == Header(name, v.value)
                 && forall j :: 0 <= j < k ==> headers[1..][j].name != name;
        assert forall j :: 0 <= j < k + 1 ==> headers[j].name != name by {
          forall j | 0 <= j < k + 1 ensures headers[j].name != name {
            if j > 0 { assert headers[j] == headers[1..][j - 1]; }
          }
        }
        assert headers[k + 1] == Header(name, v.value);
        v
      else v
  }

  /**
   The authority of an `https` URL: the text after `https://` up to the
   first `/`. (Ports and user information are outside the model.)
   */
  function Authority(url: string): Option<string> {
    var scheme := "https://";
    if |url| < |scheme| || url[..|scheme|] != scheme then None
    else Some(Split(url[|scheme|..], '/')[0])
  }

  /**
   The request `synthesize_speech` sends, as written: signed for the fixed
   host and region at instant `signedAt` (the read at line 36), sent to the
   client's endpoint with an `x-amz-date` header from a second clock read
   `sentAt` (line 107).
   */
  function SynthesizeSpeechRequest(c: Client, p: Primitives, serialize: Serializer,
                                   text: string, voiceId: string,
                                   signedAt: Instant, sentAt: Instant): HttpRequest
    requires signedAt.Valid() && sentAt.Valid()
  {
    var payload := SpeechPayload(serialize, text, voiceId);
    var authorization := GenerateAwsSignature(p, c.secretKey, c.accessKey, payload,
                                              SignedHost, SignedRegion, signedAt);
    HttpRequest("POST", c.endpoint + "/v1/speech",
                [Header("Authorization", authorization),
                 Header("x-amz-date", AmzDate(sentAt)),
                 Header("Content-Type", "application/json")],
                payload)
  }

  /**
   The request with both mismatches removed: one instant for the signature
   and the `x-amz-date` header, and one region for the signed host, the
   credential scope and the URL.
   */
  function SynthesizeSpeechRequestConsistent(c: Client, region: string, p: Primitives,
                                             serialize: Serializer, text: string, voiceId: string,
                                             now: Instant): HttpRequest
    requires now.Valid()
  {
    var payload := SpeechPayload(serialize, text, voiceId);
    var host := HostFor(region);
    var authorization := GenerateAwsSignature(p, c.secretKey, c.accessKey, payload, host, region, now);
    HttpRequest("POST", "https://" + host + "/v1/speech",
                [Header("Authorization", authorization),
                 Header("x-amz-date", AmzDate(now)),
                 Header("Content-Type", "application/json")],
                payload)
  }

  /**
   The canonical request a receiving service rebuilds from what arrives: the
   host named by the URL, the `x-amz-date` header and the body.
   */
  function ReceivedCanonicalRequest(p: Primitives, r: HttpRequest): Option<string> {
    match (Authority(r.url), HeaderValue(r.headers, "x-amz-date"))
    case (Some(host), Some(amzDate)) => Some(CanonicalRequest(host, amzDate, PayloadHash(p, r.body)))
    case _ => None
  }

  /** Region names as AWS spells them: lowercase letters, digits and dashes. */
  predicate IsRegionName(region: string) {
    forall i :: 0 <= i < |region| ==> ('a' <= region[i] <= 'z' || '0' <= region[i] <= '9' || region[i] == '-')
  }
}
