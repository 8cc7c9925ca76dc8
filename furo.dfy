/**
 * The storage-free logic of `FuroClient`: configuration, the redirect URLs it
 * builds, and the ownership check applied to a freshly exchanged token pair.
 * Network responses are inputs: `None` is a request whose promise rejected.
 */
module Furo {
  import opened Wrappers
  import Uri
  import opened Jwt

  const DefaultApiBaseUrl: string := "https://api.furo.one"
  const FuroAuthUrl: string := "https://auth.furo.one"
  const KakaoAuthorizeEndpoint: string := "https://kauth.kakao.com/oauth/authorize"
  const ApiKeyEmpty: string := "API KEY is empty"

  /** What the caller passes to the constructor; `apiUrl` may be left out. */
  datatype Options = Options(domain: string, clientId: string, redirectUri: string, apiUrl: Option<string>)

  /** The client's configuration, fixed at construction. */
  datatype Config = Config(domain: string, clientId: string, redirectUri: string, apiBaseUrl: string)

  /** Causes of a rejected promise. */
  datatype Error =
    | Thrown(message: string)   // a string thrown by the client itself
    | MalformedToken            // TypeError or SyntaxError while reading the token payload
    | ExchangeFailed            // the code-authentication request failed
    | RefreshFailed             // the token-refresh request failed
    | UserLookupFailed          // the current-user request failed

  /**
   * The constructor: `baseURL: options.apiUrl ?? DEFAULT_API_BASE_URL`. Only a
   * missing `apiUrl` takes the default; any given string, even an empty one, is kept.
   */
  function NewConfig(o: Options): (c: Config)
    ensures c.domain == o.domain && c.clientId == o.clientId && c.redirectUri == o.redirectUri
    ensures o.apiUrl.None? ==> c.apiBaseUrl == DefaultApiBaseUrl
    ensures o.apiUrl.Some? ==> c.apiBaseUrl == o.apiUrl.value
  {
    Config(o.domain, o.clientId, o.redirectUri,
           match o.apiUrl case Some(u) => u case None => DefaultApiBaseUrl)
  }

  function AuthorizeBase(c: Config): string {
    c.domain + "/login/" + c.clientId
  }

  const RedirectParam: string := "?redirect_uri="

  /**
   * `buildAuthorizeUrl`: `{domain}/login/{clientId}`, followed by the encoded
   * redirect URI only when that URI is not empty.
   */
  function BuildAuthorizeUrl(c: Config): (url: string)
    ensures AuthorizeBase(c) <= url
    ensures url == AuthorizeBase(c) <==> c.redirectUri == ""
    ensures c.redirectUri != "" ==>
              url == AuthorizeBase(c) + RedirectParam + Uri.EncodeURIComponent(c.redirectUri)
  {
    if c.redirectUri != "" then AuthorizeBase(c) + RedirectParam + Uri.EncodeURIComponent(c.redirectUri)
    else AuthorizeBase(c)
  }

  /**
   * The query value after `?redirect_uri=` holds no raw delimiter and decodes
   * to the configured redirect URI.
   */
  lemma AuthorizeUrlRoundTrip(c: Config)
    requires c.redirectUri != ""
    ensures var url := BuildAuthorizeUrl(c);
            var q := |AuthorizeBase(c)| + |RedirectParam|;
            && q <= |url|
            && url[..q] == AuthorizeBase(c) + RedirectParam
            && (forall i :: q <= i < |url| ==> url[i] !in "?&=#")
            && Uri.DecodeURIComponent(url[q..]) == Some(c.redirectUri)
  {
    var url := BuildAuthorizeUrl(c);
    var q := |AuthorizeBase(c)| + |RedirectParam|;
    var v := Uri.EncodeURIComponent(c.redirectUri);
    assert url[q..] == v;
    Uri.NoQueryDelimiters(c.redirectUri);
    Uri.EncodeRoundTrip(c.redirectUri);
  }

  /**
   * Domain `https://x.test`, client id `abc` and redirect URI `https://app/cb`
   * give `https://x.test/login/abc?redirect_uri=https%3A%2F%2Fapp%2Fcb`.
   * The redirect URI comes in as its scheme, host and path, each pinned to its
   * literal by the precondition: written as one literal argument, the verifier
   * would unfold the recursive encoder on every character of it.
   */
  lemma AuthorizeUrlExample(scheme: string, host: string, path: string)
    requires scheme == "https" && host == "app" && path == "cb"
    ensures BuildAuthorizeUrl(Config("https://x.test", "abc", scheme + "://" + host + "/" + path, DefaultApiBaseUrl))
            == "https://x.test/login/abc" + "?redirect_uri=" + "https%3A%2F%2Fapp%2Fcb"
  {
    Uri.EncodeSchemeHostPath(scheme, host, path);
    CallbackPieces(scheme, host, path);
    assert "https://x.test" + "/login/" + "abc" == "https://x.test/login/abc";
  }

  /** The encoded redirect URI of the example, reassembled; kept apart so that its literals stay small. */
  lemma CallbackPieces(scheme: string, host: string, path: string)
    requires scheme == "https" && host == "app" && path == "cb"
    ensures scheme + "%3A%2F%2F" + host + "%2F" + path == "https%3A%2F%2Fapp%2Fcb"
  {
  }

  /** Where Kakao sends the user back: `{FURO_AUTH_URL}/oauth/kakao/{clientId}`. */
  function KakaoCallback(clientId: string): string {
    FuroAuthUrl + "/oauth/kakao/" + clientId
  }

  const KakaoClientIdParam: string := "?client_id="
  const KakaoRedirectParam: string := "&redirect_uri="
  const KakaoResponseType: string := "&response_type=code"

  /**
   * `loginWithKakao`: an empty key throws "API KEY is empty"; otherwise the
   * Kakao authorize URL with the key inserted as it is and the encoded callback.
   */
  function LoginWithKakao(c: Config, key: string): (r: Result<string, Error>)
    ensures r.Err? <==> key == ""
    ensures r.Err? ==> r.error == Thrown(ApiKeyEmpty)
    ensures r.Ok? ==> r.value == KakaoAuthorizeEndpoint + KakaoClientIdParam + key + KakaoRedirectParam
                                 + Uri.EncodeURIComponent(KakaoCallback(c.clientId)) + KakaoResponseType
  {
    if key == "" then Err(Thrown(ApiKeyEmpty))
    else
      var redirectUri := Uri.EncodeURIComponent(KakaoCallback(c.clientId));
      Ok(KakaoAuthorizeEndpoint + KakaoClientIdParam + key + KakaoRedirectParam + redirectUri + KakaoResponseType)
  }

  /**
   * In the Kakao URL the key stands unencoded after `?client_id=`, and the
   * `redirect_uri` value has no raw `&` and decodes to the client's Kakao callback.
   */
  lemma KakaoUrlRoundTrip(c: Config, key: string)
    requires key != ""
    ensures var url := LoginWithKakao(c, key).value;
            var k := |KakaoAuthorizeEndpoint| + |KakaoClientIdParam|;
            var p := k + |key| + |KakaoRedirectParam|;
            var e := |url| - |KakaoResponseType|;
            && p <= e <= |url|
            && url[k..k + |key|] == key
            && url[e..] == KakaoResponseType
            && (forall i :: p <= i < e ==> url[i] !in "?&=#")
            && Uri.DecodeURIComponent(url[p..e]) == Some(KakaoCallback(c.clientId))
  {
    var url := LoginWithKakao(c, key).value;
    var k := |KakaoAuthorizeEndpoint| + |KakaoClientIdParam|;
    var p := k + |key| + |KakaoRedirectParam|;
    var e := |url| - |KakaoResponseType|;
    var v := Uri.EncodeURIComponent(KakaoCallback(c.clientId));
    assert url == KakaoAuthorizeEndpoint + KakaoClientIdParam + key + KakaoRedirectParam + v + KakaoResponseType;
    assert url[k..k + |key|] == key;
    assert url[p..e] == v;
    assert url[e..] == KakaoResponseType;
    Uri.NoQueryDelimiters(KakaoCallback(c.clientId));
    Uri.EncodeRoundTrip(KakaoCallback(c.clientId));
  }

  /** `!pid || pid !== clientId` is false: `pid` is a non-empty string equal to the client id. */
  predicate MatchesClient(claims: Claims, clientId: string): (b: bool)
    ensures b <==> clientId != "" && claims.pid == Some(clientId)
  {
    claims.pid.Some? && claims.pid.value != "" && claims.pid.value == clientId
  }

  /**
   * The ownership check of `handleRedirectCallback`: the pair comes back
   * unchanged when the payload's `pid` matches, null when it does not, and
   * the call fails when the payload cannot be read.
   */
  function CheckOwnership(clientId: string, pair: TokenPair, parse: ClaimsParser): (r: Result<Option<TokenPair>, Error>)
    ensures r.Err? <==> PayloadClaims(pair.accessToken, parse).None?
    ensures r.Err? ==> r.error == MalformedToken
    ensures r.Ok? && r.value.Some? ==> r.value.value == pair
    ensures r == Ok(Some(pair)) <==>
              PayloadClaims(pair.accessToken, parse).Some? &&
              MatchesClient(PayloadClaims(pair.accessToken, parse).value, clientId)
  {
    match PayloadClaims(pair.accessToken, parse)
    case None => Err(MalformedToken)
    case Some(claims) => if MatchesClient(claims, clientId) then Ok(Some(pair)) else Ok(None)
  }

  /** A token without `.` has no payload segment: the check fails rather than accepting it. */
  lemma NoPayloadSegmentFails(clientId: string, pair: TokenPair, parse: ClaimsParser)
    requires '.' !in pair.accessToken
    ensures CheckOwnership(clientId, pair, parse) == Err(MalformedToken)
  {
  }

  /** An empty client id is never matched, whatever the token says. */
  lemma EmptyClientIdNeverAccepts(pair: TokenPair, parse: ClaimsParser)
    ensures CheckOwnership("", pair, parse).Ok? ==> CheckOwnership("", pair, parse).value == None
  {
  }

  /**
   * For a well-formed `header.payload.signature` token, the pair is accepted
   * exactly when the parsed payload carries this client's `pid`.
   */
  lemma CompactTokenOwnership(clientId: string, header: string, payload: seq<Byte>, a: Base64.Alphabet,
                              pad: bool, signature: string, refresh: string, parse: ClaimsParser)
    requires '.' !in header && '.' !in signature
    ensures var pair := TokenPair(Compact(header, payload, a, pad, signature), refresh);
            CheckOwnership(clientId, pair, parse) ==
              match parse(payload)
              case None => Err(MalformedToken)
              case Some(claims) => if MatchesClient(claims, clientId) then Ok(Some(pair)) else Ok(None)
  {
    PayloadOfCompact(header, payload, a, pad, signature, parse);
  }

  /**
   * The base `handleRedirectCallback` after its request: a failed exchange
   * rejects, otherwise the returned pair goes through the ownership check.
   */
  function HandleRedirectCallback(clientId: string, exchanged: Option<TokenPair>, parse: ClaimsParser)
    : (r: Result<Option<TokenPair>, Error>)
    ensures exchanged.None? ==> r == Err(ExchangeFailed)
    ensures exchanged.Some? ==> r == CheckOwnership(clientId, exchanged.value, parse)
    ensures r.Ok? && r.value.Some? ==> exchanged == Some(r.value.value)
  {
    match exchanged
    case None => Err(ExchangeFailed)
    case Some(pair) => CheckOwnership(clientId, pair, parse)
  }

  /** The base `refreshTokenSilently` after its request: the new pair is returned as the server sent it. */
  function RefreshTokenSilently(refreshed: Option<TokenPair>): (r: Result<TokenPair, Error>)
    ensures r.Ok? <==> refreshed.Some?
    ensures r.Ok? ==> r.value == refreshed.value
    ensures r.Err? ==> r.error == RefreshFailed
  {
    match refreshed
    case None => Err(RefreshFailed)
    case Some(pair) => Ok(pair)
  }
}
