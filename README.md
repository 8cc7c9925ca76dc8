# furo-sdk-ts login client, modelled in Dafny

A model of the login client in `src/index.ts`.

- `FuroClient` builds two redirect URLs. The first is the authorize URL `{domain}/login/{clientId}`, with an optional `?redirect_uri=`. The second is the Kakao authorize URL.
- `FuroClient` checks that a freshly exchanged token pair belongs to this client. It reads the `pid` claim of the access token's unverified payload.
- `FuroFrontClient` keeps the token pair in the browser's `localStorage` under `furo-{clientId}-token` and `furo-{clientId}-refresh`. It reads, replaces and removes that pair, and reads a hint from `sessionStorage`.

Files, one module each:

- `wrappers.dfy` (`Wrappers`): `Option` (JavaScript's `null`), `Result` (a rejected promise) and `Byte`.
- `uri.dfy` (`Uri`): `encodeURIComponent` as in ECMA-262 section 19.2.6. It percent-encodes as in section 2.1 of RFC 3986, with UTF-8 as in RFC 3629. Its inverse is a decoder: percent-decoding, then strict UTF-8 decoding.
- `base64.dfy` (`Base64`): what `Buffer.from(s, "base64")` does on well-formed input. It accepts both the alphabet of section 4 of RFC 4648 and the URL-safe alphabet of section 5, with optional `=` padding. Its inverse is an encoder.
- `jwt.dfy` (`Jwt`): `split(".")` with its inverse `Join`, the payload segment of a JWS compact serialization (section 7.1 of RFC 7515), and the claims read from it. `JSON.parse` is a function parameter (`ClaimsParser`).
- `furo.dfy` (`Furo`): the storage-free part of `FuroClient`. That is the configuration default (`apiUrl ?? DEFAULT_API_BASE_URL`), `buildAuthorizeUrl`, `loginWithKakao`, the ownership check in `handleRedirectCallback`, and the base `refreshTokenSilently`.
- `session.dfy` (`Session`):
  - The key scheme, with functions giving the store after a persist (`Persisted`) or a logout (`Cleared`).
  - A `KeyValueStore` class for a Web Storage area. Its map is updated in place by `SetItem` and `RemoveItem`.
  - The `FrontClient` class, holding `localStorage`, `sessionStorage` and a log `calls` of the requests it sends.

Network responses are inputs. A method receives the server's answer as an `Option`, and `None` means the request's promise rejected. Because every request is appended to `calls`, "no network call happens" is stated as `calls == old(calls)`.

Behaviour of the code worth knowing when reading the model:

- A callback without a `code` still sends the request, with a null code (`FrontClient.HandleRedirectCallback` logs `CodeAuthenticate(None)`).
- `checkSession` reads `sessionStorage` under the access-token key name, `furo-{clientId}-token`.
- `refreshTokenSilently` returns null, with no request, whenever the refresh key, or after it the token key, is absent or empty; a pair with only one key present is one of those cases.

## Model

| member | source | states |
|---|---|---|
| `Furo.NewConfig` | src/index.ts:25-31 | the API base URL is `apiUrl` when given (even an empty string) and `https://api.furo.one` only when it is missing; domain, client id and redirect URI are kept |
| `Furo.BuildAuthorizeUrl` | src/index.ts:34-39 | the URL always starts with `{domain}/login/{clientId}`; it equals that base exactly when the redirect URI is empty; otherwise it is base + `?redirect_uri=` + the encoded redirect URI |
| `Furo.AuthorizeUrlExample` | src/index.ts:34-39 | domain `https://x.test`, client id `abc` and redirect URI `https://app/cb` give `https://x.test/login/abc?redirect_uri=https%3A%2F%2Fapp%2Fcb` |
| `Furo.AuthorizeUrlRoundTrip` | src/index.ts:34-39 | after `?redirect_uri=` the URL holds no raw `?`, `&`, `=` or `#`, and that value decodes back to the configured redirect URI |
| `Furo.LoginWithKakao` | src/index.ts:89-96 | an empty key, and only an empty key, throws "API KEY is empty"; otherwise the URL is the Kakao authorize endpoint with `client_id` (the key, unencoded), the encoded `{auth host}/oauth/kakao/{clientId}` as `redirect_uri`, and `response_type=code` |
| `Furo.KakaoUrlRoundTrip` | src/index.ts:89-96 | the key stands verbatim after `?client_id=`, and the `redirect_uri` value has no raw delimiter and decodes to `https://auth.furo.one/oauth/kakao/{clientId}` |
| `Furo.MatchesClient` | src/index.ts:67 | `!pid \|\| pid !== clientId` is false exactly when the client id is non-empty and the payload's `pid` is that client id |
| `Furo.CheckOwnership` | src/index.ts:62-69 | the pair is returned unchanged if and only if the payload's `pid` is a non-empty string equal to the client id; a readable payload without such a `pid` gives null; an unreadable payload rejects with a malformed-token error |
| `Furo.NoPayloadSegmentFails` | src/index.ts:64-65 | an access token without `.` (no segment `[1]`) is a failure, never an accepted pair |
| `Furo.EmptyClientIdNeverAccepts` | src/index.ts:67 | with an empty client id no token is accepted, since an empty `pid` is falsy |
| `Furo.CompactTokenOwnership` | src/index.ts:62-69 | for any `header.payload.signature` token whose payload is base64 in either alphabet, with or without padding, the pair is accepted exactly when the parsed payload carries this client's `pid` |
| `Furo.HandleRedirectCallback` | src/index.ts:53-70 | a failed exchange rejects; otherwise the result is the ownership check on the exchanged pair, and an accepted pair is exactly the one the server sent |
| `Furo.RefreshTokenSilently` | src/index.ts:72-87 | the refreshed pair is returned as the server sent it, with no claim check; a failed request rejects |
| `Uri.EncodeURIComponent` | src/index.ts:37 | every output character is unreserved (`A-Z a-z 0-9 - _ . ! ~ * ' ( )`) or a `%`, and the output is never shorter than the input |
| `Uri.EncodeIsWellEncoded` | src/index.ts:37 | the encoding is made of unreserved characters and `%XX` triples of hexadecimal digits only |
| `Uri.NoQueryDelimiters` | src/index.ts:37 | the encoding never contains a raw `?`, `&`, `=`, `/`, `#`, `+` or space |
| `Uri.EncodeUnreservedIsIdentity` | src/index.ts:37 | a string of unreserved characters is passed through unchanged |
| `Uri.EncodeConcat` | src/index.ts:37 | encoding works character by character: the encoding of `s + t` is the encoding of `s` followed by that of `t` |
| `Uri.EncodeJoin` | src/index.ts:37 | between unreserved parts only the separators are encoded: `a + sep1 + b + sep2 + c` becomes `a`, the encoded `sep1`, `b`, the encoded `sep2`, `c` |
| `Uri.EncodeSchemeHostPath` | src/index.ts:37 | a `scheme://host/path` URL with unreserved parts is encoded as `scheme%3A%2F%2Fhost%2Fpath` |
| `Uri.EncodeCharExamples` | src/index.ts:37 | `:` is `%3A`, `/` is `%2F` and a space is `%20`, with upper-case hexadecimal; `~` is kept |
| `Uri.EncodeNonAsciiExample` | src/index.ts:37 | `é` (U+00E9) becomes its two UTF-8 bytes as the triples `%C3%A9` |
| `Uri.PercentDecodeOfEncode` | src/index.ts:37 | percent-decoding the encoding gives exactly the UTF-8 bytes of the original string |
| `Uri.Utf8RoundTrip` | src/index.ts:37 | strict UTF-8 decoding of a string's UTF-8 encoding gives the string back |
| `Uri.EncodeRoundTrip` | src/index.ts:91-93 | percent-decoding (UTF-8) the encoding of any string returns that string |
| `Base64.Decode` | src/index.ts:65 | after dropping one or two trailing `=` from a string whose length is a multiple of four, decoding succeeds exactly when every character is in one of the two alphabets and the length is not 1 modulo 4; the result has 3 bytes per 4 characters plus 1 or 2 for a final 2 or 3 |
| `Base64.DecodeEncode` | src/index.ts:65 | decoding undoes encoding for both alphabets, padded or not |
| `Base64.UnpadOfEncode` | src/index.ts:65 | removing the `=` padding of an encoding gives the unpadded encoding |
| `Base64.DecodedLength` | src/index.ts:65 | a run of base64 values decodes exactly when its length is not 1 modulo 4, into 3 bytes per 4 values plus 1 or 2 for a final 2 or 3 |
| `Jwt.Split` | src/index.ts:64 | `split(".")` yields at least one part; no part contains the separator; joining the parts with it gives the input back |
| `Jwt.SplitJoin` | src/index.ts:64 | splitting undoes joining parts that hold no separator |
| `Jwt.SplitHasSecondPart` | src/index.ts:64 | there is a segment `[1]` exactly when the token contains `.` |
| `Jwt.PayloadSegment` | src/index.ts:64 | segment `[1]` is defined exactly when the token contains `.`, and it holds no `.` |
| `Jwt.PayloadClaims` | src/index.ts:64-66 | a token without `.` yields no claims (the client throws) |
| `Jwt.PayloadOfCompact` | src/index.ts:64-66 | in `header.payload.signature` the client reads back exactly the encoded payload bytes and parses them |
| `Session.TokenKey` | src/index.ts:115 | the key is `furo-`, then the client id, then `-token`; the same name is used at lines 43, 122, 131, 141 and 147 |
| `Session.RefreshKey` | src/index.ts:116 | the key is `furo-`, then the client id, then `-refresh`; the same name is used at lines 127, 142 and 148 |
| `Session.KeysDistinct` | src/index.ts:115-116 | no client id's token key equals any client id's refresh key, so the two names are distinct for every client id |
| `Session.KeysInjective` | src/index.ts:115-116 | different client ids give different token keys and different refresh keys |
| `Session.Lookup` | src/index.ts:42-44 | `getItem` is null exactly when the key is absent, and otherwise the stored value |
| `Session.Persisted` | src/index.ts:115-116 | after the two writes the token key holds the access token and the refresh key the refresh token; every other key is unchanged |
| `Session.Cleared` | src/index.ts:146-149 | after the two removals both client keys are absent; every other key is unchanged |
| `Session.StoredSession` | src/index.ts:125-133 | refresh proceeds exactly when the refresh key and the token key are both present and non-empty, with the stored pair |
| `Session.ClearedIdempotent` | src/index.ts:146-149 | logging out twice leaves the same store as logging out once |
| `Session.ClearedHasNoSession` | src/index.ts:146-149 | after logout there is no stored pair to refresh and no truthy access token for `getUser` |
| `Session.PersistedReadsBack` | src/index.ts:115-116 | a persisted pair of non-empty tokens is exactly what the next refresh reads |
| `Session.PersistLastWriteWins` | src/index.ts:141-142 | persisting a second pair replaces the first entirely |
| `Session.ClearUndoesPersist` | src/index.ts:146-149 | logout after a persist leaves the store as logout alone would |
| `Session.ClientsIsolated` | src/index.ts:115-116 | persisting or clearing one client's pair never changes another client's stored pair or token |
| `Session.KeyValueStore.GetItem` | src/index.ts:42-44 | the read is `Lookup` of the store's current map: null for an absent key, the stored value otherwise |
| `Session.KeyValueStore.SetItem` | src/index.ts:115 | that key now holds the value; no other key changes |
| `Session.KeyValueStore.RemoveItem` | src/index.ts:147 | that key is absent afterwards, whether or not it was present; no other key changes |
| `Session.FrontClient.constructor` | src/index.ts:100-102 | the client takes the base configuration (with the API default), the two distinct storage areas, and has sent nothing |
| `Session.FrontClient.HandleRedirectCallback` | src/index.ts:109-119 | the code is always sent, even when null; on a null or rejected result `localStorage` is unchanged; on success both keys hold the new pair and nothing else changes; `sessionStorage` never changes |
| `Session.FrontClient.CheckSession` | src/index.ts:121-123 | returns the `sessionStorage` value under the token key name (null if absent) and changes neither store |
| `Session.FrontClient.RefreshTokenSilently` | src/index.ts:125-144 | with the refresh key, or then the token key, missing or empty: null, no request, store unchanged; otherwise one refresh request with the stored pair, and on success both keys are overwritten with the returned pair and nothing else changes |
| `Session.FrontClient.Logout` | src/index.ts:146-149 | removes exactly the two client keys, leaves every other key, sends nothing |
| `Session.FrontClient.GetUser` | src/index.ts:41-51 | with no or an empty access token: null and no request; otherwise one `/users/me` request with that token as bearer; never writes to either store |
| `Session.LogoutTwice` | src/index.ts:146-149 | two logouts succeed and leave the store as one does |
| `Session.LogoutThenGetUser` | src/index.ts:41-45 | after logout, `getUser` and a silent refresh both return null and send no request |
| `Session.LoginThenRefresh` | src/index.ts:109-144 | after an accepted login with non-empty tokens, the silent refresh sends exactly that pair and then stores the refreshed one |

## Left out

- The HTTP transport (axios), status codes, retries and the request and response bodies of `/users/me`, `/sessions/code/authenticate` and `/sessions/token/refresh` are left out. Responses are inputs, and requests are entries in `calls`.
- A response whose `access_token` or `refresh_token` field is missing is not modelled. The server is assumed to return both strings.
- Browser navigation is a host side effect and is not modelled. This covers `window.location.href` in `loginWithRedirect` and in the front `loginWithKakao`, which returns the same URL as `Furo.LoginWithKakao`. It also covers the default argument `window.location.search`.
- `URLSearchParams` parsing is a library call. The code is an `Option<string>` input.
- `JSON.parse(payload.toString())` is the uninterpreted `ClaimsParser` parameter, and only the `pid` claim is kept. A non-string `pid` is folded into `None`, because it can never be strictly equal to a client id.
- `Base64.Decode`: Node's lenient decoding of malformed base64 (skipped characters, whitespace, `=` in the middle, incomplete or excess padding such as `QQ=`) is not modelled. On such input the model returns `None`, so the ownership check rejects with `MalformedToken` where Node would decode something.
- `Uri.EncodeURIComponent`: JavaScript strings are UTF-16 and may hold a lone surrogate, for which `encodeURIComponent` throws `URIError`. Dafny characters are Unicode scalar values, so that error path cannot arise here.
- `Uri.DecodeURIComponent` is the inverse used for the round trip, not code of this repository. It decodes in two stages: percent-decoding to bytes, then strict UTF-8 decoding.
- The `if (!token) return null` in the front `refreshTokenSilently` (src/index.ts:139) is unreachable and is not modelled. The base method always returns a pair or rejects.
- The async suspension points and interleavings of concurrent calls are left out. The model is sequential, and the two writes of a persist are not atomic.
- The class inheritance is not modelled as such. The base logic is a set of functions in `Furo`, used by the `FrontClient` class. The base `getUser` also reads `localStorage`, and it is modelled once, as `FrontClient.GetUser`.
