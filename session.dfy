/**
 * `FuroFrontClient`: the browser client that keeps the token pair in
 * `localStorage` under two keys derived from the client id, and reads a
 * session hint from `sessionStorage`. Each storage is a `KeyValueStore`
 * object whose map the methods update in place; the requests the client
 * sends are recorded in `calls`, so that "no network call" is a statement
 * about that log.
 */
module Session {
  import opened Wrappers
  import opened Jwt
  import Furo

  /** `furo-{clientId}-token`: the client id stands between a fixed prefix and suffix. */
  function TokenKey(clientId: string): (k: string)
    ensures |k| == |clientId| + 11
    ensures k[..5] == "furo-" && k[5..|k| - 6] == clientId && k[|k| - 6..] == "-token"
  {
    "furo-" + clientId + "-token"
  }

  /** `furo-{clientId}-refresh`: the client id stands between a fixed prefix and suffix. */
  function RefreshKey(clientId: string): (k: string)
    ensures |k| == |clientId| + 13
    ensures k[..5] == "furo-" && k[5..|k| - 8] == clientId && k[|k| - 8..] == "-refresh"
  {
    "furo-" + clientId + "-refresh"
  }

  /** No client's token key is ever any client's refresh key. */
  lemma KeysDistinct(c1: string, c2: string)
    ensures TokenKey(c1) != RefreshKey(c2)
  {
    var t, r := TokenKey(c1), RefreshKey(c2);
    assert t[|t| - 1] == 'n';
    assert r[|r| - 1] == 'h';
  }

  /** Different clients use different keys. */
  lemma KeysInjective(c1: string, c2: string)
    ensures TokenKey(c1) == TokenKey(c2) ==> c1 == c2
    ensures RefreshKey(c1) == RefreshKey(c2) ==> c1 == c2
  {
    var t1, t2 := TokenKey(c1), TokenKey(c2);
    assert t1[5..|t1| - 6] == c1 && t2[5..|t2| - 6] == c2;
    var r1, r2 := RefreshKey(c1), RefreshKey(c2);
    assert r1[5..|r1| - 8] == c1 && r2[5..|r2| - 8] == c2;
  }

  /** `getItem`: null when the key is absent. */
  function Lookup(m: map<string, string>, key: string): (r: Option<string>)
    ensures r.Some? <==> key in m
    ensures r.Some? ==> r.value == m[key]
  {
    if key in m then Some(m[key]) else None
  }

  /** JavaScript truthiness of `getItem`'s result: present and not empty. */
  predicate Truthy(v: Option<string>) {
    v.Some? && v.value != ""
  }

  /** The store after the two `setItem` calls that persist a pair. */
  function Persisted(m: map<string, string>, clientId: string, pair: TokenPair): (m': map<string, string>)
    ensures Lookup(m', TokenKey(clientId)) == Some(pair.accessToken)
    ensures Lookup(m', RefreshKey(clientId)) == Some(pair.refreshToken)
    ensures m'.Keys == m.Keys + {TokenKey(clientId), RefreshKey(clientId)}
    ensures forall k :: k != TokenKey(clientId) && k != RefreshKey(clientId) ==> Lookup(m', k) == Lookup(m, k)
  {
    KeysDistinct(clientId, clientId);
    m[TokenKey(clientId) := pair.accessToken][RefreshKey(clientId) := pair.refreshToken]
  }

  /** The store after the two `removeItem` calls of `logout`. */
  function Cleared(m: map<string, string>, clientId: string): (m': map<string, string>)
    ensures m'.Keys == m.Keys - {TokenKey(clientId), RefreshKey(clientId)}
    ensures forall k :: k != TokenKey(clientId) && k != RefreshKey(clientId) ==> Lookup(m', k) == Lookup(m, k)
  {
    m - {TokenKey(clientId)} - {RefreshKey(clientId)}
  }

  /**
   * What `refreshTokenSilently` finds before any request: the refresh key is
   * read first, then the token key, and an absent or empty value of either
   * means there is nothing to refresh.
   */
  function StoredSession(m: map<string, string>, clientId: string): (r: Option<TokenPair>)
    ensures r.Some? <==> Truthy(Lookup(m, RefreshKey(clientId))) && Truthy(Lookup(m, TokenKey(clientId)))
    ensures r.Some? ==> r.value == TokenPair(m[TokenKey(clientId)], m[RefreshKey(clientId)])
  {
    var refresh := Lookup(m, RefreshKey(clientId));
    if !Truthy(refresh) then None
    else
      var access := Lookup(m, TokenKey(clientId));
      if !Truthy(access) then None
      else Some(TokenPair(access.value, refresh.value))
  }

  // ---------------------------------------------------------------------------
  // Properties of the key scheme

  /** Logging out twice leaves the same store as logging out once. */
  lemma ClearedIdempotent(m: map<string, string>, clientId: string)
    ensures Cleared(Cleared(m, clientId), clientId) == Cleared(m, clientId)
  {
  }

  /** After logout there is no session to refresh and no token for `getUser`. */
  lemma ClearedHasNoSession(m: map<string, string>, clientId: string)
    ensures StoredSession(Cleared(m, clientId), clientId) == None
    ensures !Truthy(Lookup(Cleared(m, clientId), TokenKey(clientId)))
  {
  }

  /** A persisted pair of non-empty tokens is what the next refresh reads back. */
  lemma PersistedReadsBack(m: map<string, string>, clientId: string, pair: TokenPair)
    requires pair.accessToken != "" && pair.refreshToken != ""
    ensures StoredSession(Persisted(m, clientId, pair), clientId) == Some(pair)
  {
  }

  /** Persisting replaces the pair: the last write wins, nothing is merged. */
  lemma PersistLastWriteWins(m: map<string, string>, clientId: string, p: TokenPair, q: TokenPair)
    ensures Persisted(Persisted(m, clientId, p), clientId, q) == Persisted(m, clientId, q)
  {
  }

  /** Logout removes everything a persist added for this client, and nothing more. */
  lemma ClearUndoesPersist(m: map<string, string>, clientId: string, pair: TokenPair)
    ensures Cleared(Persisted(m, clientId, pair), clientId) == Cleared(m, clientId)
  {
  }

  /** One client persisting or logging out never changes another client's session. */
  lemma ClientsIsolated(m: map<string, string>, c1: string, c2: string, pair: TokenPair)
    requires c1 != c2
    ensures StoredSession(Persisted(m, c1, pair), c2) == StoredSession(m, c2)
    ensures StoredSession(Cleared(m, c1), c2) == StoredSession(m, c2)
    ensures Lookup(Persisted(m, c1, pair), TokenKey(c2)) == Lookup(m, TokenKey(c2))
    ensures Lookup(Cleared(m, c1), TokenKey(c2)) == Lookup(m, TokenKey(c2))
  {
    KeysInjective(c1, c2);
    KeysDistinct(c1, c2);
    KeysDistinct(c2, c1);
  }

  // ---------------------------------------------------------------------------
  // The host's Web Storage and the client

  /** A Web Storage area (`localStorage` or `sessionStorage`). */
  class KeyValueStore {
    var items: map<string, string>

    constructor (initial: map<string, string>)
      ensures items == initial
    {
      items := initial;
    }

    /** `getItem(key)`: null when the key is absent. */
    function GetItem(key: string): (r: Option<string>)
      reads this
      ensures r == Lookup(items, key)
    {
      Lookup(items, key)
    }

    /** `setItem(key, value)`: that key now holds that value; no other key changes. */
    method SetItem(key: string, value: string)
      modifies this
      ensures items == old(items)[key := value]
    {
      items := items[key := value];
    }

    /** `removeItem(key)`: that key is gone, whether or not it was there; no other key changes. */
    method RemoveItem(key: string)
      modifies this
      ensures items == old(items) - {key}
    {
      items := items - {key};
    }
  }

  /** A request the client sends, with what it sends. */
  datatype ApiCall =
    | UsersMe(bearer: string)                          // GET /users/me
    | CodeAuthenticate(code: Option<string>)           // POST /sessions/code/authenticate
    | TokenRefresh(accessToken: string, bearer: string) // POST /sessions/token/refresh

  /** The user record `/users/me` returns, left opaque. */
  datatype User = User(record: string)

  class FrontClient {
    const config: Furo.Config
    const localStorage: KeyValueStore
    const sessionStorage: KeyValueStore
    var calls: seq<ApiCall>

    /** `localStorage` and `sessionStorage` are different storage areas. */
    ghost predicate Valid() {
      localStorage != sessionStorage
    }

    constructor (options: Furo.Options, localStorage: KeyValueStore, sessionStorage: KeyValueStore)
      requires localStorage != sessionStorage
      ensures Valid()
      ensures config == Furo.NewConfig(options) && this.localStorage == localStorage && this.sessionStorage == sessionStorage
      ensures calls == []
    {
      config := Furo.NewConfig(options);
      this.localStorage := localStorage;
      this.sessionStorage := sessionStorage;
      calls := [];
    }

    /**
     * `handleRedirectCallback`: the code is sent whatever it is (even null);
     * only an accepted pair is written, both keys, and returned.
     */
    method HandleRedirectCallback(code: Option<string>, exchanged: Option<TokenPair>, parse: ClaimsParser)
      returns (r: Result<Option<TokenPair>, Furo.Error>)
      requires Valid()
      modifies localStorage, this`calls
      ensures r == Furo.HandleRedirectCallback(config.clientId, exchanged, parse)
      ensures calls == old(calls) + [CodeAuthenticate(code)]
      ensures r.Ok? && r.value.Some? ==> localStorage.items == Persisted(old(localStorage.items), config.clientId, r.value.value)
      ensures !(r.Ok? && r.value.Some?) ==> localStorage.items == old(localStorage.items)
      ensures unchanged(sessionStorage)
    {
      calls := calls + [CodeAuthenticate(code)];
      var data := Furo.HandleRedirectCallback(config.clientId, exchanged, parse);
      if data.Err? {
        return data;
      }
      if data.value.None? {
        return Ok(None);
      }
      var pair := data.value.value;
      localStorage.SetItem(TokenKey(config.clientId), pair.accessToken);
      localStorage.SetItem(RefreshKey(config.clientId), pair.refreshToken);
      return Ok(Some(pair));
    }

    /** `checkSession`: the session-storage value under the token key; neither store changes. */
    method CheckSession() returns (r: Option<string>)
      ensures r.Some? <==> TokenKey(config.clientId) in sessionStorage.items
      ensures r.Some? ==> r.value == sessionStorage.items[TokenKey(config.clientId)]
    {
      r := sessionStorage.GetItem(TokenKey(config.clientId));
    }

    /**
     * `refreshTokenSilently`: with no stored pair it returns null and sends
     * nothing; otherwise it sends the stored pair, and on success overwrites
     * both keys with the new pair and returns it.
     */
    method RefreshTokenSilently(refreshed: Option<TokenPair>) returns (r: Result<Option<TokenPair>, Furo.Error>)
      requires Valid()
      modifies localStorage, this`calls
      ensures StoredSession(old(localStorage.items), config.clientId).None? ==>
                r == Ok(None) && calls == old(calls) && localStorage.items == old(localStorage.items)
      ensures StoredSession(old(localStorage.items), config.clientId).Some? ==>
                var stored := StoredSession(old(localStorage.items), config.clientId).value;
                && calls == old(calls) + [TokenRefresh(stored.accessToken, stored.refreshToken)]
                && (refreshed.None? ==> r == Err(Furo.RefreshFailed) && localStorage.items == old(localStorage.items))
                && (refreshed.Some? ==> r == Ok(refreshed) &&
                                        localStorage.items == Persisted(old(localStorage.items), config.clientId, refreshed.value))
      ensures unchanged(sessionStorage)
    {
      var oldRefreshToken := localStorage.GetItem(RefreshKey(config.clientId));
      if !Truthy(oldRefreshToken) {
        return Ok(None);
      }
      var oldAccessToken := localStorage.GetItem(TokenKey(config.clientId));
      if !Truthy(oldAccessToken) {
        return Ok(None);
      }
      calls := calls + [TokenRefresh(oldAccessToken.value, oldRefreshToken.value)];
      var token := Furo.RefreshTokenSilently(refreshed);
      if token.Err? {
        return Err(token.error);
      }
      var pair := token.value;
      localStorage.SetItem(TokenKey(config.clientId), pair.accessToken);
      localStorage.SetItem(RefreshKey(config.clientId), pair.refreshToken);
      return Ok(Some(pair));
    }

    /** `logout`: removes the two keys of this client, whether or not they exist. */
    method Logout()
      requires Valid()
      modifies localStorage
      ensures localStorage.items == Cleared(old(localStorage.items), config.clientId)
      ensures unchanged(sessionStorage) && calls == old(calls)
    {
      localStorage.RemoveItem(TokenKey(config.clientId));
      localStorage.RemoveItem(RefreshKey(config.clientId));
    }

    /**
     * `getUser`: with no (or an empty) stored access token it returns null and
     * sends nothing; otherwise it sends that token as the bearer credential.
     * It never writes to either store.
     */
    method GetUser(user: Option<User>) returns (r: Result<Option<User>, Furo.Error>)
      requires Valid()
      modifies this`calls
      ensures !Truthy(Lookup(localStorage.items, TokenKey(config.clientId))) ==> r == Ok(None) && calls == old(calls)
      ensures Truthy(Lookup(localStorage.items, TokenKey(config.clientId))) ==>
                && calls == old(calls) + [UsersMe(localStorage.items[TokenKey(config.clientId)])]
                && r == (if user.Some? then Ok(user) else Err(Furo.UserLookupFailed))
      ensures unchanged(localStorage) && unchanged(sessionStorage)
    {
      var accessToken := localStorage.GetItem(TokenKey(config.clientId));
      if !Truthy(accessToken) {
        return Ok(None);
      }
      calls := calls + [UsersMe(accessToken.value)];
      if user.None? {
        return Err(Furo.UserLookupFailed);
      }
      return Ok(user);
    }
  }

  // ---------------------------------------------------------------------------
  // Sequences of calls

  /** Logging out twice succeeds and leaves the store as one logout does. */
  method LogoutTwice(client: FrontClient)
    requires client.Valid()
    modifies client.localStorage
    ensures client.localStorage.items == Cleared(old(client.localStorage.items), client.config.clientId)
    ensures client.calls == old(client.calls)
  {
    client.Logout();
    client.Logout();
    ClearedIdempotent(old(client.localStorage.items), client.config.clientId);
  }

  /** After logout, `getUser` returns null without a request, and a silent refresh does too. */
  method LogoutThenGetUser(client: FrontClient, user: Option<User>, refreshed: Option<TokenPair>)
    returns (u: Result<Option<User>, Furo.Error>, t: Result<Option<TokenPair>, Furo.Error>)
    requires client.Valid()
    modifies client.localStorage, client`calls
    ensures u == Ok(None) && t == Ok(None)
    ensures client.calls == old(client.calls)
    ensures client.localStorage.items == Cleared(old(client.localStorage.items), client.config.clientId)
  {
    client.Logout();
    ClearedHasNoSession(old(client.localStorage.items), client.config.clientId);
    u := client.GetUser(user);
    t := client.RefreshTokenSilently(refreshed);
  }

  /**
   * A login that is accepted with two non-empty tokens, followed by a silent
   * refresh: the refresh request carries exactly the pair the login stored.
   */
  method LoginThenRefresh(client: FrontClient, code: Option<string>, pair: TokenPair, parse: ClaimsParser,
                          refreshed: Option<TokenPair>)
    returns (login: Result<Option<TokenPair>, Furo.Error>, refresh: Result<Option<TokenPair>, Furo.Error>)
    requires client.Valid()
    requires pair.accessToken != "" && pair.refreshToken != ""
    requires Furo.CheckOwnership(client.config.clientId, pair, parse) == Ok(Some(pair))
    modifies client.localStorage, client`calls
    ensures login == Ok(Some(pair))
    ensures client.calls == old(client.calls) + [CodeAuthenticate(code), TokenRefresh(pair.accessToken, pair.refreshToken)]
    ensures refreshed.Some? ==>
              && refresh == Ok(refreshed)
              && client.localStorage.items == Persisted(old(client.localStorage.items), client.config.clientId, refreshed.value)
    ensures refreshed.None? ==>
              && refresh == Err(Furo.RefreshFailed)
              && client.localStorage.items == Persisted(old(client.localStorage.items), client.config.clientId, pair)
  {
    login := client.HandleRedirectCallback(code, Some(pair), parse);
    PersistedReadsBack(old(client.localStorage.items), client.config.clientId, pair);
    refresh := client.RefreshTokenSilently(refreshed);
    if refreshed.Some? {
      PersistLastWriteWins(old(client.localStorage.items), client.config.clientId, pair, refreshed.value);
    }
  }
}
