/** The credentials azcopy runs with: a SAS token, possibly from a timed cache, or the cluster identity. */
module Credentials {
  import opened Wrappers

  /** Minutes since an arbitrary origin. */
  type Minutes = nat

  /** Entries of azcopySasTokenCache are served for this long. */
  const CACHE_MINUTES: nat := 15

  /** What the cluster configuration offers. */
  datatype Identity = Identity(
    useManagedIdentity: bool, userAssignedID: string, clientSecret: string, clientID: string, tenantID: string)

  /** authorizeAzcopyWithIdentity. */
  function AuthorizeWithIdentity(id: Identity): (r: Result<seq<string>>)
    ensures r.Ok? ==> r.value != []
    ensures r.Ok? <==> id.useManagedIdentity || (id.clientSecret != "" && id.clientID != "" && id.tenantID != "")
  {
    if id.useManagedIdentity then
      Ok(["AZCOPY_AUTO_LOGIN_TYPE=MSI"]
         + if id.userAssignedID != "" then ["AZCOPY_MSI_CLIENT_ID=" + id.userAssignedID] else [])
    else if id.clientSecret != "" then
      if id.clientID == "" || id.tenantID == "" then Err("AADClientID and TenantID must be set when use service principal")
      else Ok([
        "AZCOPY_AUTO_LOGIN_TYPE=SPN",
        "AZCOPY_SPA_APPLICATION_ID=" + id.clientID,
        "AZCOPY_SPA_CLIENT_SECRET=" + id.clientSecret,
        "AZCOPY_TENANT_ID=" + id.tenantID])
    else Err("service principle or managed identity are both not set")
  }

  /** What azcopy is told of a managed identity, with or without a user-assigned one. */
  lemma ManagedIdentityEnvironment(id: Identity)
    requires id.useManagedIdentity
    ensures var r := AuthorizeWithIdentity(id);
            && r.Ok?
            && (id.userAssignedID == "" ==> r.value == ["AZCOPY_AUTO_LOGIN_TYPE=MSI"])
            && (id.userAssignedID != "" ==>
                  r.value == ["AZCOPY_AUTO_LOGIN_TYPE=MSI", "AZCOPY_MSI_CLIENT_ID=" + id.userAssignedID])
  {
  }

  /** And of a service principal, which a managed identity comes before. */
  lemma ServicePrincipalEnvironment(id: Identity)
    requires !id.useManagedIdentity
    ensures AuthorizeWithIdentity(id).Ok? <==> id.clientSecret != "" && id.clientID != "" && id.tenantID != ""
    ensures AuthorizeWithIdentity(id).Ok? ==>
              AuthorizeWithIdentity(id).value == [
                "AZCOPY_AUTO_LOGIN_TYPE=SPN", "AZCOPY_SPA_APPLICATION_ID=" + id.clientID,
                "AZCOPY_SPA_CLIENT_SECRET=" + id.clientSecret, "AZCOPY_TENANT_ID=" + id.tenantID]
  {
  }

  /** Either a token or an identity environment. */
  datatype Auth = Auth(token: string, env: seq<string>)

  /** A cached token, with the time it was put in the cache and the time Azure stops accepting it. */
  datatype Entry = Entry(token: string, storedAt: Minutes, expiresAt: Minutes)

  /** What getAzcopyAuth is asked: the flags of its call and of the data-plane cache. */
  datatype Query = Query(
    account: string, accountKey: string, hasSecrets: bool, hasSecretName: bool, useSasToken: bool, dataPlane: bool)
  {
    predicate MayUseIdentity() {
      !useSasToken && !dataPlane && !hasSecrets && !hasSecretName
    }
  }

  class SasTokens {
    const identity: Identity
    const expirationMinutes: nat
    var now: Minutes
    var cache: map<string, Entry>

    constructor (identity: Identity, expirationMinutes: nat)
      ensures Valid() && cache == map[] && now == 0
      ensures this.identity == identity && this.expirationMinutes == expirationMinutes
    {
      this.identity, this.expirationMinutes := identity, expirationMinutes;
      now, cache := 0, map[];
    }

    ghost predicate Valid()
      reads this
    {
      forall a :: a in cache ==>
        && cache[a].token != ""
        && cache[a].storedAt <= now
        && cache[a].expiresAt == cache[a].storedAt + expirationMinutes
    }

    /** The entry the timed cache would serve. */
    predicate Served(account: string)
      reads this
    {
      account in cache && now - cache[account].storedAt < CACHE_MINUTES
    }

    method Tick(minutes: nat)
      requires Valid()
      modifies `now
      ensures Valid() && now == old(now) + minutes
    {
      now := now + minutes;
    }

    /** generateSASToken; `query` is the query string of a freshly signed URL, or the reason signing failed. */
    method GenerateSasToken(account: string, query: Result<string>) returns (r: Result<string>)
      requires Valid()
      modifies `cache
      ensures Valid()
      ensures old(account in cache && now - cache[account].storedAt < 15) ==> r == Ok(old(cache[account].token)) && cache == old(cache)
      ensures !old(Served(account)) && query.Err? ==> r == Err(query.message) && cache == old(cache)
      ensures !old(Served(account)) && query.Ok? ==>
                && r == Ok("?" + query.value)
                && cache == old(cache)[account := Entry("?" + query.value, now, now + expirationMinutes)]
    {
      if Served(account) {
        return Ok(cache[account].token);
      }
      if query.Err? {
        return Err(query.message);
      }
      var token := "?" + query.value;
      cache := cache[account := Entry(token, now, now + expirationMinutes)];
      return Ok(token);
    }

    /** getAzcopyAuth; `key` answers the account-key lookup, `query` the signing, if they are reached. */
    method GetAzcopyAuth(q: Query, key: Result<string>, query: Result<string>) returns (r: Result<Auth>)
      requires Valid()
      modifies `cache
      ensures Valid()
      ensures r.Ok? ==> (r.value.token != "" && r.value.env == []) || (r.value.token == "" && r.value.env != [])
      // a token is the one now in the cache, and is accepted for more than (expiration - 15) further minutes
      ensures r.Ok? && r.value.token != "" ==>
                && q.account in cache && cache[q.account].token == r.value.token
                && cache[q.account].expiresAt + 15 > now + expirationMinutes
      // identity is used exactly when it is allowed, configured and no token is cached
      ensures r.Ok? && r.value.env != [] <==>
                q.MayUseIdentity() && !old(Served(q.account)) && AuthorizeWithIdentity(identity).Ok?
      ensures r.Ok? && r.value.env != [] ==> r.value.env == AuthorizeWithIdentity(identity).value
      // without a cached token or identity, both the key and the signature are needed
      ensures r.Err? <==>
                && !(q.MayUseIdentity() && (old(Served(q.account)) || AuthorizeWithIdentity(identity).Ok?))
                && ((q.accountKey == "" && key.Err?) || (!old(Served(q.account)) && query.Err?))
      ensures forall a :: a != q.account ==> (a in cache <==> a in old(cache)) && (a in cache ==> cache[a] == old(cache)[a])
      ensures old(Served(q.account)) ==> cache == old(cache)
    {
      var env: seq<string> := [];
      if q.MayUseIdentity() {
        if Served(q.account) {
          return Ok(Auth(cache[q.account].token, []));
        }
        var id := AuthorizeWithIdentity(identity);
        if id.Ok? {
          env := id.value;
        }
      }
      if q.hasSecrets || q.hasSecretName || env == [] || q.useSasToken {
        if q.accountKey == "" && key.Err? {
          return Err(key.message);
        }
        var token := GenerateSasToken(q.account, query);
        if token.Err? {
          return Err(token.message);
        }
        return Ok(Auth(token.value, []));
      }
      return Ok(Auth("", env));
    }

    /** A token handed out now outlives a copy that is waited for at most waitMinutes, if the expiration allows for the
        cache time and the wait. */
    method AuthOutlivesCopy(q: Query, key: Result<string>, query: Result<string>, waitMinutes: nat) returns (r: Result<Auth>)
      requires Valid()
      requires expirationMinutes >= CACHE_MINUTES + waitMinutes
      modifies `cache
      ensures Valid()
      ensures r.Ok? && r.value.token != "" ==>
                q.account in cache && cache[q.account].token == r.value.token && cache[q.account].expiresAt > now + waitMinutes
    {
      r := GetAzcopyAuth(q, key, query);
    }
  }

  /** The bound is exact: with a shorter expiration, a run hands out a cached token that expires during the wait. */
  method TokenExpiresDuringCopy(identity: Identity, expirationMinutes: nat, waitMinutes: nat, account: string, query: string)
    returns (tokens: SasTokens, r: Result<Auth>)
    requires expirationMinutes < CACHE_MINUTES + waitMinutes
    ensures fresh(tokens) && tokens.Valid() && tokens.expirationMinutes == expirationMinutes
    ensures r.Ok? && r.value == Auth("?" + query, [])
    ensures account in tokens.cache && tokens.cache[account].token == r.value.token
    ensures tokens.cache[account].expiresAt <= tokens.now + waitMinutes
  {
    tokens := new SasTokens(identity, expirationMinutes);
    var first := tokens.GenerateSasToken(account, Ok(query));
    tokens.Tick(CACHE_MINUTES - 1);
    r := tokens.GetAzcopyAuth(Query(account, "", false, false, false, false), Err("unused"), Err("unused"));
  }
}
