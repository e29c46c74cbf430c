/** The cache-backed token store (pii/anonymize/tokenstore.go). The token of a value is derived, so that one record
    under one key is all there is; each method is one atomic step, around a single call to the cache. */
module CacheTokens {
  import opened Wrappers
  import opened Splitting
  import opened TokenContract
  import opened TokenRecords

  /** The cryptography, taken as ideal: a keyed digest that tells inputs apart, and a seal that opens to what was
      sealed under the same tenant, key version and associated data. */
  datatype Keyring = Keyring(mac: (string, string, string) -> string,
                             seal: (string, string, string, Bytes, string) -> Bytes,
                             open: (string, string, string, Bytes, Bytes) -> Option<string>)
  {
    ghost predicate Ideal() {
      && (forall t, e, m, t', e', m' {:trigger mac(t, e, m), mac(t', e', m')} ::
            mac(t, e, m) == mac(t', e', m') ==> t == t' && e == e' && m == m')
      && (forall t, version, aad, nonce, v {:trigger seal(t, version, aad, nonce, v)} ::
            open(t, version, aad, nonce, seal(t, version, aad, nonce, v)) == Some(v))
    }
  }

  const NUL := '\0'

  function Derive(k: Keyring, epoch: string, p: Pair): string {
    k.mac(p.key.tenant, epoch, p.key.namespace + [NUL] + p.value)
  }

  function Aad(key: TokenKey, token: string, version: string, epoch: string): string {
    key.tenant + "\0" + key.namespace + "\0" + token + "\0" + version + "\0" + epoch
  }

  lemma AadInjective(key: TokenKey, token: string, version: string, epoch: string,
                     key': TokenKey, token': string, version': string, epoch': string)
    requires ValidKey(key) && ValidKey(key') && NUL !in token && NUL !in token' && NUL !in version && NUL !in version'
    requires Aad(key, token, version, epoch) == Aad(key', token', version', epoch')
    ensures key == key' && token == token' && version == version' && epoch == epoch'
  {
    var rest, rest' := version + "\0" + epoch, version' + "\0" + epoch';
    Nested(key.tenant, key.namespace, token, version, epoch);
    Nested(key'.tenant, key'.namespace, token', version', epoch');
    FourParts(key, token, rest, key', token', rest');
    JoinInjective(version, epoch, version', epoch', NUL);
  }

  /** tenant + ":" + namespace + ":t:" + token, after the prefix that all keys of a store share. */
  function CacheKey(key: TokenKey, token: string): string { key.tenant + ":" + (key.namespace + ":" + ("t:" + token)) }

  function TenantPrefix(tenant: string): string { tenant + ":" }

  lemma NoSeparator(k: TokenKey)
    requires ValidKey(k)
    ensures ':' !in k.tenant && ':' !in k.namespace && NUL !in k.namespace
  {
  }

  lemma CacheKeyInjective(k: TokenKey, x: string, k': TokenKey, x': string)
    requires ValidKey(k) && ValidKey(k') && CacheKey(k, x) == CacheKey(k', x')
    ensures k == k' && x == x'
  {
    NoSeparator(k);
    NoSeparator(k');
    JoinInjective(k.tenant, k.namespace + ":" + ("t:" + x), k'.tenant, k'.namespace + ":" + ("t:" + x'), ':');
    JoinInjective(k.namespace, "t:" + x, k'.namespace, "t:" + x', ':');
    assert ("t:" + x)[2..] == x && ("t:" + x')[2..] == x';
  }

  lemma CacheKeyPrefix(k: TokenKey, x: string, tenant: string)
    requires ValidKey(k) && ValidTenant(tenant)
    ensures HasPrefix(CacheKey(k, x), TenantPrefix(tenant)) <==> k.tenant == tenant
  {
    NoSeparator(k);
    JoinPrefix(k.tenant, k.namespace + ":" + ("t:" + x), tenant, ':');
  }

  lemma DeriveInjective(k: Keyring, epoch: string, p: Pair, q: Pair)
    requires k.Ideal() && ValidKey(p.key) && ValidKey(q.key) && Derive(k, epoch, p) == Derive(k, epoch, q)
    ensures p == q
  {
    NoSeparator(p.key);
    NoSeparator(q.key);
    JoinInjective(p.key.namespace, p.value, q.key.namespace, q.value, NUL);
  }

  // ---------------------------------------------------------------------------------------------
  // What the cache holds.
  // ---------------------------------------------------------------------------------------------

  datatype Config = Config(keyring: Keyring, b64: Base64, epoch: string)
  {
    ghost predicate Ideal() { keyring.Ideal() && b64.Ideal() && ValidLabel(epoch) }
  }

  function Opened(c: Config, key: TokenKey, token: string, r: TokenRecord): Option<string> {
    c.keyring.open(key.tenant, r.keyVersion, Aad(key, token, r.keyVersion, r.identityEpoch), r.nonce, r.cipher)
  }

  /** The record under a binding's key opens to its value, whichever key version it was sealed under. */
  ghost predicate RecordOf(c: Config, cache: map<string, string>, p: Pair, b: Binding) {
    && ValidKey(p.key) && b.token == Derive(c.keyring, c.epoch, p) && CacheKey(p.key, b.token) in cache
    && var r := Decode(c.b64, cache[CacheKey(p.key, b.token)]);
       r.Success? && Opened(c, p.key, b.token, r.value) == Some(p.value) && r.value.expiresAt == b.lastAlive
  }

  ghost predicate KeyOf(bind: Bindings, p: Pair, k: string) { p in bind && CacheKey(p.key, bind[p].token) == k }

  ghost predicate KnownKey(bind: Bindings, k: string) { exists p :: KeyOf(bind, p, k) }

  ghost predicate Consistent(c: Config, cache: map<string, string>, bind: Bindings) {
    && (forall p {:trigger RecordOf(c, cache, p, bind[p])} :: p in bind ==> RecordOf(c, cache, p, bind[p]))
    && (forall k {:trigger KnownKey(bind, k)} :: k in cache ==> KnownKey(bind, k))
  }

  lemma Owners(c: Config, cache: map<string, string>, bind: Bindings)
    requires c.Ideal() && Consistent(c, cache, bind)
    ensures OneOwner(bind)
  {
    forall p, q | p in bind && q in bind && bind[p].token == bind[q].token ensures p == q {
      assert RecordOf(c, cache, p, bind[p]) && RecordOf(c, cache, q, bind[q]);
      DeriveInjective(c.keyring, c.epoch, p, q);
    }
  }

  /** A key of the cache belongs to one binding. */
  lemma KeyIsBinding(c: Config, cache: map<string, string>, bind: Bindings, key: TokenKey, token: string)
    requires c.Ideal() && Consistent(c, cache, bind) && ValidKey(key) && CacheKey(key, token) in cache
    ensures exists p :: p in bind && p.key == key && bind[p].token == token && RecordOf(c, cache, p, bind[p])
  {
    var k := CacheKey(key, token);
    assert KnownKey(bind, k);
    var p :| KeyOf(bind, p, k);
    assert RecordOf(c, cache, p, bind[p]);
    CacheKeyInjective(key, token, p.key, bind[p].token);
  }

  lemma DerivedKey(c: Config, cache: map<string, string>, bind: Bindings, p: Pair)
    requires c.Ideal() && Consistent(c, cache, bind) && ValidKey(p.key)
    ensures CacheKey(p.key, Derive(c.keyring, c.epoch, p)) in cache <==> p in bind
    ensures p in bind ==> RecordOf(c, cache, p, bind[p])
  {
    if p in bind {
      assert RecordOf(c, cache, p, bind[p]);
    } else if CacheKey(p.key, Derive(c.keyring, c.epoch, p)) in cache {
      KeyIsBinding(c, cache, bind, p.key, Derive(c.keyring, c.epoch, p));
      var q :| q in bind && q.key == p.key && bind[q].token == Derive(c.keyring, c.epoch, p) && RecordOf(c, cache, q, bind[q]);
      DeriveInjective(c.keyring, c.epoch, p, q);
      assert false;
    }
  }

  /** Looking a token up is what Resolve means. */
  lemma LookupResolves(c: Config, cache: map<string, string>, bind: Bindings, key: TokenKey, token: string, now: int)
    requires c.Ideal() && Consistent(c, cache, bind) && ValidKey(key)
    ensures CacheKey(key, token) !in cache ==> ResolvesTo(bind, key, token, now, None)
    ensures CacheKey(key, token) in cache ==>
              var r := Decode(c.b64, cache[CacheKey(key, token)]);
              && r.Success? && Opened(c, key, token, r.value).Some?
              && ResolvesTo(bind, key, token, now, if r.value.Expired(now) then None else Opened(c, key, token, r.value))
  {
    if CacheKey(key, token) in cache {
      Owners(c, cache, bind);
      KeyIsBinding(c, cache, bind, key, token);
      var p :| p in bind && p.key == key && bind[p].token == token && RecordOf(c, cache, p, bind[p]);
      assert Pair(p.key, p.value) == p;
    } else {
      forall p | p in bind && p.key == key ensures bind[p].token != token {
        assert RecordOf(c, cache, p, bind[p]);
      }
    }
  }

  function NewRecord(c: Config, p: Pair, version: string, nonce: Bytes, expiresAt: Option<int>): TokenRecord {
    var aad := Aad(p.key, Derive(c.keyring, c.epoch, p), version, c.epoch);
    TokenRecord(version, c.epoch, nonce, c.keyring.seal(p.key.tenant, version, aad, nonce, p.value), expiresAt)
  }

  predicate Storable(expiresAt: Option<int>) { expiresAt.Some? ==> -INT64 <= expiresAt.value / SECOND < INT64 }

  lemma CreateKeeps(c: Config, cache: map<string, string>, bind: Bindings, clock: int, p: Pair, version: string, nonce: Bytes, expiresAt: Option<int>)
    requires c.Ideal() && Consistent(c, cache, bind) && ValidKey(p.key) && p !in bind && ValidLabel(version) && Storable(expiresAt)
    ensures var tok := Derive(c.keyring, c.epoch, p);
            var b := Binding(tok, Stored(expiresAt));
            && Binds(bind, clock, p, b, bind[p := b])
            && Consistent(c, cache[CacheKey(p.key, tok) := Encode(c.b64, NewRecord(c, p, version, nonce, expiresAt))], bind[p := b])
  {
    var tok, r := Derive(c.keyring, c.epoch, p), NewRecord(c, p, version, nonce, expiresAt);
    var b := Binding(tok, Stored(expiresAt));
    var cache', bind' := cache[CacheKey(p.key, tok) := Encode(c.b64, r)], bind[p := b];
    RecordRoundTrip(c.b64, r);
    assert RecordOf(c, cache', p, b);
    forall q | q in bind && q != p ensures RecordOf(c, cache', q, bind[q]) && bind[q].token != tok {
      assert RecordOf(c, cache, q, bind[q]);
      if bind[q].token == tok {
        DeriveInjective(c.keyring, c.epoch, p, q);
      }
      if CacheKey(q.key, bind[q].token) == CacheKey(p.key, tok) {
        CacheKeyInjective(q.key, bind[q].token, p.key, tok);
      }
    }
    forall k | k in cache' ensures KnownKey(bind', k) {
      if k == CacheKey(p.key, tok) {
        assert KeyOf(bind', p, k);
      } else {
        assert KnownKey(bind, k);
        var q :| KeyOf(bind, q, k);
        assert KeyOf(bind', q, k);
      }
    }
  }

  function Unprefixed(m: map<string, string>, prefix: string): map<string, string> {
    map k | k in m && !HasPrefix(k, prefix) :: m[k]
  }

  lemma ClearKeeps(c: Config, cache: map<string, string>, bind: Bindings, tenant: string)
    requires c.Ideal() && Consistent(c, cache, bind) && ValidTenant(tenant)
    ensures Consistent(c, Unprefixed(cache, TenantPrefix(tenant)), Without(bind, tenant))
  {
    var cache', bind' := Unprefixed(cache, TenantPrefix(tenant)), Without(bind, tenant);
    forall p | p in bind' ensures RecordOf(c, cache', p, bind'[p]) {
      assert RecordOf(c, cache, p, bind[p]);
      CacheKeyPrefix(p.key, bind[p].token, tenant);
    }
    forall k | k in cache' ensures KnownKey(bind', k) {
      assert KnownKey(bind, k);
      var p :| KeyOf(bind, p, k);
      assert RecordOf(c, cache, p, bind[p]);
      CacheKeyPrefix(p.key, bind[p].token, tenant);
      assert KeyOf(bind', p, k);
    }
  }

  lemma EvictKeeps(c: Config, cache: map<string, string>, bind: Bindings, p: Pair)
    requires c.Ideal() && Consistent(c, cache, bind) && p in bind
    ensures Consistent(c, cache - {CacheKey(p.key, bind[p].token)}, bind - {p})
  {
    var gone := CacheKey(p.key, bind[p].token);
    var cache', bind' := cache - {gone}, bind - {p};
    assert RecordOf(c, cache, p, bind[p]);
    forall q | q in bind' ensures RecordOf(c, cache', q, bind'[q]) {
      assert RecordOf(c, cache, q, bind[q]);
      if CacheKey(q.key, bind[q].token) == gone {
        CacheKeyInjective(q.key, bind[q].token, p.key, bind[p].token);
        DeriveInjective(c.keyring, c.epoch, p, q);
      }
    }
    forall k | k in cache' ensures KnownKey(bind', k) {
      assert KnownKey(bind, k);
      var q :| KeyOf(bind, q, k);
      assert KeyOf(bind', q, k);
    }
  }

  // ---------------------------------------------------------------------------------------------
  // The store.
  // ---------------------------------------------------------------------------------------------

  /** The checks on the record that the cache returned, before a token is handed out. */
  function Checked(c: Config, key: TokenKey, tok: string, value: string, current: string, now: int): Result<string, TokenError> {
    match Decode(c.b64, current)
    case Failure(_) => Failure(Malformed)
    case Success(r) =>
      if r.Expired(now) then Failure(BackendExpired)
      else
        match Opened(c, key, tok, r)
        case None => Failure(CannotOpen)
        case Some(plain) => if plain == value then Success(tok) else Failure(Collision)
  }

  function Answer(c: Config, key: TokenKey, token: string, raw: string, now: int): Result<Option<string>, TokenError> {
    match Decode(c.b64, raw)
    case Failure(_) => Failure(Malformed)
    case Success(r) =>
      if r.Expired(now) then Success(None)
      else
        match Opened(c, key, token, r)
        case None => Failure(CannotOpen)
        case Some(plain) => Success(Some(plain))
  }

  class CacheTokenStore {
    const config: Config
    const ttl: int
    var cache: map<string, string>
    ghost var bind: Bindings

    ghost predicate Valid()
      reads this
    {
      config.Ideal() && Consistent(config, cache, bind)
    }

    constructor (config: Config, ttl: int)
      requires config.Ideal()
      ensures Valid() && this.config == config && this.ttl == ttl && bind == map[]
    {
      this.config, this.ttl, cache, bind := config, ttl, map[], map[];
    }

    /** The cache's own operation: what is under the key afterwards, which is what was there if anything was. */
    method FindOrCreate(key: string, value: string) returns (current: string)
      modifies this`cache
      ensures cache == (if key in old(cache) then old(cache) else old(cache)[key := value])
      ensures key in cache && current == cache[key]
    {
      if key !in cache {
        cache := cache[key := value];
      }
      current := cache[key];
    }

    function Expiry(started: int): Option<int> { if ttl > 0 then Some(started + ttl) else None }

    /** Issues the token of a value. The token does not depend on the key version, which may differ from call to call;
        a record in place stays, and opens under the version it names. The call fails exactly when the record in the
        cache, or the one just stored in whole seconds, has expired. */
    method Issue(key: TokenKey, value: string, version: string, nonce: Bytes, started: int, now: int) returns (r: Result<string, TokenError>)
      requires Valid() && started <= now && ValidLabel(version) && Storable(Expiry(started))
      modifies this
      ensures Valid()
      ensures !ValidKey(key) ==> r == Failure(InvalidKey) && bind == old(bind) && cache == old(cache)
      ensures ValidKey(key) ==> var p, tok := Pair(key, value), Derive(config.keyring, config.epoch, Pair(key, value));
              && p in bind && bind[p].token == tok
              && (if p in old(bind) then bind == old(bind) && cache == old(cache)
                  else Step(old(bind), now, Bound(p), bind) && bind[p].lastAlive == Stored(if ttl > 0 then Some(started + ttl) else None))
              && (r == if Alive(bind[p], now) then Success(tok) else Failure(BackendExpired))
              && (r.Success? ==> Step(old(bind), now, Answered(p, tok, now), bind) && ResolvesTo(bind, key, tok, now, Some(value)))
    {
      if !ValidKey(key) {
        return Failure(InvalidKey);
      }
      ghost var p := Pair(key, value);
      var tok := Derive(config.keyring, config.epoch, Pair(key, value));
      var rec := NewRecord(config, Pair(key, value), version, nonce, Expiry(started));
      DerivedKey(config, cache, bind, p);
      if p !in bind {
        CreateKeeps(config, cache, bind, now, p, version, nonce, Expiry(started));
      }
      var current := FindOrCreate(CacheKey(key, tok), Encode(config.b64, rec));
      if p !in bind {
        bind := bind[p := Binding(tok, Stored(Expiry(started)))];
      }
      DerivedKey(config, cache, bind, p);
      r := Checked(config, key, tok, value, current, now);
    }

    method Resolve(key: TokenKey, token: string, now: int) returns (r: Result<Option<string>, TokenError>)
      requires Valid()
      ensures !ValidKey(key) ==> r == Failure(InvalidKey)
      ensures ValidKey(key) ==> r.Success? && ResolvesTo(bind, key, token, now, r.value)
    {
      if !ValidKey(key) {
        return Failure(InvalidKey);
      }
      LookupResolves(config, cache, bind, key, token, now);
      if CacheKey(key, token) !in cache {
        return Success(None);
      }
      r := Answer(config, key, token, cache[CacheKey(key, token)], now);
    }

    /** Deletes everything under the tenant's prefix, and nothing else. */
    method Clear(tenant: string) returns (r: Result<nat, TokenError>)
      requires Valid()
      modifies this
      ensures Valid()
      ensures !ValidTenant(tenant) ==> r == Failure(InvalidTenant) && bind == old(bind)
      ensures ValidTenant(tenant) ==>
                && Step(old(bind), 0, Cleared(tenant), bind)
                && r == Success(|set k | k in old(cache) && HasPrefix(k, TenantPrefix(tenant))|)
    {
      if !ValidTenant(tenant) {
        return Failure(InvalidTenant);
      }
      ClearKeeps(config, cache, bind, tenant);
      r := Success(|set k | k in cache && HasPrefix(k, TenantPrefix(tenant))|);
      cache, bind := Unprefixed(cache, TenantPrefix(tenant)), Without(bind, tenant);
    }

    /** The backend forgets a key whose time is over. */
    method Evict(key: string, ghost p: Pair, ghost now: int)
      requires Valid() && KeyOf(bind, p, key) && !Alive(bind[p], now)
      modifies this
      ensures Valid() && Step(old(bind), now, Dropped(p), bind)
    {
      EvictKeeps(config, cache, bind, p);
      cache, bind := cache - {key}, bind - {p};
    }
  }

  /** A value whose record has expired, and that the backend still keeps, gets no token: issued with two seconds to live, and
      again after five. */
  method ExpiredRecordBlocks(config: Config, nonce: Bytes) returns (first: Result<string, TokenError>, second: Result<string, TokenError>)
    requires config.Ideal()
    ensures first.Success? && second == Failure(BackendExpired)
  {
    var store := new CacheTokenStore(config, 2 * SECOND);
    var key, start := TokenKey("t", "n"), 1_767_225_600 * SECOND;
    first := store.Issue(key, "x", "v1", nonce, start, start);
    second := store.Issue(key, "x", "v1", nonce, start + 5 * SECOND, start + 5 * SECOND);
  }
}
