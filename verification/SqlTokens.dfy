/** The relational token store (pii/anonymize/tokenstore.go). Each method but Issue is one statement against the
    database, an atomic step; the contracts hold in whatever order the statements of many callers come. */
module SqlTokens {
  import opened Wrappers
  import opened TokenContract

  type Bytes = seq<int>

  /** The cryptography, taken as ideal: a digest that tells inputs apart, and a seal that opens to what was sealed
      under the same tenant, key version and associated data. */
  datatype Keyring = Keyring(digest: (string, string, string) -> string,
                             seal: (string, string, string, Bytes, string) -> Bytes,
                             open: (string, string, string, Bytes, Bytes) -> Option<string>)
  {
    ghost predicate Ideal() {
      && (forall t, n, v, t', n', v' {:trigger digest(t, n, v), digest(t', n', v')} ::
            digest(t, n, v) == digest(t', n', v') ==> t == t' && n == n' && v == v')
      && (forall t, version, aad, nonce, v {:trigger seal(t, version, aad, nonce, v)} ::
            open(t, version, aad, nonce, seal(t, version, aad, nonce, v)) == Some(v))
    }
  }

  /** What a ciphertext is bound to. */
  function Aad(key: TokenKey, token: string, version: string): string {
    key.tenant + "\0" + key.namespace + "\0" + token + "\0" + version + "\0" + "sql"
  }

  /** What a ciphertext is bound to tells tenant, namespace, token and version apart. */
  lemma AadInjective(key: TokenKey, token: string, version: string, key': TokenKey, token': string, version': string)
    requires ValidKey(key) && ValidKey(key') && '\0' !in token && '\0' !in token' && '\0' !in version && '\0' !in version'
    requires Aad(key, token, version) == Aad(key', token', version')
    ensures key == key' && token == token' && version == version'
  {
    var rest, rest' := version + "\0" + "sql", version' + "\0" + "sql";
    Nested(key.tenant, key.namespace, token, version, "sql");
    Nested(key'.tenant, key'.namespace, token', version', "sql");
    FourParts(key, token, rest, key', token', rest');
    JoinInjective(version, "sql", version', "sql", '\0');
  }

  datatype RowKey = RowKey(key: TokenKey, token: string)

  const SECOND := 1_000_000_000

  /** expires is the first second at which the row counts as gone. */
  datatype Row = Row(digest: string, cipher: Bytes, nonce: Bytes, version: string, expires: Option<int>)
  {
    predicate Live(now: int) { expires.None? || expires.value > now }
  }

  type Table = map<RowKey, Row>

  function LastAlive(expires: Option<int>): Option<int> {
    match expires case None => None case Some(e) => Some(e - 1)
  }

  /** The row holds the binding: found by the digest of its value, and opened to it. */
  ghost predicate RowOf(k: Keyring, table: Table, p: Pair, b: Binding) {
    && ValidKey(p.key) && RowKey(p.key, b.token) in table
    && var row := table[RowKey(p.key, b.token)];
       && row.digest == k.digest(p.key.tenant, p.key.namespace, p.value)
       && k.open(p.key.tenant, row.version, Aad(p.key, b.token, row.version), row.nonce, row.cipher) == Some(p.value)
       && LastAlive(row.expires) == b.lastAlive
  }

  ghost predicate BoundRow(bind: Bindings, rk: RowKey) {
    exists p {:trigger bind[p]} :: p in bind && p.key == rk.key && bind[p].token == rk.token
  }

  /** The table and its two constraints: rows are those of the bindings, no token and no digest twice in a scope. */
  ghost predicate Consistent(k: Keyring, table: Table, bind: Bindings, used: set<string>) {
    && OneOwner(bind)
    && (forall p {:trigger RowOf(k, table, p, bind[p])} :: p in bind ==> RowOf(k, table, p, bind[p]) && bind[p].token in used)
    && (forall rk {:trigger BoundRow(bind, rk)} :: rk in table ==> BoundRow(bind, rk))
  }

  /** A row of the scope carries the digest. */
  ghost predicate HasDigest(table: Table, key: TokenKey, digest: string, rk: RowKey) {
    rk in table && rk.key == key && table[rk].digest == digest
  }

  /** The row with the digest of a value is that of its binding. */
  lemma RowIsBinding(k: Keyring, table: Table, bind: Bindings, used: set<string>, p: Pair, rk: RowKey)
    requires k.Ideal() && Consistent(k, table, bind, used)
    requires HasDigest(table, p.key, k.digest(p.key.tenant, p.key.namespace, p.value), rk)
    ensures p in bind && rk == RowKey(p.key, bind[p].token)
    ensures LastAlive(table[rk].expires) == bind[p].lastAlive
  {
    assert BoundRow(bind, rk);
    var q :| q in bind && q.key == rk.key && bind[q].token == rk.token;
    assert RowOf(k, table, q, bind[q]);
    assert q == p;
  }

  lemma BindingIsRow(k: Keyring, table: Table, bind: Bindings, used: set<string>, p: Pair)
    requires Consistent(k, table, bind, used) && p in bind
    ensures HasDigest(table, p.key, k.digest(p.key.tenant, p.key.namespace, p.value), RowKey(p.key, bind[p].token))
  {
    assert RowOf(k, table, p, bind[p]);
  }

  lemma InsertKeeps(k: Keyring, table: Table, bind: Bindings, used: set<string>, clock: int, p: Pair, tok: string, row: Row)
    requires k.Ideal() && Consistent(k, table, bind, used) && ValidKey(p.key) && tok !in used && p !in bind
    requires row.digest == k.digest(p.key.tenant, p.key.namespace, p.value)
    requires row.cipher == k.seal(p.key.tenant, row.version, Aad(p.key, tok, row.version), row.nonce, p.value)
    ensures var b := Binding(tok, LastAlive(row.expires));
            && Binds(bind, clock, p, b, bind[p := b])
            && Consistent(k, table[RowKey(p.key, tok) := row], bind[p := b], used + {tok})
  {
    var b := Binding(tok, LastAlive(row.expires));
    var table', bind', used' := table[RowKey(p.key, tok) := row], bind[p := b], used + {tok};
    forall q | q in bind' ensures RowOf(k, table', q, bind'[q]) && bind'[q].token in used' {
      assert q != p ==> RowOf(k, table, q, bind[q]) && bind[q].token in used;
    }
    forall q | q in bind && q != p ensures bind[q].token != b.token {
      assert RowOf(k, table, q, bind[q]);
    }
    forall rk | rk in table' ensures BoundRow(bind', rk) {
      if rk == RowKey(p.key, tok) {
        assert bind'[p] == b;
      } else {
        assert BoundRow(bind, rk);
        var q :| q in bind && q.key == rk.key && bind[q].token == rk.token;
        assert bind'[q] == bind[q];
      }
    }
  }

  function OtherTenants(table: Table, tenant: string): Table {
    map rk | rk in table && rk.key.tenant != tenant :: table[rk]
  }

  lemma DeleteKeeps(k: Keyring, table: Table, bind: Bindings, used: set<string>, tenant: string)
    requires Consistent(k, table, bind, used)
    ensures Consistent(k, OtherTenants(table, tenant), Without(bind, tenant), used)
  {
    var table', bind' := OtherTenants(table, tenant), Without(bind, tenant);
    forall p | p in bind' ensures RowOf(k, table', p, bind'[p]) && bind'[p].token in used {
      assert RowOf(k, table, p, bind[p]);
    }
    forall rk | rk in table' ensures BoundRow(bind', rk) {
      assert BoundRow(bind, rk);
      var q :| q in bind && q.key == rk.key && bind[q].token == rk.token;
      assert bind'[q] == bind[q];
    }
  }

  function OrFailed(found: Option<string>): Result<string, TokenError> {
    match found case None => Failure(StoreFailed) case Some(token) => Success(token)
  }

  class SqlTokenStore {
    const keyring: Keyring
    const ttl: int
    const version: string
    var table: Table
    ghost var bind: Bindings
    ghost var used: set<string>

    ghost predicate Valid()
      reads this
    {
      keyring.Ideal() && Consistent(keyring, table, bind, used)
    }

    constructor (keyring: Keyring, ttl: int, version: string)
      requires keyring.Ideal()
      ensures Valid() && this.keyring == keyring && this.ttl == ttl && this.version == version && bind == map[] && used == {}
    {
      this.keyring, this.ttl, this.version, table, bind, used := keyring, ttl, version, map[], map[], {};
    }

    function Digest(p: Pair): string { keyring.digest(p.key.tenant, p.key.namespace, p.value) }

    /** SELECT token by digest, among the rows not expired. */
    method Select(p: Pair, now: int) returns (r: Option<string>)
      requires Valid() && ValidKey(p.key)
      ensures r.Some? ==> Step(bind, now, Answered(p, r.value, now), bind)
      ensures r.Some? <==> p in bind && Alive(bind[p], now)
    {
      var rows := set rk | rk in table && rk.key == p.key && table[rk].digest == Digest(p) && table[rk].Live(now);
      if p in bind {
        BindingIsRow(keyring, table, bind, used, p);
        var own := RowKey(p.key, bind[p].token);
        RowIsBinding(keyring, table, bind, used, p, own);
        assert Alive(bind[p], now) ==> own in rows;
      }
      if rows == {} {
        return None;
      }
      var rk :| rk in rows;
      RowIsBinding(keyring, table, bind, used, p, rk);
      r := Some(rk.token);
    }

    /** When a row written now expires. */
    function Expiry(nowNanos: int): Option<int> { if ttl > 0 then Some((nowNanos + ttl) / SECOND) else None }

    /** A row written now is good for at least the rest of this second. */
    predicate Lasts(nowNanos: int) { ttl > 0 ==> nowNanos / SECOND < (nowNanos + ttl) / SECOND }

    /** INSERT, which either constraint rejects. Rows that expired still stand in the way. */
    method Insert(p: Pair, tok: string, nonce: Bytes, nowNanos: int) returns (ok: bool)
      requires Valid() && ValidKey(p.key) && tok !in used
      modifies this`table, this`bind, this`used
      ensures Valid() && used == old(used) + {tok}
      ensures ok <==> p !in old(bind)
      ensures !ok ==> bind == old(bind)
      ensures ok ==> bind == old(bind)[p := Binding(tok, LastAlive(Expiry(nowNanos)))]
      ensures ok ==> Step(old(bind), nowNanos / SECOND, Bound(p), bind)
      ensures ok && Lasts(nowNanos) ==> Step(old(bind), nowNanos / SECOND, Answered(p, tok, nowNanos / SECOND), bind)
    {
      var rk := RowKey(p.key, tok);
      var clash := set x | x in table && (x == rk || (x.key == p.key && table[x].digest == Digest(p)));
      TokenIsNew(rk);
      if p in bind {
        BindingIsRow(keyring, table, bind, used, p);
        assert RowKey(p.key, bind[p].token) in clash;
      }
      if clash != {} {
        var x :| x in clash;
        RowIsBinding(keyring, table, bind, used, p, x);
        MoreUsed(tok);
        used := used + {tok};
        return false;
      }
      var row := Row(Digest(p), keyring.seal(p.key.tenant, version, Aad(p.key, tok, version), nonce, p.value), nonce, version,
                     Expiry(nowNanos));
      InsertKeeps(keyring, table, bind, used, nowNanos / SECOND, p, tok, row);
      table := table[rk := row];
      bind := bind[p := Binding(tok, LastAlive(Expiry(nowNanos)))];
      used := used + {tok};
      ok := true;
    }

    lemma TokenIsNew(rk: RowKey)
      requires Valid() && rk.token !in used
      ensures rk !in table
    {
      forall q | q in bind ensures bind[q].token != rk.token {
        assert RowOf(keyring, table, q, bind[q]);
      }
      assert rk in table ==> BoundRow(bind, rk);
    }

    lemma MoreUsed(tok: string)
      requires Valid()
      ensures Consistent(keyring, table, bind, used + {tok})
    {
      forall p | p in bind ensures RowOf(keyring, table, p, bind[p]) && bind[p].token in used + {tok} {
        assert RowOf(keyring, table, p, bind[p]);
      }
    }

    /** The three statements of one caller; those of others may come between them. Alone, the caller gets the token of
        a row still good, a new one where there is no row, and an error where the row has expired: the unique digest
        keeps it in place. The token is good unless the row, just written, has expired within the second. */
    method Issue(key: TokenKey, value: string, tok: string, nonce: Bytes, nowNanos: int) returns (r: Result<string, TokenError>)
      requires Valid() && tok !in used
      modifies this
      ensures Valid()
      ensures !ValidKey(key) ==> r == Failure(InvalidKey) && bind == old(bind)
      ensures ValidKey(key) ==> var p, now := Pair(key, value), nowNanos / SECOND;
              && (r.Success? <==> p !in old(bind) || Alive(old(bind)[p], now))
              && (r.Success? ==> p in bind && bind[p].token == r.value)
              && (r.Success? ==> (Step(old(bind), now, Answered(p, r.value, now), bind) <==> p in old(bind) || Lasts(nowNanos)))
              && (r.Success? ==> (ResolvesTo(bind, key, r.value, now, Some(value)) <==> p in old(bind) || Lasts(nowNanos)))
              && (r.Failure? ==> r == Failure(StoreFailed) && bind == old(bind))
              && bind == (if p in old(bind) then old(bind) else old(bind)[p := Binding(tok, LastAlive(Expiry(nowNanos)))])
      ensures used <= old(used) + {tok}
    {
      if !ValidKey(key) {
        return Failure(InvalidKey);
      }
      var p, now := Pair(key, value), nowNanos / SECOND;
      var found := Select(p, now);
      if found.Some? {
        return Success(found.value);
      }
      var ok := Insert(p, tok, nonce, nowNanos);
      if ok {
        return Success(tok);
      }
      var winner := Select(p, now);
      r := OrFailed(winner);
    }

    method Resolve(key: TokenKey, token: string, now: int) returns (r: Result<Option<string>, TokenError>)
      requires Valid()
      ensures !ValidKey(key) ==> r == Failure(InvalidKey)
      ensures ValidKey(key) ==> r.Success? && ResolvesTo(bind, key, token, now, r.value)
    {
      if !ValidKey(key) {
        return Failure(InvalidKey);
      }
      var rk := RowKey(key, token);
      RowResolves(rk, now);
      if rk !in table || !table[rk].Live(now) {
        return Success(None);
      }
      var row := table[rk];
      var plain := keyring.open(key.tenant, row.version, Aad(key, token, row.version), row.nonce, row.cipher);
      r := if plain.Some? then Success(plain) else Failure(CannotOpen);
    }

    lemma RowResolves(rk: RowKey, now: int)
      requires Valid()
      ensures rk in table && table[rk].Live(now) ==>
                var row := table[rk];
                var plain := keyring.open(rk.key.tenant, row.version, Aad(rk.key, rk.token, row.version), row.nonce, row.cipher);
                plain.Some? && ResolvesTo(bind, rk.key, rk.token, now, plain)
      ensures rk !in table || !table[rk].Live(now) ==> ResolvesTo(bind, rk.key, rk.token, now, None)
    {
      forall p | p in bind && p.key == rk.key && bind[p].token == rk.token
        ensures rk in table && RowOf(keyring, table, p, bind[p])
      {
        assert RowOf(keyring, table, p, bind[p]);
      }
      if rk in table {
        assert BoundRow(bind, rk);
        var q :| q in bind && q.key == rk.key && bind[q].token == rk.token;
        assert RowOf(keyring, table, q, bind[q]);
        assert Pair(q.key, q.value) == q;
      }
    }

    /** DELETE by tenant. */
    method Clear(tenant: string) returns (r: Result<nat, TokenError>)
      requires Valid()
      modifies this`table, this`bind
      ensures Valid()
      ensures !ValidTenant(tenant) ==> r == Failure(InvalidTenant) && bind == old(bind)
      ensures ValidTenant(tenant) ==>
                && Step(old(bind), 0, Cleared(tenant), bind)
                && r == Success(|set rk | rk in old(table) && rk.key.tenant == tenant|)
    {
      if !ValidTenant(tenant) {
        return Failure(InvalidTenant);
      }
      DeleteKeeps(keyring, table, bind, used, tenant);
      r := Success(|set rk | rk in table && rk.key.tenant == tenant|);
      table, bind := OtherTenants(table, tenant), Without(bind, tenant);
    }
  }

  /** A value whose row has expired gets no token: issued with two seconds to live, and again after five. */
  method ExpiredRowBlocks(keyring: Keyring, nonce: Bytes) returns (first: Result<string, TokenError>, second: Result<string, TokenError>)
    requires keyring.Ideal()
    ensures first == Success("a") && second == Failure(StoreFailed)
  {
    var store := new SqlTokenStore(keyring, 2 * SECOND, "v1");
    var key, start := TokenKey("t", "n"), 1_767_225_600 * SECOND;
    first := store.Issue(key, "x", "a", nonce, start);
    assert "a" != "b" by {
      assert "a"[0] != "b"[0];
    }
    second := store.Issue(key, "x", "b", nonce, start + 5 * SECOND);
  }
}
