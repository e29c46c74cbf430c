/** The in-process token store (pii/anonymize/tokenstore.go). Each method but Issue is one atomic step, what a caller
    does under one lock; the contracts hold in whatever order the steps of many callers come. */
module MemoryTokens {
  import opened Wrappers
  import opened Placeholders
  import opened Splitting
  import opened TokenContract

  datatype Entry = Entry(payload: string, expires: Option<int>)
  {
    predicate Expired(now: int) { expires.Some? && now > expires.value }
  }

  const NUL := '\0'

  /** composite() and one more part: a NUL, which neither charset has, stands between the parts. */
  function Joined(k: TokenKey, last: string): string { k.tenant + [NUL] + (k.namespace + [NUL] + last) }

  lemma NoSeparator(k: TokenKey, sep: char)
    requires ValidKey(k) && !IsTenantChar(sep)
    ensures sep !in k.tenant && sep !in k.namespace
  {
  }

  lemma JoinedInjective(k: TokenKey, x: string, k': TokenKey, x': string)
    requires ValidKey(k) && ValidKey(k') && Joined(k, x) == Joined(k', x')
    ensures k == k' && x == x'
  {
    NoSeparator(k, NUL);
    NoSeparator(k', NUL);
    JoinInjective(k.tenant, k.namespace + [NUL] + x, k'.tenant, k'.namespace + [NUL] + x', NUL);
    JoinInjective(k.namespace, x, k'.namespace, x', NUL);
  }

  lemma JoinedPrefix(k: TokenKey, x: string, tenant: string)
    requires ValidKey(k) && ValidTenant(tenant)
    ensures HasPrefix(Joined(k, x), tenant + [NUL]) <==> k.tenant == tenant
  {
    NoSeparator(k, NUL);
    JoinPrefix(k.tenant, k.namespace + [NUL] + x, tenant, NUL);
  }

  // ---------------------------------------------------------------------------------------------
  // What the two maps hold.
  // ---------------------------------------------------------------------------------------------

  ghost predicate Stored(m: map<string, Entry>, k: string, payload: string, expires: Option<int>) {
    k in m && m[k] == Entry(payload, expires)
  }

  /** Both maps hold the binding. */
  ghost predicate Kept(byPair: map<string, Entry>, byTok: map<string, Entry>, used: set<string>, p: Pair, b: Binding) {
    && ValidKey(p.key) && b.token in used
    && Stored(byPair, Joined(p.key, p.value), b.token, b.lastAlive)
    && Stored(byTok, Joined(p.key, b.token), p.value, b.lastAlive)
  }

  ghost predicate PairOf(bind: Bindings, p: Pair, k: string) { p in bind && Joined(p.key, p.value) == k }

  ghost predicate KnownPair(bind: Bindings, k: string) { exists p :: PairOf(bind, p, k) }

  /** An entry under a token belongs to a binding, or has expired. */
  ghost predicate TokenOf(bind: Bindings, used: set<string>, clock: int, k: string, e: Entry, key: TokenKey, t: string) {
    && ValidKey(key) && t in used && Joined(key, t) == k
    && (e.Expired(clock) || (Pair(key, e.payload) in bind && bind[Pair(key, e.payload)] == Binding(t, e.expires)))
  }

  ghost predicate KnownToken(bind: Bindings, used: set<string>, clock: int, k: string, e: Entry) {
    exists key, t :: TokenOf(bind, used, clock, k, e, key, t)
  }

  ghost predicate Consistent(byPair: map<string, Entry>, byTok: map<string, Entry>, bind: Bindings, used: set<string>, clock: int) {
    && OneOwner(bind)
    && (forall p {:trigger Kept(byPair, byTok, used, p, bind[p])} :: p in bind ==> Kept(byPair, byTok, used, p, bind[p]))
    && (forall k {:trigger KnownPair(bind, k)} :: k in byPair ==> KnownPair(bind, k))
    && (forall k {:trigger KnownToken(bind, used, clock, k, byTok[k])} :: k in byTok ==> KnownToken(bind, used, clock, k, byTok[k]))
  }

  lemma Later(byPair: map<string, Entry>, byTok: map<string, Entry>, bind: Bindings, used: set<string>, clock: int, now: int)
    requires Consistent(byPair, byTok, bind, used, clock) && clock <= now
    ensures Consistent(byPair, byTok, bind, used, now)
  {
    forall k | k in byTok ensures KnownToken(bind, used, now, k, byTok[k]) {
      assert KnownToken(bind, used, clock, k, byTok[k]);
      var key, t :| TokenOf(bind, used, clock, k, byTok[k], key, t);
      assert TokenOf(bind, used, now, k, byTok[k], key, t);
    }
  }

  /** An entry found for a value is that of its binding. */
  lemma FoundPair(byPair: map<string, Entry>, byTok: map<string, Entry>, bind: Bindings, used: set<string>, clock: int, p: Pair)
    requires Consistent(byPair, byTok, bind, used, clock) && ValidKey(p.key)
    ensures Joined(p.key, p.value) in byPair <==> p in bind
    ensures p in bind ==> Stored(byPair, Joined(p.key, p.value), bind[p].token, bind[p].lastAlive)
  {
    var k := Joined(p.key, p.value);
    if k in byPair {
      assert KnownPair(bind, k);
      var q :| PairOf(bind, q, k);
      assert Kept(byPair, byTok, used, q, bind[q]);
      JoinedInjective(p.key, p.value, q.key, q.value);
      assert p == q;
    }
    if p in bind {
      assert Kept(byPair, byTok, used, p, bind[p]);
    }
  }

  /** Looking a token up and dropping what has expired is what Resolve means. */
  lemma FoundToken(byPair: map<string, Entry>, byTok: map<string, Entry>, bind: Bindings, used: set<string>, clock: int,
                   key: TokenKey, token: string, now: int, r: Option<string>)
    requires Consistent(byPair, byTok, bind, used, clock) && ValidKey(key) && clock <= now
    requires var k := Joined(key, token);
             r == if k in byTok && !byTok[k].Expired(now) then Some(byTok[k].payload) else None
    ensures ResolvesTo(bind, key, token, now, r)
  {
    var k := Joined(key, token);
    if k in byTok && !byTok[k].Expired(now) {
      assert KnownToken(bind, used, clock, k, byTok[k]);
      var key', t :| TokenOf(bind, used, clock, k, byTok[k], key', t);
      JoinedInjective(key, token, key', t);
    } else {
      forall p | p in bind && p.key == key && bind[p].token == token ensures !Alive(bind[p], now) {
        assert Kept(byPair, byTok, used, p, bind[p]);
      }
    }
  }

  lemma BindPairs(byPair: map<string, Entry>, bind: Bindings, k: string, p: Pair, e: Entry, b: Binding)
    requires k == Joined(p.key, p.value) && forall x {:trigger KnownPair(bind, x)} :: x in byPair ==> KnownPair(bind, x)
    ensures forall x {:trigger KnownPair(bind[p := b], x)} :: x in byPair[k := e] ==> KnownPair(bind[p := b], x)
  {
    var byPair', bind' := byPair[k := e], bind[p := b];
    forall x | x in byPair' ensures KnownPair(bind', x) {
      if x == k {
        assert PairOf(bind', p, x);
      } else {
        assert KnownPair(bind, x);
        var q :| PairOf(bind, q, x);
        assert PairOf(bind', q, x);
      }
    }
  }

  lemma BindToken(bind: Bindings, used: set<string>, clock: int, k: string, e: Entry, p: Pair, b: Binding)
    requires p in bind ==> !Alive(bind[p], clock)
    requires KnownToken(bind, used, clock, k, e)
    ensures KnownToken(bind[p := b], used + {b.token}, clock, k, e)
  {
    var key, t :| TokenOf(bind, used, clock, k, e, key, t);
    assert TokenOf(bind[p := b], used + {b.token}, clock, k, e, key, t);
  }

  /** Adding a binding in place of none or of an expired one, under a token never used. */
  lemma BindKeeps(byPair: map<string, Entry>, byTok: map<string, Entry>, bind: Bindings, used: set<string>, clock: int,
                  p: Pair, b: Binding)
    requires Consistent(byPair, byTok, bind, used, clock) && ValidKey(p.key)
    requires b.token !in used && (p in bind ==> !Alive(bind[p], clock))
    ensures Binds(bind, clock, p, b, bind[p := b])
    ensures Consistent(byPair[Joined(p.key, p.value) := Entry(b.token, b.lastAlive)],
                       byTok[Joined(p.key, b.token) := Entry(p.value, b.lastAlive)], bind[p := b], used + {b.token}, clock)
  {
    var pairKey, tokKey := Joined(p.key, p.value), Joined(p.key, b.token);
    var byPair', byTok' := byPair[pairKey := Entry(b.token, b.lastAlive)], byTok[tokKey := Entry(p.value, b.lastAlive)];
    var bind', used' := bind[p := b], used + {b.token};
    forall q | q in bind && q != p
      ensures Kept(byPair', byTok', used', q, bind[q]) && bind[q].token != b.token
    {
      assert Kept(byPair, byTok, used, q, bind[q]);
      OtherKeys(p, b, q, bind[q]);
    }
    BindPairs(byPair, bind, pairKey, p, Entry(b.token, b.lastAlive), b);
    forall k | k in byTok' ensures KnownToken(bind', used', clock, k, byTok'[k]) {
      if k == tokKey {
        assert TokenOf(bind', used', clock, k, byTok'[k], p.key, b.token);
      } else {
        BindToken(bind, used, clock, k, byTok[k], p, b);
      }
    }
    assert Kept(byPair', byTok', used', p, bind'[p]);
  }

  lemma OtherKeys(p: Pair, b: Binding, q: Pair, c: Binding)
    requires ValidKey(p.key) && ValidKey(q.key) && p != q && b.token != c.token
    ensures Joined(p.key, p.value) != Joined(q.key, q.value) && Joined(p.key, b.token) != Joined(q.key, c.token)
  {
    if Joined(p.key, p.value) == Joined(q.key, q.value) {
      JoinedInjective(p.key, p.value, q.key, q.value);
    }
    if Joined(p.key, b.token) == Joined(q.key, c.token) {
      JoinedInjective(p.key, b.token, q.key, c.token);
    }
  }

  function Unprefixed(m: map<string, Entry>, prefix: string): map<string, Entry> {
    map k | k in m && !HasPrefix(k, prefix) :: m[k]
  }

  /** Deleting by the tenant's prefix deletes the tenant's bindings and no other. */
  lemma ClearKeeps(byPair: map<string, Entry>, byTok: map<string, Entry>, bind: Bindings, used: set<string>, clock: int, tenant: string)
    requires Consistent(byPair, byTok, bind, used, clock) && ValidTenant(tenant)
    ensures Consistent(Unprefixed(byPair, tenant + [NUL]), Unprefixed(byTok, tenant + [NUL]), Without(bind, tenant), used, clock)
  {
    var byPair', byTok', bind' := Unprefixed(byPair, tenant + [NUL]), Unprefixed(byTok, tenant + [NUL]), Without(bind, tenant);
    forall p | p in bind' ensures Kept(byPair', byTok', used, p, bind'[p]) {
      assert Kept(byPair, byTok, used, p, bind[p]);
      JoinedPrefix(p.key, p.value, tenant);
      JoinedPrefix(p.key, bind[p].token, tenant);
    }
    forall k | k in byPair' ensures KnownPair(bind', k) {
      assert KnownPair(bind, k);
      var p :| PairOf(bind, p, k);
      assert Kept(byPair, byTok, used, p, bind[p]);
      JoinedPrefix(p.key, p.value, tenant);
      assert PairOf(bind', p, k);
    }
    forall k | k in byTok' ensures KnownToken(bind', used, clock, k, byTok'[k]) {
      assert KnownToken(bind, used, clock, k, byTok[k]);
      var key, t :| TokenOf(bind, used, clock, k, byTok[k], key, t);
      JoinedPrefix(key, t, tenant);
      assert TokenOf(bind', used, clock, k, byTok'[k], key, t);
    }
  }

  /** Deletes every key with the prefix, in whatever order they come. */
  method DeletePrefix(m: map<string, Entry>, prefix: string) returns (left: map<string, Entry>, erased: nat)
    ensures left == Unprefixed(m, prefix) && erased == |set k | k in m && HasPrefix(k, prefix)|
  {
    left, erased := m, 0;
    var todo := m.Keys;
    ghost var gone: set<string> := {};
    while todo != {}
      invariant todo <= m.Keys && gone == (set k | k in m && k !in todo && HasPrefix(k, prefix))
      invariant left == (map k | k in m && k !in gone :: m[k]) && erased == |gone|
      decreases todo
    {
      var k :| k in todo;
      todo := todo - {k};
      if HasPrefix(k, prefix) {
        left := left - {k};
        erased := erased + 1;
        gone := gone + {k};
      }
    }
    assert gone == set k | k in m && HasPrefix(k, prefix);
  }

  class MemoryTokenStore {
    const ttl: int
    var byPair: map<string, Entry>
    var byTok: map<string, Entry>
    ghost var bind: Bindings
    ghost var used: set<string>
    ghost var clock: int

    ghost predicate Valid()
      reads this
    {
      Consistent(byPair, byTok, bind, used, clock)
    }

    constructor (ttl: int)
      ensures Valid() && this.ttl == ttl && bind == map[] && used == {} && clock == 0
    {
      this.ttl, byPair, byTok, bind, used, clock := ttl, map[], map[], map[], {}, 0;
    }

    ghost method Tick(now: int)
      requires Valid() && clock <= now
      modifies this`clock
      ensures Valid() && clock == now
    {
      Later(byPair, byTok, bind, used, clock, now);
      clock := now;
    }

    /** The first look, under the read lock. */
    method Probe(key: TokenKey, value: string, started: int) returns (r: Option<string>)
      requires Valid() && ValidKey(key) && started <= clock
      ensures r.Some? ==> Step(bind, clock, Answered(Pair(key, value), r.value, started), bind)
    {
      FoundPair(byPair, byTok, bind, used, clock, Pair(key, value));
      var k := Joined(key, value);
      if k in byPair && !byPair[k].Expired(started) {
        r := Some(byPair[k].payload);
      } else {
        r := None;
      }
    }

    /** The second look and the two writes, under the write lock. The token was drawn at random: nobody had it. */
    method Settle(key: TokenKey, value: string, tok: string, started: int) returns (r: string)
      requires Valid() && ValidKey(key) && started <= clock && tok !in used
      modifies this`byPair, this`byTok, this`bind, this`used
      ensures Valid() && used == old(used) + {tok}
      ensures Step(old(bind), clock, Answered(Pair(key, value), r, started), bind)
      ensures bind == old(bind) || bind == old(bind)[Pair(key, value) := Binding(tok, if ttl > 0 then Some(started + ttl) else None)]
    {
      ghost var p := Pair(key, value);
      FoundPair(byPair, byTok, bind, used, clock, p);
      var k := Joined(key, value);
      if k in byPair && !byPair[k].Expired(started) {
        MoreUsed(byPair, byTok, bind, used, clock, tok);
        used := used + {tok};
        return byPair[k].payload;
      }
      var expires := if ttl > 0 then Some(started + ttl) else None;
      BindKeeps(byPair, byTok, bind, used, clock, p, Binding(tok, expires));
      byPair := byPair[k := Entry(tok, expires)];
      byTok := byTok[Joined(key, tok) := Entry(value, expires)];
      bind, used := bind[p := Binding(tok, expires)], used + {tok};
      r := tok;
    }

    /** Both steps of one caller; steps of others may come between them. */
    method Issue(key: TokenKey, value: string, tok: string, now: int) returns (r: Result<string, TokenError>)
      requires Valid() && clock <= now && tok !in used
      modifies this
      ensures Valid() && clock == now
      ensures !ValidKey(key) ==> r == Failure(InvalidKey) && bind == old(bind)
      ensures ValidKey(key) ==> r.Success? && Step(old(bind), now, Answered(Pair(key, value), r.value, now), bind)
      ensures bind == old(bind) || bind == old(bind)[Pair(key, value) := Binding(tok, if ttl > 0 then Some(now + ttl) else None)]
    {
      Tick(now);
      if !ValidKey(key) {
        return Failure(InvalidKey);
      }
      var found := Probe(key, value, now);
      if found.Some? {
        return Success(found.value);
      }
      var settled := Settle(key, value, tok, now);
      r := Success(settled);
    }

    method Resolve(key: TokenKey, token: string, now: int) returns (r: Result<Option<string>, TokenError>)
      requires Valid() && clock <= now
      ensures !ValidKey(key) ==> r == Failure(InvalidKey)
      ensures ValidKey(key) ==> r.Success? && ResolvesTo(bind, key, token, now, r.value)
    {
      if !ValidKey(key) {
        return Failure(InvalidKey);
      }
      var k := Joined(key, token);
      var found := if k in byTok && !byTok[k].Expired(now) then Some(byTok[k].payload) else None;
      FoundToken(byPair, byTok, bind, used, clock, key, token, now, found);
      r := Success(found);
    }

    method Clear(tenant: string) returns (r: Result<nat, TokenError>)
      requires Valid()
      modifies this`byPair, this`byTok, this`bind
      ensures Valid()
      ensures !ValidTenant(tenant) ==> r == Failure(InvalidTenant) && bind == old(bind)
      ensures ValidTenant(tenant) ==>
                && Step(old(bind), clock, Cleared(tenant), bind)
                && r == Success(|set k | k in old(byTok) && HasPrefix(k, tenant + [NUL])|)
    {
      if !ValidTenant(tenant) {
        return Failure(InvalidTenant);
      }
      ClearKeeps(byPair, byTok, bind, used, clock, tenant);
      var erased, pairs;
      byTok, erased := DeletePrefix(byTok, tenant + [NUL]);
      byPair, pairs := DeletePrefix(byPair, tenant + [NUL]);
      bind := Without(bind, tenant);
      r := Success(erased);
    }
  }

  lemma MoreUsed(byPair: map<string, Entry>, byTok: map<string, Entry>, bind: Bindings, used: set<string>, clock: int, tok: string)
    requires Consistent(byPair, byTok, bind, used, clock)
    ensures Consistent(byPair, byTok, bind, used + {tok}, clock)
  {
    forall p | p in bind ensures Kept(byPair, byTok, used + {tok}, p, bind[p]) {
      assert Kept(byPair, byTok, used, p, bind[p]);
    }
    forall k | k in byTok ensures KnownToken(bind, used + {tok}, clock, k, byTok[k]) {
      assert KnownToken(bind, used, clock, k, byTok[k]);
      var key, t :| TokenOf(bind, used, clock, k, byTok[k], key, t);
      assert TokenOf(bind, used + {tok}, clock, k, byTok[k], key, t);
    }
  }
}
