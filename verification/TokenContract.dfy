/** The contract of the token stores (pii/anonymize/tokenstore.go): what Issue, Resolve and Clear mean for the
    bindings of a store, in any interleaving of the atomic steps of its callers. */
module TokenContract {
  import opened Wrappers
  import opened Placeholders
  import opened Splitting

  datatype TokenKey = TokenKey(tenant: string, namespace: string)

  datatype Pair = Pair(key: TokenKey, value: string)

  /** The token of a value and the last instant it is good for; none means that it does not expire. */
  datatype Binding = Binding(token: string, lastAlive: Option<int>)

  type Bindings = map<Pair, Binding>

  datatype TokenError = InvalidKey | InvalidTenant | BackendExpired | Malformed | CannotOpen | Collision | StoreFailed

  // ---------------------------------------------------------------------------------------------
  // Keys.
  // ---------------------------------------------------------------------------------------------

  predicate IsTenantChar(c: char) { IsLetter(c) || IsDigit(c) || c == '_' || c == '.' || c == '-' }

  predicate IsLowerIdentifier(c: char) { 'a' <= c <= 'z' || IsDigit(c) || c == '_' }

  predicate ValidTenant(t: string) {
    1 <= |t| <= 64 && (IsLetter(t[0]) || IsDigit(t[0])) && forall i :: 0 <= i < |t| ==> IsTenantChar(t[i])
  }

  predicate ValidKey(k: TokenKey) {
    ValidTenant(k.tenant) && 1 <= |k.namespace| <= 64 && forall i :: 0 <= i < |k.namespace| ==> IsLowerIdentifier(k.namespace[i])
  }

  lemma FirstPart(a: string, b: string, a': string, b': string, sep: char)
    requires sep !in a' && a + [sep] + b == a' + [sep] + b'
    ensures |a'| <= |a|
  {
    var s := a' + [sep] + b';
    assert s[|a|] == sep;
    assert forall i :: 0 <= i < |a'| ==> s[i] == a'[i] && a'[i] in a';
  }

  /** Joining two parts by a character that the first does not contain loses nothing. */
  lemma JoinInjective(a: string, b: string, a': string, b': string, sep: char)
    requires sep !in a && sep !in a'
    ensures a + [sep] + b == a' + [sep] + b' <==> a == a' && b == b'
  {
    var s, s' := a + [sep] + b, a' + [sep] + b';
    if s == s' {
      FirstPart(a, b, a', b', sep);
      FirstPart(a', b', a, b, sep);
      assert a == s[..|a|] && a' == s'[..|a'|] && b == s[|a| + 1..] && b' == s'[|a'| + 1..];
    }
  }

  lemma Nested(a: string, b: string, c: string, d: string, e: string)
    ensures a + "\0" + b + "\0" + c + "\0" + d + "\0" + e == a + "\0" + (b + "\0" + (c + "\0" + (d + "\0" + e)))
  {
  }

  /** Four parts joined by NUL, of which only the last may contain it. */
  lemma FourParts(k: TokenKey, token: string, rest: string, k': TokenKey, token': string, rest': string)
    requires ValidKey(k) && ValidKey(k') && '\0' !in token && '\0' !in token'
    requires k.tenant + "\0" + (k.namespace + "\0" + (token + "\0" + rest)) == k'.tenant + "\0" + (k'.namespace + "\0" + (token' + "\0" + rest'))
    ensures k == k' && token == token' && rest == rest'
  {
    var a, a', b, b' := token + "\0" + rest, token' + "\0" + rest', k.namespace, k'.namespace;
    JoinInjective(k.tenant, b + "\0" + a, k'.tenant, b' + "\0" + a', '\0');
    JoinInjective(b, a, b', a', '\0');
    JoinInjective(token, rest, token', rest', '\0');
  }

  /** A joined key begins with another part and the separator exactly when its first part is that part. */
  lemma JoinPrefix(a: string, b: string, a': string, sep: char)
    requires sep !in a && sep !in a'
    ensures HasPrefix(a + [sep] + b, a' + [sep]) <==> a == a'
  {
    var s := a + [sep] + b;
    if HasPrefix(s, a' + [sep]) {
      var rest := s[|a'| + 1..];
      assert s == a' + [sep] + rest by {
        assert s == s[..|a'| + 1] + rest;
      }
      JoinInjective(a, b, a', rest, sep);
    }
  }

  // ---------------------------------------------------------------------------------------------
  // The steps of a store.
  // ---------------------------------------------------------------------------------------------

  predicate Alive(b: Binding, now: int) { b.lastAlive.None? || now <= b.lastAlive.value }

  /** No token is bound to two values, in one scope or in two. */
  ghost predicate OneOwner(bind: Bindings) {
    forall p, q {:trigger bind[p], bind[q]} :: p in bind && q in bind && bind[p].token == bind[q].token ==> p == q
  }

  /** Answered: an Issue settled on a token that was good at a time the caller read. Bound: a binding was stored without
      such an answer. Dropped: the store forgot a binding that had expired. */
  datatype Event = Answered(pair: Pair, token: string, asOf: int) | Bound(pair: Pair) | Cleared(tenant: string) | Dropped(pair: Pair) | Quiet

  function Without(bind: Bindings, tenant: string): Bindings {
    map p | p in bind && p.key.tenant != tenant :: bind[p]
  }

  /** What one atomic step may do to the bindings. */
  ghost predicate Step(bind: Bindings, clock: int, event: Event, bind': Bindings) {
    match event
    case Answered(p, t, asOf) =>
      && p in bind' && bind'[p].token == t && Alive(bind'[p], asOf) && asOf <= clock && ValidKey(p.key)
      && (bind' == bind || Binds(bind, clock, p, bind'[p], bind'))
    case Bound(p) => p in bind' && ValidKey(p.key) && Binds(bind, clock, p, bind'[p], bind')
    case Cleared(tenant) => bind' == Without(bind, tenant)
    case Dropped(p) => p in bind && !Alive(bind[p], clock) && bind' == bind - {p}
    case Quiet => bind' == bind
  }

  /** A new binding never replaces one that is still good, and its token is no other value's. */
  ghost predicate Binds(bind: Bindings, clock: int, p: Pair, b: Binding, bind': Bindings) {
    && bind' == bind[p := b] && (p in bind ==> !Alive(bind[p], clock))
    && forall q {:trigger bind[q]} :: q in bind && q != p ==> bind[q].token != b.token
  }

  /** What Resolve answers. */
  ghost predicate ResolvesTo(bind: Bindings, key: TokenKey, token: string, now: int, r: Option<string>) {
    match r
    case Some(v) => Pair(key, v) in bind && bind[Pair(key, v)].token == token && Alive(bind[Pair(key, v)], now)
    case None => forall p {:trigger bind[p]} :: p in bind && p.key == key && bind[p].token == token ==> !Alive(bind[p], now)
  }

  // ---------------------------------------------------------------------------------------------
  // Runs.
  // ---------------------------------------------------------------------------------------------

  datatype State = State(bind: Bindings, clock: int)

  ghost predicate Run(states: seq<State>, events: seq<Event>) {
    && |states| == |events| + 1 && OneOwner(states[0].bind)
    && forall i {:trigger events[i]} :: 0 <= i < |events| ==>
         states[i].clock <= states[i + 1].clock && Step(states[i].bind, states[i].clock, events[i], states[i + 1].bind)
  }

  lemma StepKeepsOwners(bind: Bindings, clock: int, event: Event, bind': Bindings)
    requires OneOwner(bind) && Step(bind, clock, event, bind')
    ensures OneOwner(bind')
  {
    forall p, q | p in bind' && q in bind' && bind'[p].token == bind'[q].token ensures p == q {
      assert p in bind && q in bind && bind[p] == bind'[p] && bind[q] == bind'[q] ==> p == q;
    }
  }

  lemma {:induction false} RunOwners(states: seq<State>, events: seq<Event>, n: nat)
    requires Run(states, events) && n <= |events|
    ensures OneOwner(states[n].bind)
  {
    if n > 0 {
      RunOwners(states, events, n - 1);
      assert Step(states[n - 1].bind, states[n - 1].clock, events[n - 1], states[n].bind);
      StepKeepsOwners(states[n - 1].bind, states[n - 1].clock, events[n - 1], states[n].bind);
    }
  }

  lemma {:induction false} ClockRuns(states: seq<State>, events: seq<Event>, i: nat, j: nat)
    requires Run(states, events) && i <= j <= |events|
    ensures states[i].clock <= states[j].clock
  {
    if i < j {
      ClockRuns(states, events, i, j - 1);
      assert Step(states[j - 1].bind, states[j - 1].clock, events[j - 1], states[j].bind);
    }
  }

  /** A binding stays as it is until it expires or its tenant is cleared. */
  lemma {:induction false} BindingStays(states: seq<State>, events: seq<Event>, i: nat, j: nat, p: Pair)
    requires Run(states, events) && i <= j <= |events| && p in states[i].bind
    requires Alive(states[i].bind[p], states[j].clock)
    requires forall k {:trigger events[k]} :: i <= k < j ==> events[k] != Cleared(p.key.tenant)
    ensures p in states[j].bind && states[j].bind[p] == states[i].bind[p]
  {
    if i < j {
      ClockRuns(states, events, j - 1, j);
      BindingStays(states, events, i, j - 1, p);
      assert Step(states[j - 1].bind, states[j - 1].clock, events[j - 1], states[j].bind);
    }
  }

  /** All answers for one value of one scope that no clearing of the tenant and no expiry separates give one token.
      That token resolves to the value, and in no other scope to anything. */
  lemma OneToken(states: seq<State>, events: seq<Event>, i: nat, j: nat, p: Pair, t: string, asOf: int, t': string, asOf': int,
                 other: TokenKey)
    requires Run(states, events) && i <= j < |events|
    requires events[i] == Answered(p, t, asOf) && events[j] == Answered(p, t', asOf')
    requires forall k {:trigger events[k]} :: i < k < j ==> events[k] != Cleared(p.key.tenant)
    requires p in states[i + 1].bind ==> Alive(states[i + 1].bind[p], states[j + 1].clock)
    ensures t == t'
    ensures ResolvesTo(states[j + 1].bind, p.key, t, states[j + 1].clock, Some(p.value))
    ensures other != p.key ==> ResolvesTo(states[j + 1].bind, other, t, states[j + 1].clock, None)
  {
    assert Step(states[i].bind, states[i].clock, events[i], states[i + 1].bind);
    BindingStays(states, events, i + 1, j + 1, p);
    assert Step(states[j].bind, states[j].clock, events[j], states[j + 1].bind);
    RunOwners(states, events, j + 1);
    assert states[j + 1].bind[p].token == t;
    assert Pair(p.key, p.value) == p;
  }

  /** After a tenant is cleared none of its tokens resolves, until it is issued anew. */
  lemma ClearedForgets(bind: Bindings, clock: int, tenant: string, bind': Bindings, key: TokenKey, token: string, now: int)
    requires Step(bind, clock, Cleared(tenant), bind')
    ensures key.tenant == tenant ==> ResolvesTo(bind', key, token, now, None)
    ensures key.tenant != tenant ==> forall r :: ResolvesTo(bind, key, token, now, r) ==> ResolvesTo(bind', key, token, now, r)
  {
  }
}
