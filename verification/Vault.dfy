/** The session vault (pii/anonymize/vault.go): placeholder names, and the two maps between values and names. */
module Vault {
  import opened Wrappers
  import opened Placeholders

  // ---------------------------------------------------------------------------------------------
  // Placeholder names.
  // ---------------------------------------------------------------------------------------------

  const DIGITS := "0123456789"

  function Decimal(n: nat): (s: string)
    ensures s != "" && forall i :: 0 <= i < |s| ==> IsDigit(s[i])
  {
    if n < 10 then [DIGITS[n]] else Decimal(n / 10) + [DIGITS[n % 10]]
  }

  lemma {:induction false} DecimalInjective(m: nat, n: nat)
    requires Decimal(m) == Decimal(n)
    ensures m == n
  {
    var s := Decimal(m);
    if m < 10 && n < 10 {
      assert DIGITS[m] == DIGITS[n];
    } else {
      if m >= 10 {
        assert |Decimal(m / 10)| >= 1 && s[..|s| - 1] == Decimal(m / 10);
      }
      if n >= 10 {
        assert |Decimal(n / 10)| >= 1 && s[..|s| - 1] == Decimal(n / 10);
      }
      assert m >= 10 && n >= 10;
      assert s[|s| - 1] == DIGITS[m % 10] == DIGITS[n % 10];
      DecimalInjective(m / 10, n / 10);
    }
  }

  /** ANONYMIZED_<KIND>_<N> */
  function Name(kind: string, n: nat): string {
    MARKER + kind + "_" + Decimal(n)
  }

  /** The kind a placeholder names: everything between the prefix and the last underscore. */
  function TypeFromPlaceholder(p: string): Option<string> {
    if |p| < 11 || p[..11] != MARKER then None
    else
      var idx := LastUnderscore(p[11..]);
      if idx <= 0 then None else Some(p[11..][..idx])
  }

  function LastUnderscore(s: string): (r: int)
    ensures -1 <= r < |s|
    ensures r >= 0 ==> s[r] == '_'
    ensures forall i :: r < i < |s| ==> s[i] != '_'
  {
    if s == "" then -1 else if s[|s| - 1] == '_' then |s| - 1 else LastUnderscore(s[..|s| - 1])
  }

  lemma LastUnderscoreIs(s: string, r: nat)
    requires r < |s| && s[r] == '_' && forall i :: r < i < |s| ==> s[i] != '_'
    ensures LastUnderscore(s) == r
  {
  }

  /** Reading the kind back from a name, whatever the kind looks like. */
  lemma TypeOfName(kind: string, n: nat)
    ensures TypeFromPlaceholder(Name(kind, n)) == if kind == "" then None else Some(kind)
  {
    var p, d := Name(kind, n), Decimal(n);
    var rest := p[11..];
    assert rest == kind + "_" + d;
    forall i | |kind| < i < |rest| ensures rest[i] != '_' {
      assert rest[i] == d[i - |kind| - 1];
    }
    LastUnderscoreIs(rest, |kind|);
    assert p[..11] == MARKER && rest[..|kind|] == kind;
  }

  /** Different kinds or numbers give different names. */
  lemma NameInjective(kind: string, n: nat, kind': string, n': nat)
    requires Name(kind, n) == Name(kind', n')
    ensures kind == kind' && n == n'
  {
    var p := Name(kind, n);
    TypeOfName(kind, n);
    TypeOfName(kind', n');
    assert kind == kind';
    assert p[12 + |kind|..] == Decimal(n) && p[12 + |kind|..] == Decimal(n');
    DecimalInjective(n, n');
  }

  /** A kind made of capital letters and underscores, as every built-in kind is. */
  predicate ValidKind(kind: string) {
    kind != "" && forall i :: 0 <= i < |kind| ==> 'A' <= kind[i] <= 'Z' || kind[i] == '_'
  }

  lemma NameUpper(kind: string, n: nat)
    requires ValidKind(kind)
    ensures ToUpper(Name(kind, n)) == Name(kind, n)
  {
    var p, d := Name(kind, n), Decimal(n);
    forall i | 0 <= i < |p| ensures Upper(p[i]) == p[i] {
      assert p[i] == if i < 11 then MARKER[i] else if i < 11 + |kind| then kind[i - 11]
                     else if i == 11 + |kind| then '_' else d[i - 12 - |kind|];
    }
  }

  /** A name is recognised wherever it stands, unless a digit follows and is absorbed. */
  lemma NameBare(kind: string, n: nat, s: string, p: nat)
    requires ValidKind(kind) && p + |Name(kind, n)| <= |s| && s[p..p + |Name(kind, n)|] == Name(kind, n)
    requires p + |Name(kind, n)| < |s| ==> !IsDigit(s[p + |Name(kind, n)|])
    ensures Bare(s, p, |s|) == Some(p + |Name(kind, n)|)
  {
    var name, d := Name(kind, n), Decimal(n);
    forall k | p <= k < p + |name| ensures s[k] == name[k - p] {
      assert s[p..p + |name|][k - p] == s[k];
    }
    forall k | p <= k < p + 11 ensures Upper(s[k]) == MARKER[k - p] {
      assert name[k - p] == MARKER[k - p];
    }
    forall k | p + 11 <= k < p + 11 + |kind| ensures IsTypeChar(s[k]) {
      assert name[k - p] == kind[k - p - 11];
    }
    assert name[11 + |kind|] == '_';
    forall k | p + 12 + |kind| <= k < p + 12 + |kind| + |d| ensures IsDigit(s[k]) {
      assert name[k - p] == d[k - p - 12 - |kind|];
    }
    BareIs(s, p, |s|, |kind|, |d|);
  }

  // ---------------------------------------------------------------------------------------------
  // The session vault.
  // ---------------------------------------------------------------------------------------------

  function Key(kind: string, value: string): string { kind + "\0" + value }

  predicate KeySafe(kind: string) { '\0' !in kind }

  lemma KeyInjective(kind: string, value: string, kind': string, value': string)
    requires KeySafe(kind) && KeySafe(kind') && Key(kind, value) == Key(kind', value')
    ensures kind == kind' && value == value'
  {
    var k := Key(kind, value);
    assert k[|kind|] == '\0' && k[|kind'|] == '\0';
    assert forall i :: 0 <= i < |kind| ==> k[i] == kind[i] && kind[i] in kind;
    assert forall i :: 0 <= i < |kind'| ==> k[i] == kind'[i] && kind'[i] in kind';
    assert kind == k[..|kind|] && kind' == k[..|kind'|];
    assert value == k[|kind| + 1..] && value' == k[|kind'| + 1..];
  }

  /** The number each (kind, value) was given. */
  type Ordinals = map<(string, string), nat>

  /** The two maps and the counters are those of a numbering: one number per (kind, value), no number given twice
      within a kind, and every placeholder leads back to the value it was made for. */
  ghost predicate Numbering(forward: map<string, string>, reverse: map<string, string>, counters: map<string, nat>,
                            ordinals: Ordinals) {
    Counted(counters, ordinals) && Forwarded(forward, ordinals) && Reversed(reverse, ordinals)
  }

  ghost predicate Counted(counters: map<string, nat>, ordinals: Ordinals) {
    && (forall x :: x in ordinals ==> KeySafe(x.0) && x.0 in counters && ordinals[x] < counters[x.0])
    && (forall x, y :: x in ordinals && y in ordinals && x.0 == y.0 && ordinals[x] == ordinals[y] ==> x == y)
  }

  ghost predicate Forwarded(forward: map<string, string>, ordinals: Ordinals) {
    && (forall x {:trigger Maps(forward, Key(x.0, x.1), Name(x.0, ordinals[x]))} :: x in ordinals ==> Maps(forward, Key(x.0, x.1), Name(x.0, ordinals[x])))
    && (forall k {:trigger KnownKey(ordinals, k)} :: k in forward ==> KnownKey(ordinals, k))
  }

  ghost predicate Reversed(reverse: map<string, string>, ordinals: Ordinals) {
    && (forall x {:trigger Maps(reverse, Name(x.0, ordinals[x]), x.1)} :: x in ordinals ==> Maps(reverse, Name(x.0, ordinals[x]), x.1))
    && (forall p {:trigger KnownName(ordinals, p)} :: p in reverse ==> KnownName(ordinals, p))
  }

  ghost predicate Maps(m: map<string, string>, k: string, v: string) { k in m && m[k] == v }

  ghost predicate KnownKey(ordinals: Ordinals, k: string) {
    exists x :: x in ordinals && Key(x.0, x.1) == k
  }

  ghost predicate KnownName(ordinals: Ordinals, p: string) {
    exists x :: x in ordinals && Name(x.0, ordinals[x]) == p
  }

  /** Two values share a placeholder only if they are the same value of the same kind. */
  lemma PlaceholdersDiffer(forward: map<string, string>, reverse: map<string, string>, counters: map<string, nat>,
                           ordinals: Ordinals, x: (string, string), y: (string, string))
    requires Numbering(forward, reverse, counters, ordinals) && x in ordinals && y in ordinals
    ensures Key(x.0, x.1) in forward && Key(y.0, y.1) in forward
    ensures forward[Key(x.0, x.1)] == forward[Key(y.0, y.1)] <==> x == y
  {
    assert Maps(forward, Key(x.0, x.1), Name(x.0, ordinals[x])) && Maps(forward, Key(y.0, y.1), Name(y.0, ordinals[y]));
    if forward[Key(x.0, x.1)] == forward[Key(y.0, y.1)] {
      NameInjective(x.0, ordinals[x], y.0, ordinals[y]);
    }
  }

  /** A value not seen before has a key and a next name that nothing else has. */
  lemma NextIsNew(forward: map<string, string>, reverse: map<string, string>, counters: map<string, nat>,
                  ordinals: Ordinals, kind: string, value: string, n: nat)
    requires Numbering(forward, reverse, counters, ordinals)
    requires Key(kind, value) !in forward && n == if kind in counters then counters[kind] else 0
    ensures (kind, value) !in ordinals
    ensures forall x :: x in ordinals ==> Key(x.0, x.1) != Key(kind, value) && Name(x.0, ordinals[x]) != Name(kind, n)
    ensures forall x :: x in ordinals && x.0 == kind ==> ordinals[x] < n
  {
    forall x | x in ordinals ensures Key(x.0, x.1) != Key(kind, value) && Name(x.0, ordinals[x]) != Name(kind, n) {
      assert Maps(forward, Key(x.0, x.1), Name(x.0, ordinals[x]));
      if Name(x.0, ordinals[x]) == Name(kind, n) {
        NameInjective(x.0, ordinals[x], kind, n);
        assert false;
      }
    }
  }

  lemma KnownStays(ordinals: Ordinals, kind: string, value: string, n: nat)
    requires (kind, value) !in ordinals
    ensures forall k :: KnownKey(ordinals, k) || k == Key(kind, value) ==> KnownKey(ordinals[(kind, value) := n], k)
    ensures forall p :: KnownName(ordinals, p) || p == Name(kind, n) ==> KnownName(ordinals[(kind, value) := n], p)
  {
    var o := ordinals[(kind, value) := n];
    forall k | KnownKey(ordinals, k) || k == Key(kind, value) ensures KnownKey(o, k) {
      var x := if k == Key(kind, value) then (kind, value) else var y :| y in ordinals && Key(y.0, y.1) == k; y;
      assert x in o && Key(x.0, x.1) == k;
    }
    forall p | KnownName(ordinals, p) || p == Name(kind, n) ensures KnownName(o, p) {
      var x := if p == Name(kind, n) then (kind, value) else var y :| y in ordinals && Name(y.0, ordinals[y]) == p; y;
      assert x in o && Name(x.0, o[x]) == p;
    }
  }

  lemma ExtendForward(forward: map<string, string>, ordinals: Ordinals, kind: string, value: string, n: nat,
                      key: string, p: string)
    requires Forwarded(forward, ordinals) && (kind, value) !in ordinals && key == Key(kind, value) && p == Name(kind, n)
    requires forall x :: x in ordinals ==> Key(x.0, x.1) != key
    ensures Forwarded(forward[key := p], ordinals[(kind, value) := n])
  {
    var o := ordinals[(kind, value) := n];
    KnownStays(ordinals, kind, value, n);
    forall k | k in forward[key := p] ensures KnownKey(o, k) {
      assert k in forward ==> KnownKey(ordinals, k);
    }
    forall x | x in o ensures Maps(forward[key := p], Key(x.0, x.1), Name(x.0, o[x])) {
      if x != (kind, value) {
        assert Maps(forward, Key(x.0, x.1), Name(x.0, ordinals[x]));
      }
    }
  }

  lemma ExtendReverse(reverse: map<string, string>, ordinals: Ordinals, kind: string, value: string, n: nat, p: string)
    requires Reversed(reverse, ordinals) && (kind, value) !in ordinals && p == Name(kind, n)
    requires forall x :: x in ordinals ==> Name(x.0, ordinals[x]) != p
    ensures Reversed(reverse[p := value], ordinals[(kind, value) := n])
  {
    var o := ordinals[(kind, value) := n];
    KnownStays(ordinals, kind, value, n);
    forall q | q in reverse[p := value] ensures KnownName(o, q) {
      assert q in reverse ==> KnownName(ordinals, q);
    }
    forall x | x in o ensures Maps(reverse[p := value], Name(x.0, o[x]), x.1) {
      if x != (kind, value) {
        assert Maps(reverse, Name(x.0, ordinals[x]), x.1);
      }
    }
  }

  /** Giving the next number to a value not seen before keeps the numbering. */
  lemma Extend(forward: map<string, string>, reverse: map<string, string>, counters: map<string, nat>,
               ordinals: Ordinals, kind: string, value: string, n: nat, key: string, p: string)
    requires Numbering(forward, reverse, counters, ordinals)
    requires KeySafe(kind) && key == Key(kind, value) && key !in forward && p == Name(kind, n)
    requires n == if kind in counters then counters[kind] else 0
    ensures (kind, value) !in ordinals
    ensures Numbering(forward[key := p], reverse[p := value], counters[kind := n + 1], ordinals[(kind, value) := n])
  {
    NextIsNew(forward, reverse, counters, ordinals, kind, value, n);
    ExtendForward(forward, ordinals, kind, value, n, key, p);
    ExtendReverse(reverse, ordinals, kind, value, n, p);
  }

  lemma Lookup(forward: map<string, string>, ordinals: Ordinals, kind: string, value: string, key: string)
    requires Forwarded(forward, ordinals) && KeySafe(kind) && key == Key(kind, value) && key in forward
    requires forall x :: x in ordinals ==> KeySafe(x.0)
    ensures (kind, value) in ordinals && forward[key] == Name(kind, ordinals[(kind, value)])
  {
    assert KnownKey(ordinals, key);
    var x :| x in ordinals && Key(x.0, x.1) == key;
    KeyInjective(kind, value, x.0, x.1);
    assert Maps(forward, Key(x.0, x.1), Name(x.0, ordinals[x]));
  }

  class SessionVault {
    var forward: map<string, string>
    var reverse: map<string, string>
    var counters: map<string, nat>
    ghost var ordinals: Ordinals

    ghost predicate Valid()
      reads this
    {
      Numbering(forward, reverse, counters, ordinals)
    }

    constructor ()
      ensures Valid() && ordinals == map[]
    {
      forward, reverse, counters, ordinals := map[], map[], map[], map[];
    }

    /** Returns the placeholder of a value, allocating the next number of its kind on first sight. */
    method PlaceholderFor(kind: string, value: string) returns (p: string)
      requires Valid() && KeySafe(kind)
      modifies this
      ensures Valid() && (kind, value) in ordinals && p == Name(kind, ordinals[(kind, value)])
      ensures ordinals == if (kind, value) in old(ordinals) then old(ordinals)
                          else old(ordinals)[(kind, value) := if kind in old(counters) then old(counters)[kind] else 0]
    {
      var key := Key(kind, value);
      if key in forward {
        Lookup(forward, ordinals, kind, value, key);
        p := forward[key];
      } else {
        p := Allocate(kind, value, key);
      }
    }

    method Allocate(kind: string, value: string, key: string) returns (p: string)
      requires Valid() && KeySafe(kind) && key == Key(kind, value) && key !in forward
      modifies this
      ensures Valid() && (kind, value) !in old(ordinals)
      ensures var idx := if kind in old(counters) then old(counters)[kind] else 0;
              ordinals == old(ordinals)[(kind, value) := idx] && p == Name(kind, idx)
    {
      var idx := if kind in counters then counters[kind] else 0;
      p := Name(kind, idx);
      Extend(forward, reverse, counters, ordinals, kind, value, idx, key, p);
      forward, reverse, counters, ordinals :=
        forward[key := p], reverse[p := value], counters[kind := idx + 1], ordinals[(kind, value) := idx];
    }

    /** The value behind a placeholder, whatever its case. */
    function Resolve(placeholder: string): Option<string>
      reads this
    {
      var p := ToUpper(placeholder);
      if p in reverse then Some(reverse[p]) else None
    }

    /** Forgets everything at the end of the session. */
    method Purge()
      modifies this
      ensures Valid() && ordinals == map[] && forall p :: Resolve(p) == None
    {
      forward, reverse, counters, ordinals := map[], map[], map[], map[];
    }
  }
}
