/** The incremental restorer of one stream (pii/anonymize/redactor.go), proved against the hold-back rule. */
module StreamUnredactor {
  import opened Wrappers
  import opened Placeholders
  import opened Streaming
  import opened Chunks
  import opened Vault
  import TokenContract

  /** Whether a placeholder has fully appeared, closed by a non-identifier character. */
  method HasCompletePlaceholder(s: string) returns (found: bool)
    ensures found == CompletePlaceholder(s)
  {
    for a := 0 to |s|
      invariant forall i: nat, b: nat {:trigger PlaceholderAt(s, i, b)} ::
                  i < a && PlaceholderAt(s, i, b) && b < |s| ==> IsIdentifier(s[b])
    {
      var e := ScanBare(s, a);
      if e.Some? && e.value < |s| && !IsIdentifier(s[e.value]) {
        assert PlaceholderAt(s, a, e.value);
        return true;
      }
    }
    return false;
  }

  /** A token written for a valid key, of eight to 64 hex digits, is one that the stream waits for. */
  lemma IssuedIsComplete(key: TokenContract.TokenKey, hex: string)
    requires TokenContract.ValidKey(key) && 8 <= |hex| <= 64
    requires forall c :: c in hex ==> '0' <= c <= '9' || 'a' <= c <= 'f'
    ensures CompleteToken("[tok:" + key.namespace + ":" + hex + "]")
  {
    var ns := key.namespace;
    var s := "[tok:" + ns + ":" + hex + "]";
    assert s[5..5 + |ns|] == ns && s[6 + |ns|..6 + |ns| + |hex|] == hex;
    forall i | 5 <= i < 5 + |ns| ensures IsNamespaceChar(s[i]) {
      assert s[i] == ns[i - 5] && TokenContract.IsLowerIdentifier(ns[i - 5]);
    }
    forall i | 6 + |ns| <= i < 6 + |ns| + |hex| ensures IsHex(s[i]) {
      assert s[i] == hex[i - 6 - |ns|] && hex[i - 6 - |ns|] in hex;
    }
    assert CompleteTokenAt(s, 0, |ns|, |hex|);
  }

  /** A run of namespace characters and a run of hex digits decide whether a token stands at p. */
  lemma TokenRuns(s: string, p: nat, a: nat, b: nat)
    requires p + 5 <= a <= |s| && (a < |s| ==> !IsNamespaceChar(s[a]))
    requires forall i {:trigger IsNamespaceChar(s[i])} :: p + 5 <= i < a ==> IsNamespaceChar(s[i])
    requires a < |s| && s[a] == ':' ==> a < b <= |s| && (b < |s| ==> !IsHex(s[b]))
    requires a < |s| && s[a] == ':' ==> forall i {:trigger IsHex(s[i])} :: a < i < b ==> IsHex(s[i])
    ensures (exists ns: nat, hex: nat :: CompleteTokenAt(s, p, ns, hex)) <==>
            s[p..p + 5] == "[tok:" && a > p + 5 && a < |s| && s[a] == ':' && 8 <= b - a - 1 <= 64 && b < |s| && s[b] == ']'
  {
    forall ns: nat, hex: nat | CompleteTokenAt(s, p, ns, hex) ensures p + 5 + ns == a && a + 1 + hex == b {
      assert p + 5 + ns < a ==> IsNamespaceChar(s[p + 5 + ns]);
      assert a + 1 + hex < b ==> IsHex(s[a + 1 + hex]);
    }
    if s[p..p + 5] == "[tok:" && a > p + 5 && a < |s| && s[a] == ':' && 8 <= b - a - 1 <= 64 && b < |s| && s[b] == ']' {
      assert CompleteTokenAt(s, p, a - p - 5, b - a - 1);
    }
  }

  method CompleteTokenFrom(s: string, p: nat) returns (found: bool)
    requires p + 5 <= |s|
    ensures found == exists ns: nat, hex: nat :: CompleteTokenAt(s, p, ns, hex)
  {
    var a := p + 5;
    while a < |s| && IsNamespaceChar(s[a])
      invariant p + 5 <= a <= |s| && forall i {:trigger IsNamespaceChar(s[i])} :: p + 5 <= i < a ==> IsNamespaceChar(s[i])
    {
      a := a + 1;
    }
    var b := a;
    if a < |s| && s[a] == ':' {
      b := a + 1;
      while b < |s| && IsHex(s[b])
        invariant a < b <= |s| && forall i {:trigger IsHex(s[i])} :: a < i < b ==> IsHex(s[i])
      {
        b := b + 1;
      }
    }
    TokenRuns(s, p, a, b);
    found := s[p..p + 5] == "[tok:" && a > p + 5 && a < |s| && s[a] == ':' && 8 <= b - a - 1 <= 64 && b < |s| && s[b] == ']';
  }

  method HasCompleteToken(s: string) returns (found: bool)
    ensures found == CompleteToken(s)
  {
    var p := 0;
    while p + 5 <= |s|
      invariant forall q: nat, ns: nat, hex: nat {:trigger CompleteTokenAt(s, q, ns, hex)} :: q < p ==> !CompleteTokenAt(s, q, ns, hex)
    {
      var here := CompleteTokenFrom(s, p);
      if here {
        return true;
      }
      p := p + 1;
    }
    return false;
  }

  /** The last marker in the window, when there is one; otherwise what a partial marker at the end holds back. */
  method LastMarker(buf: string, marker: string, ghost complete: string -> bool) returns (at: nat, found: bool)
    requires marker != []
    ensures at <= |buf|
    ensures HoldPoint(buf, marker, complete) == if found && complete(buf[at..]) then |buf| else at
  {
    var from := if |buf| > WINDOW then |buf| - WINDOW else 0;
    var idx := LastIndex(buf[from..], marker, |buf| - from + 1);
    if idx >= 0 {
      return from + idx, true;
    }
    var most := Min(|marker| - 1, |buf|);
    var n := most;
    while n > 0 && !EndsWith(buf, marker, n)
      invariant n <= most && forall m: nat :: n < m <= most ==> !EndsWith(buf, marker, m)
    {
      n := n - 1;
    }
    assert n == PartialMarker(buf, marker, most);
    return |buf| - n, false;
  }

  method SplitSafePrefix(buf: string) returns (safe: string, held: string)
    ensures safe + held == buf && |safe| == SafePrefix(buf)
  {
    var cut := |buf|;
    var at, found := LastMarker(buf, MARKER, CompletePlaceholder);
    var complete := false;
    if found {
      complete := HasCompletePlaceholder(buf[at..]);
    }
    if !complete && at < cut {
      cut := at;
    }
    at, found := LastMarker(buf, TOKEN_MARKER, CompleteToken);
    complete := false;
    if found {
      complete := HasCompleteToken(buf[at..]);
    }
    if !complete && at < cut {
      cut := at;
    }
    safe, held := buf[..cut], buf[cut..];
  }

  /** Larger chunks can lose a placeholder: behind one that is complete even the beginning of another is let go. */
  lemma ChunkLetsGo(kind: string, n: nat, buf: string)
    requires ValidKind(kind) && buf == Name(kind, n) + " ANON" && |buf| <= WINDOW
    requires forall p: nat {:trigger At(buf, p, MARKER)} :: p > 0 ==> !At(buf, p, MARKER)
    ensures SafePrefix(buf) == |buf|
  {
    var name := Name(kind, n);
    assert buf[0..|name|] == name && buf[|name|] == ' ';
    NameBare(kind, n, buf, 0);
    BareCharacters(buf, 0, |buf|);
    assert PlaceholderAt(buf, 0, |name|) && CompletePlaceholder(buf);
    assert buf[0..] == buf;
    assert LastIndex(buf, MARKER, |buf| + 1) == 0;
    NoBracket(buf, |name|);
  }

  /** Without a bracket there is nothing of a token to wait for. */
  lemma NoBracket(buf: string, end: nat)
    requires end + 5 == |buf| <= WINDOW && buf[end..] == " ANON" && forall i {:trigger IsIdentifier(buf[i])} :: 0 <= i < end ==> IsIdentifier(buf[i])
    ensures HoldPoint(buf, TOKEN_MARKER, CompleteToken) == |buf|
  {
    forall i | 0 <= i < |buf| ensures Upper(buf[i]) != '[' {
      assert i < end ==> IsIdentifier(buf[i]);
      assert i >= end ==> buf[i] == buf[end..][i - end];
    }
    assert buf[0..] == buf;
    forall p: nat ensures !At(buf, p, TOKEN_MARKER) {
      assert p < |buf| ==> Upper(buf[p]) != '[';
    }
    forall m: nat | 0 < m <= 4 ensures !EndsWith(buf, TOKEN_MARKER, m) {
      assert m <= |buf| ==> Upper(buf[|buf| - m]) != '[';
    }
  }

  /** The state of one stream. The vault's map does not change while it is restored. */
  class StreamUnredactor {
    const reverse: map<string, string>
    var buffer: string
    var phantom: seq<string>
    ghost var fed: seq<string>
    ghost var emitted: Restoration

    /** What came out and what is held account for everything fed so far. */
    ghost predicate Valid()
      reads this
    {
      phantom == emitted.phantom && Ongoing(reverse, fed, emitted, buffer)
    }

    constructor (reverse: map<string, string>)
      ensures Valid() && this.reverse == reverse && buffer == "" && fed == [] && emitted == NOTHING
    {
      this.reverse := reverse;
      buffer, phantom, fed, emitted := "", [], [], NOTHING;
      OngoingStart(reverse);
    }

    /** Consumes one chunk and returns what is safe to forward; the rest of the buffer is held back. */
    method Feed(chunk: string) returns (text: string)
      requires Valid()
      modifies this
      ensures Valid() && fed == old(fed) + [chunk]
      ensures exists piece: string ::
                && piece + buffer == old(buffer) + chunk && |piece| == SafePrefix(old(buffer) + chunk)
                && emitted == old(emitted).Then(Unredacted(reverse, piece))
                && emitted.text == old(emitted.text) + text
    {
      var safe, held := SplitSafePrefix(buffer + chunk);
      var r := Unredact(reverse, safe);
      OngoingStep(reverse, fed, emitted, buffer, chunk, safe, held);
      buffer := held;
      phantom := phantom + r.phantom;
      fed, emitted := fed + [chunk], emitted.Then(r);
      text := r.text;
    }

    /** Emits what is left at the end of the stream. What has come out is then the restoration of the stream. */
    method Flush() returns (text: string)
      requires Valid()
      modifies this
      ensures buffer == "" && fed == old(fed) && phantom == emitted.phantom
      ensures emitted.text == old(emitted.text) + text && emitted == Chunked(reverse, "", fed)
    {
      var r := Unredact(reverse, buffer);
      assert Chunked(reverse, buffer, []) == r;
      assert fed + [] == fed;
      buffer := "";
      phantom := phantom + r.phantom;
      emitted := emitted.Then(r);
      text := r.text;
    }
  }
}
