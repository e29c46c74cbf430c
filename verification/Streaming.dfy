/** Incremental restoration of a stream (pii/anonymize/redactor.go): the hold-back rule, and what feeding a
    text one byte at a time yields. */
module Streaming {
  import opened Wrappers
  import opened Placeholders

  /** maxPlaceholderLen: how much of the buffer is searched for a marker. */
  const WINDOW := 64

  /** The marker that opens a tokenize-operator output, folded to upper case as the search does. */
  const TOKEN_MARKER := "[TOK:"

  /** The position of the last occurrence of the marker, or -1. */
  function LastIndex(s: string, marker: string, below: nat): (r: int)
    requires below <= |s| + 1
    ensures -1 <= r < below
    ensures r >= 0 ==> At(s, r, marker)
    ensures forall p: nat :: r < p < below ==> !At(s, p, marker)
  {
    if below == 0 then -1 else if At(s, below - 1, marker) then below - 1 else LastIndex(s, marker, below - 1)
  }

  /** The text ends with the first n characters of the marker. */
  predicate EndsWith(s: string, marker: string, n: nat) {
    n <= |marker| && n <= |s| && forall k {:trigger Upper(s[k])} :: |s| - n <= k < |s| ==> Upper(s[k]) == marker[k - (|s| - n)]
  }

  /** The longest partial marker at the end of the text, up to a length. */
  function PartialMarker(s: string, marker: string, most: nat): (n: nat)
    requires most <= |marker| && most <= |s|
    ensures n <= most && EndsWith(s, marker, n)
    ensures forall m: nat :: n < m <= most ==> !EndsWith(s, marker, m)
  {
    if most == 0 || EndsWith(s, marker, most) then most else PartialMarker(s, marker, most - 1)
  }

  /** Somewhere in s a placeholder is already closed by a non-identifier character. */
  ghost predicate CompletePlaceholder(s: string) {
    exists a: nat, b: nat :: PlaceholderAt(s, a, b) && b < |s| && !IsIdentifier(s[b])
  }

  predicate IsNamespaceChar(c: char) { 'a' <= c <= 'z' || IsDigit(c) || c == '_' }

  predicate IsHex(c: char) { IsDigit(c) || 'a' <= c <= 'f' || 'A' <= c <= 'F' }

  /** [tok:ns:hex] with 8 to 64 hex digits stands at position p. */
  ghost predicate CompleteTokenAt(s: string, p: nat, ns: nat, hex: nat) {
    && p + 5 + ns + 1 + hex < |s| && ns >= 1 && 8 <= hex <= 64
    && s[p..p + 5] == "[tok:"
    && (forall i :: p + 5 <= i < p + 5 + ns ==> IsNamespaceChar(s[i]))
    && s[p + 5 + ns] == ':'
    && (forall i :: p + 6 + ns <= i < p + 6 + ns + hex ==> IsHex(s[i]))
    && s[p + 6 + ns + hex] == ']'
  }

  ghost predicate CompleteToken(s: string) {
    exists p: nat, ns: nat, hex: nat :: CompleteTokenAt(s, p, ns, hex)
  }

  function Min(a: nat, b: nat): nat { if a < b then a else b }

  /** From where the buffer must be held back for one marker: its length when nothing is pending. */
  ghost function HoldPoint(buf: string, marker: string, complete: string -> bool): (r: nat)
    requires marker != []
    ensures r <= |buf|
  {
    var from := if |buf| > WINDOW then |buf| - WINDOW else 0;
    var tail := buf[from..];
    var idx := LastIndex(tail, marker, |tail| + 1);
    if idx < 0 then |buf| - PartialMarker(buf, marker, Min(|marker| - 1, |buf|))
    else if complete(buf[from + idx..]) then |buf|
    else from + idx
  }

  /** The length of the prefix that is safe to emit. */
  ghost function SafePrefix(buf: string): (r: nat)
    ensures r <= |buf|
  {
    Min(HoldPoint(buf, MARKER, CompletePlaceholder), HoldPoint(buf, TOKEN_MARKER, CompleteToken))
  }

  // ---------------------------------------------------------------------------------------------
  // What the hold point tells, in terms of positions in the buffer.
  // ---------------------------------------------------------------------------------------------

  /** A marker in a slice is a marker of the text that ends within the slice. */
  lemma AtInText(text: string, c: nat, e: nat, p: nat, marker: string)
    requires c <= e <= |text|
    ensures At(text[c..e], p, marker) <==> c + p + |marker| <= e && At(text, c + p, marker)
  {
    var t := text[c..e];
    assert forall k :: 0 <= k < |t| ==> t[k] == text[c + k];
    if At(t, p, marker) {
      forall k | c + p <= k < c + p + |marker| ensures Upper(text[k]) == marker[k - c - p] {
        assert Upper(t[k - c]) == marker[k - c - p];
      }
    }
    if c + p + |marker| <= e && At(text, c + p, marker) {
      forall k | p <= k < p + |marker| ensures Upper(t[k]) == marker[k - p] {
        assert Upper(text[c + k]) == marker[k - p];
      }
    }
  }

  datatype Hold = Closed(at: nat) | Open | Partial(n: nat)

  ghost predicate HoldCase(buf: string, marker: string, complete: string -> bool, r: nat, hold: Hold) {
    match hold
    case Closed(p) => r == |buf| <= p + WINDOW && At(buf, p, marker) && complete(buf[p..]) && LastFrom(buf, p, marker)
    case Open => At(buf, r, marker) && !complete(buf[r..]) && LastFrom(buf, r, marker)
    case Partial(n) => r + n == |buf| && HeldPartial(buf, marker, n) && NoneInWindow(buf, marker)
  }

  /** What the last occurrence in a tail of the buffer, or that there is none, says of the buffer. */
  lemma InTail(buf: string, tail: nat, idx: int, marker: string)
    requires tail <= |buf| && -1 <= idx && (idx >= 0 ==> At(buf[tail..], idx, marker))
    requires forall p: nat :: idx < p <= |buf| - tail ==> !At(buf[tail..], p, marker)
    ensures idx >= 0 ==> At(buf, tail + idx, marker)
    ensures marker != [] ==> forall p: nat :: tail + idx < p ==> !At(buf, p, marker)
  {
    assert buf[tail..] == buf[tail..|buf|];
    if idx >= 0 {
      AtInText(buf, tail, |buf|, idx, marker);
    }
    forall p: nat | tail + idx < p && marker != [] ensures !At(buf, p, marker) {
      AtInText(buf, tail, |buf|, p - tail, marker);
    }
  }

  /** The three outcomes: a complete construct releases everything, an open one is held from its start, and
      without a marker in the window only a partial marker at the end is held. */
  lemma HoldPointCases(buf: string, marker: string, complete: string -> bool) returns (hold: Hold)
    requires marker != []
    ensures HoldCase(buf, marker, complete, HoldPoint(buf, marker, complete), hold)
  {
    var from := if |buf| > WINDOW then |buf| - WINDOW else 0;
    var tail := buf[from..];
    var idx := LastIndex(tail, marker, |tail| + 1);
    InTail(buf, from, idx, marker);
    if idx >= 0 {
      hold := if complete(buf[from + idx..]) then Closed(from + idx) else Open;
    } else {
      hold := Partial(PartialMarker(buf, marker, Min(|marker| - 1, |buf|)));
    }
  }

  ghost predicate NoneInWindow(s: string, marker: string) {
    forall p: nat :: |s| <= p + WINDOW ==> !At(s, p, marker)
  }

  ghost predicate LastFrom(s: string, p: nat, marker: string) {
    forall q: nat :: p < q ==> !At(s, q, marker)
  }

  ghost predicate HeldPartial(s: string, marker: string, n: nat) {
    && n < |marker| && EndsWith(s, marker, n)
    && forall m: nat :: n < m < |marker| ==> !EndsWith(s, marker, m)
  }

  // ---------------------------------------------------------------------------------------------
  // The invariant of a run. Text consumed up to k, emitted up to c, text[c..k] held in the buffer.
  // ---------------------------------------------------------------------------------------------

  /** What the hold-back rule can cope with: placeholders of at most one byte more than maxPlaceholderLen, none
      with another marker inside, and no token marker. */
  ghost predicate Streamable(text: string) {
    && (forall a: nat, b: nat :: PlaceholderAt(text, a, b) ==> b - a <= WINDOW + 1 && NoMarkerInside(text, a, b))
    && (forall p: nat :: !At(text, p, TOKEN_MARKER))
  }

  ghost predicate NoMarkerInside(text: string, a: nat, b: nat) {
    forall p: nat :: a < p < b ==> !At(text, p, MARKER)
  }

  /** Emission never stops inside a placeholder; the buffer holds no closed placeholder and no second marker. */
  ghost predicate Held(text: string, c: nat, k: nat) {
    && c <= k <= |text|
    && SafeCut(text, c)
    && (forall a: nat, b: nat :: PlaceholderAt(text, a, b) && c <= a && b < k ==> IsIdentifier(text[b]))
    && MarkerOnlyFirst(text, c, k)
  }

  ghost predicate MarkerOnlyFirst(text: string, c: nat, k: nat) {
    forall p: nat :: c < p && p + 11 <= k ==> !At(text, p, MARKER)
  }

  lemma PlaceholderText(text: string, a: nat, b: nat)
    requires PlaceholderAt(text, a, b)
    ensures At(text, a, MARKER) && a + 14 <= b
    ensures forall i {:trigger IsIdentifier(text[i])} :: a <= i < b ==> IsIdentifier(text[i])
    ensures IsDigit(text[b - 1])
  {
    BareCharacters(text, a, |text|);
  }

  /** A slice has a placeholder that ends before the slice does exactly where the text has one. */
  lemma PlaceholderInSlice(text: string, x: nat, e: nat, a: nat, b: nat)
    requires x <= e <= |text|
    ensures PlaceholderAt(text[x..e], a, b) && b < e - x <==> PlaceholderAt(text, x + a, x + b) && x + b < e
  {
    if a < b < e - x {
      SliceOfSlice(text, x, e, a);
      BareSame(text[x..e], a, e - x, text, x + a, e);
      BareBefore(text, x + a, x + b, e);
    }
  }

  lemma SliceOfSlice(text: string, x: nat, e: nat, a: nat)
    requires x + a <= e <= |text|
    ensures text[x..e][a..e - x] == text[x + a..e]
  {
  }

  /** A match that ends before the end of a range is a match of the whole text. */
  lemma BareBefore(text: string, a: nat, b: nat, e: nat)
    requires b < e <= |text|
    ensures Bare(text, a, e) == Some(b) <==> Bare(text, a, |text|) == Some(b)
  {
    if Bare(text, a, e) == Some(b) {
      BareExtends(text, a, e, |text|);
    } else if Bare(text, a, |text|) == Some(b) {
      BareTruncates(text, a, e, |text|);
    }
  }

  lemma CompleteInText(text: string, x: nat, e: nat) returns (a: nat, b: nat)
    requires x <= e <= |text| && CompletePlaceholder(text[x..e])
    ensures PlaceholderAt(text, a, b) && x <= a && b < e && !IsIdentifier(text[b])
  {
    var p: nat, q: nat :| PlaceholderAt(text[x..e], p, q) && q < |text[x..e]| && !IsIdentifier(text[x..e][q]);
    PlaceholderInSlice(text, x, e, p, q);
    a, b := x + p, x + q;
  }

  lemma CompleteInBuffer(text: string, x: nat, e: nat, a: nat, b: nat)
    requires PlaceholderAt(text, a, b) && x <= a && b < e <= |text| && !IsIdentifier(text[b])
    ensures CompletePlaceholder(text[x..e])
  {
    PlaceholderInSlice(text, x, e, a - x, b - x);
    assert text[x..e][b - x] == text[b];
  }

  /** What is held for a placeholder marker after one more byte, in terms of the text. */
  ghost predicate MarkerHold(text: string, c: nat, e: nat, x: nat, hold: Hold) {
    && c <= x <= e <= |text|
    && match hold
       case Closed(_) => x == e && c < e && !IsIdentifier(text[e - 1])
       case Open =>
         && x + 11 <= e && At(text, x, MARKER)
         && (forall p: nat :: x < p && p + 11 <= e ==> !At(text, p, MARKER))
         && forall a: nat, b: nat :: PlaceholderAt(text, a, b) && x <= a && b < e ==> IsIdentifier(text[b])
       case Partial(n) =>
         && n < 11 && x + n == e
         && (forall i :: x <= i < e ==> IsLetter(text[i]))
         && (forall p: nat :: c <= p && e <= p + WINDOW && p + 11 <= e ==> !At(text, p, MARKER))
         && (forall a: nat :: c <= a && a + 11 > e && At(text, a, MARKER) && a < e ==> x <= a)
  }

  lemma OpenInText(text: string, c: nat, e: nat, r: nat)
    requires c <= e <= |text| && At(text[c..e], r, MARKER) && LastFrom(text[c..e], r, MARKER)
    requires !CompletePlaceholder(text[c..e][r..])
    ensures MarkerHold(text, c, e, c + r, Open)
  {
    AtInText(text, c, e, r, MARKER);
    assert text[c..e][r..] == text[c + r..e];
    forall p: nat | c + r < p && p + 11 <= e ensures !At(text, p, MARKER) {
      AtInText(text, c, e, p - c, MARKER);
      assert !At(text[c..e], p - c, MARKER);
    }
    forall a: nat, b: nat | PlaceholderAt(text, a, b) && c + r <= a && b < e ensures IsIdentifier(text[b]) {
      if !IsIdentifier(text[b]) {
        CompleteInBuffer(text, c + r, e, a, b);
      }
    }
  }

  lemma ClosedInText(text: string, c: nat, e: nat, p: nat)
    requires c < e <= |text| && At(text[c..e], p, MARKER) && CompletePlaceholder(text[c..e][p..])
    requires forall a: nat, b: nat :: PlaceholderAt(text, a, b) && c <= a && b < e - 1 ==> IsIdentifier(text[b])
    ensures MarkerHold(text, c, e, e, Closed(p))
  {
    assert text[c..e][p..] == text[c + p..e];
    var a, b := CompleteInText(text, c + p, e);
  }

  lemma MarkerHoldOf(text: string, c: nat, e: nat) returns (hold: Hold)
    requires c < e <= |text|
    requires forall a: nat, b: nat :: PlaceholderAt(text, a, b) && c <= a && b < e - 1 ==> IsIdentifier(text[b])
    ensures MarkerHold(text, c, e, c + HoldPoint(text[c..e], MARKER, CompletePlaceholder), hold)
  {
    hold := HoldPointCases(text[c..e], MARKER, CompletePlaceholder);
    match hold
    case Closed(p) => ClosedInText(text, c, e, p);
    case Open => OpenInText(text, c, e, HoldPoint(text[c..e], MARKER, CompletePlaceholder));
    case Partial(n) => PartialInText(text, c, e, HoldPoint(text[c..e], MARKER, CompletePlaceholder));
  }

  lemma PartialInText(text: string, c: nat, e: nat, r: nat)
    requires c <= e <= |text| && r <= e - c && HeldPartial(text[c..e], MARKER, e - c - r)
    requires NoneInWindow(text[c..e], MARKER)
    ensures MarkerHold(text, c, e, c + r, Partial(e - c - r))
  {
    var buf := text[c..e];
    forall i | c + r <= i < e ensures IsLetter(text[i]) {
      assert buf[i - c] == text[i];
      assert Upper(buf[i - c]) == MARKER[i - c - r];
    }
    forall a: nat | c <= a && a + 11 > e && At(text, a, MARKER) && a < e ensures c + r <= a {
      forall k | a - c <= k < |buf| ensures Upper(buf[k]) == MARKER[k - (a - c)] {
        assert buf[k] == text[c + k] && Upper(text[c + k]) == MARKER[c + k - a];
      }
      assert EndsWith(buf, MARKER, e - a);
    }
    forall p: nat | c <= p && e <= p + WINDOW && p + 11 <= e ensures !At(text, p, MARKER) {
      AtInText(text, c, e, p - c, MARKER);
    }
  }

  ghost predicate NoneAnywhere(s: string, marker: string) {
    forall p: nat :: !At(s, p, marker)
  }

  lemma NoneInSlice(text: string, c: nat, e: nat, marker: string)
    requires c <= e <= |text| && NoneAnywhere(text, marker)
    ensures NoneAnywhere(text[c..e], marker)
  {
    forall p: nat ensures !At(text[c..e], p, marker) {
      AtInText(text, c, e, p, marker);
    }
  }

  /** The end of the text from x on is the beginning of a token marker, at most four characters of it. */
  ghost predicate TokenTail(text: string, x: nat, e: nat) {
    && x <= e <= |text| && e <= x + 4 && (x < e ==> text[x] == '[' && !IsIdentifier(text[x]))
    && forall i {:trigger Upper(text[i])} :: x <= i < e ==> Upper(text[i]) == TOKEN_MARKER[i - x]
  }

  lemma TokenTailOf(text: string, c: nat, e: nat, r: nat, hold: Hold)
    requires c <= e <= |text| && NoneAnywhere(text[c..e], TOKEN_MARKER)
    requires HoldCase(text[c..e], TOKEN_MARKER, CompleteToken, r, hold)
    ensures TokenTail(text, c + r, e)
  {
    var buf := text[c..e];
    assert hold.Partial?;
    forall i | c + r <= i < e ensures Upper(text[i]) == TOKEN_MARKER[i - c - r] {
      assert buf[i - c] == text[i];
    }
  }

  /** Without a token marker in the text only a partial one, starting with a bracket, can be held. */
  lemma TokenHold(text: string, c: nat, e: nat)
    requires c <= e <= |text| && Streamable(text)
    ensures TokenTail(text, c + HoldPoint(text[c..e], TOKEN_MARKER, CompleteToken), e)
  {
    assert NoneAnywhere(text, TOKEN_MARKER);
    NoneInSlice(text, c, e, TOKEN_MARKER);
    var hold := HoldPointCases(text[c..e], TOKEN_MARKER, CompleteToken);
    TokenTailOf(text, c, e, HoldPoint(text[c..e], TOKEN_MARKER, CompleteToken), hold);
  }

  // ---------------------------------------------------------------------------------------------
  // One byte.
  // ---------------------------------------------------------------------------------------------

  /** The cut after one more byte does not fall inside a placeholder. */
  lemma CutOutside(text: string, c: nat, e: nat, x: nat, hold: Hold, a: nat, b: nat)
    requires Streamable(text) && c <= a && PlaceholderAt(text, a, b) && MarkerHold(text, c, e, x, hold)
    ensures !(a < x < b)
  {
    PlaceholderText(text, a, b);
    match hold
    case Closed(_) =>
    case Open => assert NoMarkerInside(text, a, b);
    case Partial(n) =>
      assert forall i :: x <= i < e ==> !IsDigit(text[i]);
  }

  lemma StepOutside(text: string, c: nat, e: nat, cut: nat)
    requires Streamable(text) && c < e <= |text| && Held(text, c, e - 1) && cut == c + SafePrefix(text[c..e])
    ensures SafeCut(text, cut)
  {
    TokenHold(text, c, e);
    var hold := MarkerHoldOf(text, c, e);
    NothingCut(text, c, e, c + HoldPoint(text[c..e], MARKER, CompletePlaceholder),
               c + HoldPoint(text[c..e], TOKEN_MARKER, CompleteToken), cut, hold);
  }

  lemma NothingCut(text: string, c: nat, e: nat, x: nat, y: nat, cut: nat, hold: Hold)
    requires Streamable(text) && SafeCut(text, c) && c <= cut == Min(x, y)
    requires MarkerHold(text, c, e, x, hold) && TokenTail(text, y, e)
    ensures SafeCut(text, cut)
  {
    forall a: nat, b: nat | PlaceholderAt(text, a, b) && a < cut ensures b <= cut {
      if c <= a {
        CutOutside(text, c, e, x, hold, a, b);
        OneOfTwo(text, e, x, y, cut, a, b);
      }
    }
  }

  /** A cut that is one of two positions, neither inside a placeholder, is not inside it. */
  lemma OneOfTwo(text: string, e: nat, x: nat, y: nat, cut: nat, a: nat, b: nat)
    requires PlaceholderAt(text, a, b) && a < cut == Min(x, y) && x <= e && y <= e <= |text|
    requires !(a < x < b) && (y < e ==> !IsIdentifier(text[y])) && (y == e ==> x <= y)
    ensures b <= cut
  {
    PlaceholderText(text, a, b);
  }

  lemma MarkerEnd(text: string, p: nat)
    ensures At(text, p, MARKER) ==> IsIdentifier(text[p + 10])
  {
    if At(text, p, MARKER) {
      assert Upper(text[p + 10]) == MARKER[10];
    }
  }

  /** One byte keeps the invariant, and nothing emitted holds a marker after its first character. */
  lemma StepHeld(text: string, c: nat, e: nat, cut: nat)
    requires Streamable(text) && c < e <= |text| && Held(text, c, e - 1) && cut == c + SafePrefix(text[c..e])
    ensures Held(text, cut, e) && MarkerOnlyFirst(text, c, cut)
  {
    StepOutside(text, c, e, cut);
    var x := c + HoldPoint(text[c..e], MARKER, CompletePlaceholder);
    TokenHold(text, c, e);
    var hold := MarkerHoldOf(text, c, e);
    forall a: nat, b: nat | PlaceholderAt(text, a, b) && cut <= a && b < e ensures IsIdentifier(text[b]) {
      PlaceholderText(text, a, b);
    }
    forall p: nat | c < p && p + 11 <= cut ensures !At(text, p, MARKER) {
      MarkerEnd(text, p);
    }
  }

  // ---------------------------------------------------------------------------------------------
  // A whole run.
  // ---------------------------------------------------------------------------------------------

  /** Feeding the remaining bytes one at a time and then flushing. */
  ghost function Stream(reverse: map<string, string>, held: string, rest: string): Restoration
    decreases |rest|
  {
    if rest == "" then Unredacted(reverse, held)
    else
      var buf := held + [rest[0]];
      var safe := SafePrefix(buf);
      Unredacted(reverse, buf[..safe]).Then(Stream(reverse, buf[safe..], rest[1..]))
  }

  lemma PieceIsPlain(reverse: map<string, string>, text: string, c: nat, e: nat)
    requires c <= e <= |text| && MarkerOnlyFirst(text, c, e)
    ensures Unredacted(reverse, text[c..e]) == Plain(reverse, text, c, e)
  {
    var piece := text[c..e];
    forall p: nat | 0 < p ensures !At(piece, p, MARKER) {
      AtInText(text, c, e, p, MARKER);
    }
    NothingToLose(reverse, piece);
    assert piece[0..|piece|] == piece;
    PlainSame(reverse, piece, 0, |piece|, text, c, e);
  }

  lemma StreamUnfolds(reverse: map<string, string>, held: string, rest: string, buf: string, safe: nat,
                      piece: string, held': string, rest': string)
    requires rest != "" && buf == held + [rest[0]] && safe == SafePrefix(buf)
    requires piece == buf[..safe] && held' == buf[safe..] && rest' == rest[1..]
    ensures Stream(reverse, held, rest) == Unredacted(reverse, piece).Then(Stream(reverse, held', rest'))
  {
  }

  lemma StreamStep(reverse: map<string, string>, text: string, c: nat, k: nat, cut: nat, emitted: Restoration)
    requires c <= k < |text| && c <= cut == c + SafePrefix(text[c..k + 1])
    requires emitted == Unredacted(reverse, text[c..cut])
    ensures Stream(reverse, text[c..k], text[k..]) == emitted.Then(Stream(reverse, text[cut..k + 1], text[k + 1..]))
  {
    BufferParts(text, c, k, cut);
    StreamUnfolds(reverse, text[c..k], text[k..], text[c..k + 1], cut - c, text[c..cut], text[cut..k + 1], text[k + 1..]);
  }

  lemma BufferParts(text: string, c: nat, k: nat, cut: nat)
    requires c <= k < |text| && c <= cut <= k + 1
    ensures var buf := text[c..k + 1];
            && buf == text[c..k] + [text[k..][0]] && text[k..][1..] == text[k + 1..]
            && buf[..cut - c] == text[c..cut] && buf[cut - c..] == text[cut..k + 1]
  {
  }

  lemma EmitStep(reverse: map<string, string>, text: string, c: nat, k: nat) returns (cut: nat)
    requires Streamable(text) && Held(text, c, k) && k < |text|
    ensures c <= cut == c + SafePrefix(text[c..k + 1]) && Held(text, cut, k + 1)
    ensures Unredacted(reverse, text[c..cut]) == Plain(reverse, text, c, cut)
  {
    cut := c + SafePrefix(text[c..k + 1]);
    StepHeld(text, c, k + 1, cut);
    PieceIsPlain(reverse, text, c, cut);
  }

  lemma StreamEnd(reverse: map<string, string>, text: string, c: nat)
    requires Held(text, c, |text|)
    ensures Stream(reverse, text[c..|text|], text[|text|..]) == Plain(reverse, text, c, |text|)
  {
    PieceIsPlain(reverse, text, c, |text|);
  }

  lemma {:induction false} StreamIsPlain(reverse: map<string, string>, text: string, c: nat, k: nat)
    requires Streamable(text) && Held(text, c, k)
    ensures Stream(reverse, text[c..k], text[k..]) == Plain(reverse, text, c, |text|)
    decreases |text| - k
  {
    if k == |text| {
      StreamEnd(reverse, text, c);
    } else {
      var cut := EmitStep(reverse, text, c, k);
      StreamStep(reverse, text, c, k, cut, Plain(reverse, text, c, cut));
      StreamIsPlain(reverse, text, cut, k + 1);
      PlainSplits(reverse, text, c, cut);
    }
  }

  /** Byte by byte, a stream restores the same placeholders and reports the same phantoms as one pass over the
      whole text, and yields the same text exactly when no placeholder that resolves stands inside wrappers. */
  lemma StreamTheorem(reverse: map<string, string>, text: string)
    requires Streamable(text)
    ensures Stream(reverse, "", text) == Plain(reverse, text, 0, |text|)
    ensures Stream(reverse, "", text).restored == Unredacted(reverse, text).restored
    ensures Stream(reverse, "", text).phantom == Unredacted(reverse, text).phantom
    ensures Stream(reverse, "", text).text == Unredacted(reverse, text).text <==> !WrapperLost(reverse, text)
  {
    assert text[0..0] == "" && text[0..] == text;
    StreamIsPlain(reverse, text, 0, 0);
    WrapperLaw(reverse, text);
  }

  const LOWER := "anonymized_x_0"

  lemma LowerWord()
    ensures Bare(LOWER, 0, 14) == Some(14) && ToUpper(LOWER[0..14]) == "ANONYMIZED_X_0"
  {
    assert Language(LOWER, 0, 14, 1, 1);
    BareIs(LOWER, 0, 14, 1, 1);
    assert LOWER[0..14] == LOWER;
  }

  /** A placeholder that comes back in lower case is restored as well. */
  lemma LowerCaseIsRestored(reverse: map<string, string>, value: string)
    requires "ANONYMIZED_X_0" in reverse && reverse["ANONYMIZED_X_0"] == value
    ensures Unredacted(reverse, LOWER) == Restoration(value, 1, [])
  {
    LowerWord();
    forall p: nat | 0 < p ensures !At(LOWER, p, MARKER) {
      assert p + 11 <= 14 ==> Upper(LOWER[p]) != 'A';
    }
    NothingToLose(reverse, LOWER);
    PlainUnfolds(reverse, LOWER, 0, 14, 14, One(reverse, LOWER[0..14]));
  }

  const BRACKETED := "[ANONYMIZED_NAME_0]"

  lemma MarkersInBrackets(p: nat)
    requires At(BRACKETED, p, MARKER)
    ensures p == 1
  {
    assert Upper(BRACKETED[p]) == MARKER[0] && Upper(BRACKETED[p + 1]) == MARKER[1];
  }

  lemma WordInBrackets()
    ensures Language(BRACKETED, 1, 19, 4, 1)
  {
  }

  lemma InBrackets()
    ensures Bare(BRACKETED, 1, 19) == Some(18) && Encloses(BRACKETED, Match(0, 1, 18, 19))
    ensures forall p: nat :: At(BRACKETED, p, MARKER) ==> p == 1
  {
    WordInBrackets();
    BareIs(BRACKETED, 1, 19, 4, 1);
    forall p: nat | At(BRACKETED, p, MARKER) ensures p == 1 {
      MarkersInBrackets(p);
    }
  }

  lemma BracketsStream()
    ensures Streamable(BRACKETED)
  {
    InBrackets();
    forall a: nat, b: nat | PlaceholderAt(BRACKETED, a, b) ensures b - a <= WINDOW + 1 && NoMarkerInside(BRACKETED, a, b) {
      PlaceholderText(BRACKETED, a, b);
    }
    forall p: nat ensures !At(BRACKETED, p, TOKEN_MARKER) {
      assert p + 5 <= 19 ==> Upper(BRACKETED[p + 1]) != 'T';
    }
  }

  /** A text that is one wrapped placeholder gives the value in one pass, and by itself the value in its wrappers. */
  lemma OnlyWrapped(reverse: map<string, string>, s: string, m: Match, name: string, value: string)
    requires Encloses(s, m) && m.start == 0 && m.end == |s| && ToUpper(s[m.groupStart..m.groupEnd]) == name
    requires name in reverse && reverse[name] == value
    ensures Unredacted(reverse, s) == Restoration(value, 1, [])
  {
    WrappedIs(s, m);
    assert FindAll(s, |s|) == [] && FindAll(s, 0) == [m] + [] == [m];
    assert [m][1..] == [] && s[0..0] == "" && s[|s|..] == "" && Token(s, m) == name;
    var swap := Swap(reverse, s, m);
    assert Restore(reverse, s, [m], 0) == Verbatim("").Then(swap.Then(Restore(reverse, s, [m][1..], |s|)));
    assert Restore(reverse, s, [], |s|) == Verbatim("");
  }

  lemma OnlyPlain(reverse: map<string, string>, s: string, name: string, value: string)
    requires |s| >= 2 && Bare(s, 1, |s|) == Some(|s| - 1) && ToUpper(s[1..|s| - 1]) == name
    requires name in reverse && reverse[name] == value && forall p: nat :: At(s, p, MARKER) ==> p == 1
    ensures Plain(reverse, s, 0, |s|) == Restoration([s[0]] + value + [s[|s| - 1]], 1, [])
  {
    var n := |s|;
    PlainSkips(reverse, s, 0, 1, n);
    PlainUnfolds(reverse, s, 1, n, n - 1, One(reverse, s[1..n - 1]));
    PlainSkips(reverse, s, n - 1, n, n);
    assert s[0..1] == [s[0]] && s[n - 1..n] == [s[n - 1]];
    assert [s[0]] + (value + ([s[n - 1]] + "")) == [s[0]] + value + [s[n - 1]];
  }

  /** The example within wrappers, with spaces on either side. */
  function InWrappers(o: char, before: string, after: string, c: char): string {
    [o] + before + "ANONYMIZED_X_0" + after + [c]
  }

  lemma WordInWrappers(o: char, before: string, after: string, c: char, s: string, i: nat)
    requires s == InWrappers(o, before, after, c) && i == |before| + 1 && !IsDigit(if after == "" then c else after[0])
    ensures Bare(s, i, |s|) == Some(i + 14) && s[i..i + 14] == "ANONYMIZED_X_0"
  {
    var w := "ANONYMIZED_X_0";
    assert s[i..i + 14] == w;
    forall k | i <= k < i + 14 ensures s[k] == w[k - i] {
      assert s[i..i + 14][k - i] == s[k];
    }
    MarkerIsThere(s, i);
    assert Language(s, i, |s|, 1, 1);
    BareIs(s, i, |s|, 1, 1);
  }

  lemma MarkerIsThere(s: string, i: nat)
    requires i + 14 <= |s| && forall k {:trigger s[k]} :: i <= k < i + 14 ==> s[k] == "ANONYMIZED_X_0"[k - i]
    ensures At(s, i, MARKER) && s[i + 11] == 'X' && s[i + 12] == '_' && s[i + 13] == '0'
  {
    forall k | i <= k < i + 11 ensures Upper(s[k]) == MARKER[k - i] {
    }
  }

  /** Whatever wrappers and spaces have come around a placeholder, one pass takes them with it. */
  lemma WrappersAreLost(reverse: map<string, string>, value: string, o: char, before: string, after: string, c: char)
    requires "ANONYMIZED_X_0" in reverse && reverse["ANONYMIZED_X_0"] == value
    requires o in "`[{<(" && c in "`]}>)" && forall x :: x in before + after ==> x in " \t\n\r\U{000C}"
    ensures Unredacted(reverse, InWrappers(o, before, after, c)) == Restoration(value, 1, [])
  {
    var s, i := InWrappers(o, before, after, c), |before| + 1;
    forall k | 0 <= k < |before| ensures IsSpace(before[k]) {
      assert before[k] in before + after;
    }
    forall k | 0 <= k < |after| ensures IsSpace(after[k]) {
      assert after[k] in before + after;
    }
    WordInWrappers(o, before, after, c, s, i);
    SpacesInWrappers(o, before, after, c, s, i);
    UpperAlready();
    OnlyWrapped(reverse, s, Match(0, i, i + 14, |s|), "ANONYMIZED_X_0", value);
  }

  lemma SpacesInWrappers(o: char, before: string, after: string, c: char, s: string, i: nat)
    requires s == InWrappers(o, before, after, c) && i == |before| + 1
    requires (forall k :: 0 <= k < |before| ==> IsSpace(before[k])) && (forall k :: 0 <= k < |after| ==> IsSpace(after[k]))
    ensures AllSpaces(s, 1, i) && AllSpaces(s, i + 14, |s| - 1) && s[0] == o && s[|s| - 1] == c
  {
    assert s[1..i] == before && s[i + 14..|s| - 1] == after;
    forall k | 1 <= k < i ensures IsSpace(s[k]) {
      assert s[k] == before[k - 1];
    }
    forall k | i + 14 <= k < |s| - 1 ensures IsSpace(s[k]) {
      assert s[k] == after[k - i - 14];
    }
  }

  lemma UpperAlready()
    ensures ToUpper("ANONYMIZED_X_0") == "ANONYMIZED_X_0"
  {
  }

  /** One pass takes the brackets with the placeholder, the stream leaves them. */
  lemma BracketsDiffer(reverse: map<string, string>, value: string)
    requires "ANONYMIZED_NAME_0" in reverse && reverse["ANONYMIZED_NAME_0"] == value
    ensures Streamable(BRACKETED) && Unredacted(reverse, BRACKETED) == Restoration(value, 1, [])
    ensures Stream(reverse, "", BRACKETED) == Restoration("[" + value + "]", 1, [])
  {
    InBrackets();
    BracketsStream();
    assert BRACKETED[1..18] == "ANONYMIZED_NAME_0";
    assert ToUpper("ANONYMIZED_NAME_0") == "ANONYMIZED_NAME_0";
    OnlyWrapped(reverse, BRACKETED, Match(0, 1, 18, 19), "ANONYMIZED_NAME_0", value);
    OnlyPlain(reverse, BRACKETED, "ANONYMIZED_NAME_0", value);
    StreamTheorem(reverse, BRACKETED);
  }

  // ---------------------------------------------------------------------------------------------
  // Tokens.
  // ---------------------------------------------------------------------------------------------

  /** A token that has been opened within the last 64 characters, and not been closed, is held from its bracket on. */
  lemma OpenTokenIsHeld(buf: string, p: nat)
    requires p + 5 <= |buf| <= p + 64 && buf[p..p + 5] == "[tok:"
    requires forall i {:trigger buf[i]} :: p < i < |buf| ==> buf[i] != '[' && buf[i] != ']'
    ensures SafePrefix(buf) <= p
  {
    forall k | p <= k < p + 5 ensures Upper(buf[k]) == TOKEN_MARKER[k - p] {
      assert buf[k] == buf[p..p + 5][k - p];
    }
    forall q: nat | p < q ensures !At(buf, q, TOKEN_MARKER) {
      assert q + 5 <= |buf| ==> Upper(buf[q]) != '[';
    }
    var r := HoldPoint(buf, TOKEN_MARKER, CompleteToken);
    var hold := HoldPointCases(buf, TOKEN_MARKER, CompleteToken);
    assert At(buf, p, TOKEN_MARKER);
    if hold.Closed? {
      assert hold.at == p;
      NotClosed(buf, p);
    }
  }

  lemma NotClosed(buf: string, p: nat)
    requires p < |buf| && forall i {:trigger buf[i]} :: p < i < |buf| ==> buf[i] != ']'
    ensures !CompleteToken(buf[p..])
  {
    forall q: nat, ns: nat, hex: nat ensures !CompleteTokenAt(buf[p..], q, ns, hex) {
      var end := q + 6 + ns + hex;
      assert end < |buf[p..]| ==> buf[p..][end] == buf[p + end];
    }
  }

  /** A token that is just being opened is held as well, if no other was opened in the last 64 characters. */
  lemma BegunTokenIsHeld(buf: string, n: nat)
    requires 0 < n < 5 && n <= |buf| && buf[|buf| - n..] == "[tok:"[..n]
    requires forall i {:trigger buf[i]} :: 0 <= i < |buf| - n && |buf| <= i + 64 ==> buf[i] != '['
    ensures SafePrefix(buf) <= |buf| - n
  {
    var hold := HoldPointCases(buf, TOKEN_MARKER, CompleteToken);
    forall k | |buf| - n <= k < |buf| ensures Upper(buf[k]) == TOKEN_MARKER[k - (|buf| - n)] {
      assert buf[k] == buf[|buf| - n..][k - (|buf| - n)];
    }
    assert EndsWith(buf, TOKEN_MARKER, n);
    forall q: nat | |buf| <= q + 64 ensures !At(buf, q, TOKEN_MARKER) {
      assert q + 5 <= |buf| ==> Upper(buf[q]) != '[';
    }
  }
}
