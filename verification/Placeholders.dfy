/** Placeholders as text: the matcher for placeholderRe (pii/anonymize/redactor.go) over ASCII characters,
    and what it means to restore a text. A char stands for one byte. Matching works on a range s[lo..hi]
    of a text given by positions, so that pieces of one text can be compared. */
module Placeholders {
  import opened Wrappers
  import opened Sequences

  const MARKER := "ANONYMIZED_"

  predicate IsLetter(c: char) { 'a' <= c <= 'z' || 'A' <= c <= 'Z' }

  predicate IsDigit(c: char) { '0' <= c <= '9' }

  /** The class [A-Z_] under case folding. */
  predicate IsTypeChar(c: char) { IsLetter(c) || c == '_' }

  predicate IsIdentifier(c: char) { IsTypeChar(c) || IsDigit(c) }

  predicate IsSpace(c: char) { c == ' ' || c == '\t' || c == '\n' || c == '\r' || c == '\U{000C}' }

  predicate IsOpen(c: char) { c == '`' || c == '[' || c == '{' || c == '<' || c == '(' }

  predicate IsClose(c: char) { c == '`' || c == ']' || c == '}' || c == '>' || c == ')' }

  function Upper(c: char): char {
    if 'a' <= c <= 'z' then (c as int - 32) as char else c
  }

  function ToUpper(s: string): string {
    seq(|s|, i requires 0 <= i < |s| => Upper(s[i]))
  }

  /** The marker stands at position p, ignoring case. */
  predicate At(s: string, p: nat, marker: string) {
    p + |marker| <= |s| && forall k {:trigger Upper(s[k])} :: p <= k < p + |marker| ==> Upper(s[k]) == marker[k - p]
  }

  // ---------------------------------------------------------------------------------------------
  // The bare alternative, ANONYMIZED_[A-Z_]+?_[0-9]+, as a language.
  // ---------------------------------------------------------------------------------------------

  /** A word of the language stands at position i: a type of length t and a number of d digits. */
  ghost predicate Language(s: string, i: nat, hi: nat, t: nat, d: nat) {
    && t >= 1 && d >= 1 && i + 12 + t + d <= hi <= |s| && At(s, i, MARKER)
    && (forall k {:trigger IsTypeChar(s[k])} :: i + 11 <= k < i + 11 + t ==> IsTypeChar(s[k]))
    && s[i + 11 + t] == '_'
    && (forall k {:trigger IsDigit(s[k])} :: i + 12 + t <= k < i + 12 + t + d ==> IsDigit(s[k]))
  }

  /** A word that takes every digit it can within the range, as the greedy repetition does. */
  ghost predicate Word(s: string, i: nat, hi: nat, t: nat, d: nat) {
    Language(s, i, hi, t, d) && (i + 12 + t + d < hi ==> !IsDigit(s[i + 12 + t + d]))
  }

  /** Where the bare placeholder that starts at i ends. */
  ghost function Bare(s: string, i: nat, hi: nat): (r: Option<nat>)
    ensures r.Some? ==> i + 14 <= r.value <= hi <= |s|
  {
    if exists t: nat, d: nat :: Word(s, i, hi, t, d) then
      var t: nat, d: nat :| Word(s, i, hi, t, d);
      Some(i + 12 + t + d)
    else None
  }

  /** At most one such word starts at a position, so the match is determined. */
  lemma BareIs(s: string, i: nat, hi: nat, t: nat, d: nat)
    requires Word(s, i, hi, t, d)
    ensures Bare(s, i, hi) == Some(i + 12 + t + d)
  {
    forall t': nat, d': nat | Word(s, i, hi, t', d') ensures t' == t && d' == d {
      SameType(s, i, hi, t, d, t', d');
      SameType(s, i, hi, t', d', t, d);
    }
  }

  lemma SameType(s: string, i: nat, hi: nat, t: nat, d: nat, t': nat, d': nat)
    requires Language(s, i, hi, t, d) && Language(s, i, hi, t', d')
    ensures t' <= t
    ensures t' == t && d' > d ==> IsDigit(s[i + 12 + t + d])
  {
    forall k | i + 11 <= k < i + 11 + t' ensures !IsDigit(s[k]) {
      assert IsTypeChar(s[k]);
    }
    assert IsDigit(s[i + 12 + t]) && !IsDigit(s[i + 11 + t']);
  }

  /** Wherever a word of the language stands there is a match, and it covers that word. */
  lemma {:induction false} BareFinds(s: string, i: nat, hi: nat, t: nat, d: nat)
    requires Language(s, i, hi, t, d)
    ensures Bare(s, i, hi).Some? && i + 12 + t + d <= Bare(s, i, hi).value
    decreases hi - d
  {
    if i + 12 + t + d < hi && IsDigit(s[i + 12 + t + d]) {
      BareFinds(s, i, hi, t, d + 1);
    } else {
      BareIs(s, i, hi, t, d);
    }
  }

  /** The same character, or the same letter in the other case. */
  predicate SameLetter(c: char, d: char) {
    c == d || ('a' <= c <= 'z' && d as int + 32 == c as int) || ('a' <= d <= 'z' && c as int + 32 == d as int)
  }

  ghost predicate SameLetters(s: string, t: string) { |s| == |t| && forall i {:trigger s[i]} {:trigger t[i]} :: 0 <= i < |s| ==> SameLetter(s[i], t[i]) }

  lemma WordsAlike(s: string, t: string, i: nat, hi: nat, n: nat, d: nat)
    requires SameLetters(s, t) && Word(s, i, hi, n, d)
    ensures Word(t, i, hi, n, d)
  {
    forall k | i <= k < i + 11 ensures Upper(t[k]) == MARKER[k - i] {
      assert Upper(s[k]) == MARKER[k - i];
    }
    forall k | i + 11 <= k < i + 11 + n ensures IsTypeChar(t[k]) {
      assert IsTypeChar(s[k]);
    }
    forall k | i + 12 + n <= k < i + 12 + n + d ensures IsDigit(t[k]) {
      assert IsDigit(s[k]);
    }
  }

  /** Case makes no difference to where placeholders are, nor to which they are. */
  lemma CaseBlind(s: string, t: string, i: nat, hi: nat)
    requires SameLetters(s, t)
    ensures Bare(s, i, hi) == Bare(t, i, hi) && ToUpper(s) == ToUpper(t)
  {
    if n: nat, d: nat :| Word(s, i, hi, n, d) {
      WordsAlike(s, t, i, hi, n, d);
      BareIs(s, i, hi, n, d);
      BareIs(t, i, hi, n, d);
    } else if n: nat, d: nat :| Word(t, i, hi, n, d) {
      WordsAlike(t, s, i, hi, n, d);
    }
    assert forall k :: 0 <= k < |s| ==> Upper(s[k]) == Upper(t[k]);
  }

  /** A match survives a longer range; it can only grow, and only when it reaches the end. */
  lemma BareExtends(s: string, i: nat, hi: nat, hi': nat)
    requires Bare(s, i, hi).Some? && hi <= hi' <= |s|
    ensures Bare(s, i, hi').Some? && Bare(s, i, hi).value <= Bare(s, i, hi').value
    ensures Bare(s, i, hi).value < hi ==> Bare(s, i, hi') == Bare(s, i, hi)
  {
    var t: nat, d: nat :| Word(s, i, hi, t, d);
    BareIs(s, i, hi, t, d);
    BareFinds(s, i, hi', t, d);
    if i + 12 + t + d < hi {
      BareIs(s, i, hi', t, d);
    }
  }

  /** A match that ends within a shorter range is a match of that range. */
  lemma BareTruncates(s: string, i: nat, hi: nat, hi': nat)
    requires Bare(s, i, hi').Some? && Bare(s, i, hi').value <= hi <= hi'
    ensures Bare(s, i, hi) == Bare(s, i, hi')
  {
    var t: nat, d: nat :| Word(s, i, hi', t, d);
    BareIs(s, i, hi', t, d);
    BareIs(s, i, hi, t, d);
  }

  /** Every character of a match is an identifier character, the first a letter and the last a digit. */
  lemma BareCharacters(s: string, i: nat, hi: nat)
    requires Bare(s, i, hi).Some?
    ensures At(s, i, MARKER) && IsLetter(s[i])
    ensures forall k {:trigger IsIdentifier(s[k])} :: i <= k < Bare(s, i, hi).value ==> IsIdentifier(s[k])
    ensures IsDigit(s[Bare(s, i, hi).value - 1])
  {
    var t: nat, d: nat :| Word(s, i, hi, t, d);
    BareIs(s, i, hi, t, d);
    forall k | i <= k < i + 12 + t + d ensures IsIdentifier(s[k]) {
      if k < i + 11 {
        assert Upper(s[k]) == MARKER[k - i];
      } else if k < i + 11 + t {
        assert IsTypeChar(s[k]);
      } else if k > i + 11 + t {
        assert IsDigit(s[k]);
      }
    }
    assert Upper(s[i]) == MARKER[0];
    assert IsDigit(s[i + 12 + t + d - 1]);
  }

  /** Two ranges with the same characters have the same matches. */
  lemma BareSame(s: string, i: nat, hi: nat, s': string, i': nat, hi': nat)
    requires i <= hi <= |s| && i' <= hi' <= |s'| && s[i..hi] == s'[i'..hi']
    ensures Bare(s, i, hi).Some? <==> Bare(s', i', hi').Some?
    ensures Bare(s, i, hi).Some? ==> Bare(s, i, hi).value - i == Bare(s', i', hi').value - i'
  {
    if Bare(s, i, hi).Some? {
      BareCopies(s, i, hi, s', i', hi');
    } else if Bare(s', i', hi').Some? {
      BareCopies(s', i', hi', s, i, hi);
    }
  }

  lemma BareCopies(s: string, i: nat, hi: nat, s': string, i': nat, hi': nat)
    requires i <= hi <= |s| && i' <= hi' <= |s'| && s[i..hi] == s'[i'..hi'] && Bare(s, i, hi).Some?
    ensures Bare(s', i', hi') == Some(Bare(s, i, hi).value - i + i')
  {
    var t: nat, d: nat :| Word(s, i, hi, t, d);
    BareIs(s, i, hi, t, d);
    forall k' | i' <= k' < hi' ensures s'[k'] == s[k' - i' + i] {
      assert s[i..hi][k' - i'] == s'[i'..hi'][k' - i'];
    }
    forall k' | i' <= k' < i' + 11 ensures Upper(s'[k']) == MARKER[k' - i'] {
      assert Upper(s[k' - i' + i]) == MARKER[k' - i'];
    }
    forall k' | i' + 11 <= k' < i' + 11 + t ensures IsTypeChar(s'[k']) {
      assert IsTypeChar(s[k' - i' + i]);
    }
    forall k' | i' + 12 + t <= k' < i' + 12 + t + d ensures IsDigit(s'[k']) {
      assert IsDigit(s[k' - i' + i]);
    }
    BareIs(s', i', hi', t, d);
  }

  // ---------------------------------------------------------------------------------------------
  // The wrapped alternative and the search.
  // ---------------------------------------------------------------------------------------------

  /** A match: the whole of it and the placeholder captured in it. */
  datatype Match = Match(start: nat, groupStart: nat, groupEnd: nat, end: nat)

  ghost predicate AllSpaces(s: string, lo: nat, hi: nat) {
    lo <= hi <= |s| && forall i {:trigger IsSpace(s[i])} :: lo <= i < hi ==> IsSpace(s[i])
  }

  /** A placeholder between an opening and a closing wrapper, spaces allowed on either side. */
  ghost predicate Encloses(s: string, m: Match) {
    && m.start < m.groupStart < m.groupEnd < m.end <= |s|
    && IsOpen(s[m.start]) && AllSpaces(s, m.start + 1, m.groupStart)
    && Bare(s, m.groupStart, |s|) == Some(m.groupEnd)
    && AllSpaces(s, m.groupEnd, m.end - 1) && IsClose(s[m.end - 1])
  }

  ghost function Wrapped(s: string, i: nat): (r: Option<Match>)
    ensures r.Some? ==> r.value.start == i && Encloses(s, r.value)
  {
    if exists m: Match :: m.start == i && Encloses(s, m) then
      var m: Match :| m.start == i && Encloses(s, m);
      Some(m)
    else None
  }

  /** The characters around a wrapped placeholder: none is a letter, and the spaces stop at the wrappers. */
  lemma EnclosesCharacters(s: string, m: Match)
    requires Encloses(s, m)
    ensures IsLetter(s[m.groupStart]) && !IsSpace(s[m.groupStart]) && !IsSpace(s[m.end - 1])
    ensures forall k {:trigger IsLetter(s[k])} :: m.start <= k < m.groupStart || m.groupEnd <= k < m.end ==> !IsLetter(s[k])
  {
    BareCharacters(s, m.groupStart, |s|);
    forall k | m.start <= k < m.groupStart || m.groupEnd <= k < m.end ensures !IsLetter(s[k]) {
      assert k == m.start || k == m.end - 1 || IsSpace(s[k]);
    }
  }

  lemma WrappedIs(s: string, m: Match)
    requires Encloses(s, m)
    ensures Wrapped(s, m.start) == Some(m)
  {
    forall m': Match | m'.start == m.start && Encloses(s, m') ensures m' == m {
      SameMatch(s, m, m');
    }
  }

  lemma SameMatch(s: string, m: Match, m': Match)
    requires Encloses(s, m) && Encloses(s, m') && m.start == m'.start
    ensures m == m'
  {
    EnclosesCharacters(s, m);
    EnclosesCharacters(s, m');
  }

  /** The first alternative that matches at a position. */
  ghost function MatchAt(s: string, i: nat): (r: Option<Match>)
    requires i <= |s|
    ensures r.Some? ==> i == r.value.start <= r.value.groupStart < r.value.groupEnd <= r.value.end <= |s|
  {
    match Wrapped(s, i)
    case Some(m) => Some(m)
    case None =>
      match Bare(s, i, |s|)
      case Some(e) => Some(Match(i, i, e, e))
      case None => None
  }

  /** All matches from a position on, leftmost first and not overlapping. */
  ghost function FindAll(s: string, i: nat): seq<Match>
    requires i <= |s|
    decreases |s| - i
  {
    if i == |s| then []
    else
      match MatchAt(s, i)
      case Some(m) => [m] + FindAll(s, m.end)
      case None => FindAll(s, i + 1)
  }

  /** The same search with the bare alternative alone. */
  ghost function FindBare(s: string, i: nat): seq<Match>
    requires i <= |s|
    decreases |s| - i
  {
    if i == |s| then []
    else
      match Bare(s, i, |s|)
      case Some(e) => [Match(i, i, e, e)] + FindBare(s, e)
      case None => FindBare(s, i + 1)
  }

  function Unwrap(m: Match): Match { Match(m.groupStart, m.groupStart, m.groupEnd, m.groupEnd) }

  /** Positions that hold no letter start no placeholder, so the bare search walks past them. */
  lemma {:induction false} FindBareSkips(s: string, i: nat, j: nat)
    requires i <= j <= |s| && forall k {:trigger IsLetter(s[k])} :: i <= k < j ==> !IsLetter(s[k])
    ensures FindBare(s, i) == FindBare(s, j)
    decreases j - i
  {
    if i < j {
      if Bare(s, i, |s|).Some? {
        BareCharacters(s, i, |s|);
        assert false;
      }
      FindBareSkips(s, i + 1, j);
    }
  }

  lemma FindBareAcross(s: string, m: Match)
    requires Encloses(s, m)
    ensures FindBare(s, m.start) == [Unwrap(m)] + FindBare(s, m.end)
  {
    EnclosesCharacters(s, m);
    FindBareSkips(s, m.start, m.groupStart);
    FindBareSkips(s, m.groupEnd, m.end);
  }

  lemma FindAllFirst(s: string, i: nat)
    requires i < |s|
    ensures match MatchAt(s, i)
            case Some(m) => FindAll(s, i) == [m] + FindAll(s, m.end) && FindBare(s, i) == [Unwrap(m)] + FindBare(s, m.end)
            case None => FindAll(s, i) == FindAll(s, i + 1) && FindBare(s, i) == FindBare(s, i + 1)
  {
    if Wrapped(s, i).Some? {
      FindBareAcross(s, Wrapped(s, i).value);
    }
  }

  /** Wrappers change the extent of matches, never which placeholders are found. */
  lemma {:induction false} FindAllGroups(s: string, i: nat, ms: seq<Match>)
    requires i <= |s| && ms == FindAll(s, i)
    ensures Map(Unwrap, ms) == FindBare(s, i)
    decreases |s| - i
  {
    if i < |s| {
      FindAllFirst(s, i);
      match MatchAt(s, i)
      case None => FindAllGroups(s, i + 1, ms);
      case Some(m) =>
        FindAllGroups(s, m.end, ms[1..]);
        MapCons(Unwrap, m, ms[1..]);
    }
  }

  // ---------------------------------------------------------------------------------------------
  // Restoration.
  // ---------------------------------------------------------------------------------------------

  /** What one restoration pass yields. */
  datatype Restoration = Restoration(text: string, restored: nat, phantom: seq<string>)
  {
    function Then(next: Restoration): Restoration {
      Restoration(text + next.text, restored + next.restored, phantom + next.phantom)
    }
  }

  const NOTHING := Restoration("", 0, [])

  function Verbatim(s: string): Restoration { Restoration(s, 0, []) }

  lemma ThenAssoc(a: Restoration, b: Restoration, c: Restoration)
    ensures a.Then(b).Then(c) == a.Then(b.Then(c))
  {
    assert (a.text + b.text) + c.text == a.text + (b.text + c.text);
    assert (a.phantom + b.phantom) + c.phantom == a.phantom + (b.phantom + c.phantom);
  }

  lemma NothingThen(a: Restoration)
    ensures NOTHING.Then(a) == a && a.Then(NOTHING) == a
  {
  }

  function Token(s: string, m: Match): string
    requires m.groupStart <= m.groupEnd <= |s|
  {
    ToUpper(s[m.groupStart..m.groupEnd])
  }

  predicate InBounds(s: string, m: Match) {
    m.start <= m.groupStart <= m.groupEnd <= m.end <= |s|
  }

  /** Matches in order from the cursor on. */
  ghost predicate Spans(s: string, ms: seq<Match>, cursor: nat) {
    && cursor <= |s|
    && (ms != [] ==> cursor <= ms[0].start && InBounds(s, ms[0]) && Spans(s, ms[1..], ms[0].end))
  }

  predicate Resolves(reverse: map<string, string>, s: string, m: Match)
    requires InBounds(s, m)
  {
    Token(s, m) in reverse
  }

  /** A match whose placeholder resolves becomes its value; another stays and is recorded as a phantom. */
  function Swap(reverse: map<string, string>, s: string, m: Match): Restoration
    requires InBounds(s, m)
  {
    if Token(s, m) in reverse then Restoration(reverse[Token(s, m)], 1, [])
    else Restoration(s[m.start..m.end], 0, [Token(s, m)])
  }

  /** Replaces each match whose placeholder resolves, and leaves the others where they stand. */
  ghost function Restore(reverse: map<string, string>, s: string, ms: seq<Match>, cursor: nat): Restoration
    requires Spans(s, ms, cursor)
  {
    if ms == [] then Verbatim(s[cursor..])
    else Verbatim(s[cursor..ms[0].start]).Then(Swap(reverse, s, ms[0]).Then(Restore(reverse, s, ms[1..], ms[0].end)))
  }

  lemma {:induction false} FindAllSpans(s: string, i: nat, cursor: nat)
    requires cursor <= i <= |s|
    ensures Spans(s, FindAll(s, i), cursor)
    decreases |s| - i
  {
    if i < |s| {
      match MatchAt(s, i)
      case Some(m) => FindAllSpans(s, m.end, m.end);
      case None => FindAllSpans(s, i + 1, cursor);
    }
  }

  /** What Unredact computes over a whole text. */
  ghost function Unredacted(reverse: map<string, string>, s: string): Restoration {
    FindAllSpans(s, 0, 0);
    Restore(reverse, s, FindAll(s, 0), 0)
  }

  /** One placeholder standing alone. */
  function One(reverse: map<string, string>, p: string): Restoration {
    if ToUpper(p) in reverse then Restoration(reverse[ToUpper(p)], 1, []) else Restoration(p, 0, [ToUpper(p)])
  }

  /** Restoration of the placeholders in s[i..hi] alone, character by character: no wrapper is ever touched. */
  ghost function Plain(reverse: map<string, string>, s: string, i: nat, hi: nat): Restoration
    requires i <= hi <= |s|
    decreases hi - i
  {
    if i == hi then NOTHING
    else
      match Bare(s, i, hi)
      case None => Verbatim([s[i]]).Then(Plain(reverse, s, i + 1, hi))
      case Some(e) => One(reverse, s[i..e]).Then(Plain(reverse, s, e, hi))
  }

  lemma MoveCursor(reverse: map<string, string>, s: string, ms: seq<Match>, cursor: nat, next: nat)
    requires cursor <= next && Spans(s, ms, next)
    ensures Spans(s, ms, cursor)
    ensures Restore(reverse, s, ms, cursor) == Verbatim(s[cursor..next]).Then(Restore(reverse, s, ms, next))
  {
    if ms == [] {
      assert s[cursor..] == s[cursor..next] + s[next..];
    } else {
      assert s[cursor..ms[0].start] == s[cursor..next] + s[next..ms[0].start];
      var rest := Swap(reverse, s, ms[0]).Then(Restore(reverse, s, ms[1..], ms[0].end));
      ThenAssoc(Verbatim(s[cursor..next]), Verbatim(s[next..ms[0].start]), rest);
    }
  }

  /** The bare search followed by replacement is the character-by-character restoration. */
  lemma {:induction false} RestoreBareIsPlain(reverse: map<string, string>, s: string, i: nat)
    requires i <= |s|
    ensures Spans(s, FindBare(s, i), i)
    ensures Restore(reverse, s, FindBare(s, i), i) == Plain(reverse, s, i, |s|)
    decreases |s| - i
  {
    if i < |s| {
      match Bare(s, i, |s|)
      case None =>
        RestoreBareIsPlain(reverse, s, i + 1);
        MoveCursor(reverse, s, FindBare(s, i + 1), i, i + 1);
        assert s[i..i + 1] == [s[i]];
      case Some(e) =>
        RestoreBareIsPlain(reverse, s, e);
        RestoreOne(reverse, s, i, e, FindBare(s, e));
    }
  }

  lemma RestoreOne(reverse: map<string, string>, s: string, i: nat, e: nat, ms: seq<Match>)
    requires i < e <= |s| && Spans(s, ms, e)
    ensures Spans(s, [Match(i, i, e, e)] + ms, i)
    ensures Restore(reverse, s, [Match(i, i, e, e)] + ms, i) == One(reverse, s[i..e]).Then(Restore(reverse, s, ms, e))
  {
    assert ([Match(i, i, e, e)] + ms)[1..] == ms;
    assert s[i..i] == "";
    NothingThen(One(reverse, s[i..e]).Then(Restore(reverse, s, ms, e)));
  }

  // ---------------------------------------------------------------------------------------------
  // What the wrappers cost.
  // ---------------------------------------------------------------------------------------------

  /** How many wrapper and space characters disappear with the placeholders that resolve. */
  ghost function Swallowed(reverse: map<string, string>, s: string, ms: seq<Match>, cursor: nat): nat
    requires Spans(s, ms, cursor)
  {
    if ms == [] then 0
    else Cost(reverse, s, ms[0]) + Swallowed(reverse, s, ms[1..], ms[0].end)
  }

  function Cost(reverse: map<string, string>, s: string, m: Match): nat
    requires InBounds(s, m)
  {
    if Resolves(reverse, s, m) then (m.groupStart - m.start) + (m.end - m.groupEnd) else 0
  }

  /** The same placeholders, and the same text unless something was swallowed. */
  ghost predicate Narrows(wide: Restoration, narrow: Restoration, cost: nat) {
    && wide.restored == narrow.restored && wide.phantom == narrow.phantom
    && |narrow.text| == |wide.text| + cost
    && (cost == 0 ==> narrow == wide)
  }

  lemma SwapPieces(reverse: map<string, string>, s: string, m: Match, cursor: nat)
    requires cursor <= m.start && InBounds(s, m)
    ensures Narrows(Verbatim(s[cursor..m.start]).Then(Swap(reverse, s, m)),
                    Verbatim(s[cursor..m.groupStart]).Then(Swap(reverse, s, Unwrap(m)).Then(Verbatim(s[m.groupEnd..m.end]))),
                    Cost(reverse, s, m))
  {
    if Resolves(reverse, s, m) {
      if Cost(reverse, s, m) == 0 {
        assert s[m.groupEnd..m.end] == "";
      }
    } else {
      assert s[cursor..m.start] + s[m.start..m.end]
             == s[cursor..m.groupStart] + (s[m.groupStart..m.groupEnd] + s[m.groupEnd..m.end]);
    }
  }

  lemma NarrowsThen(w: Restoration, n: Restoration, c: nat, w': Restoration, n': Restoration, c': nat)
    requires Narrows(w, n, c) && Narrows(w', n', c')
    ensures Narrows(w.Then(w'), n.Then(n'), c + c')
  {
  }

  lemma {:induction false} UnwrappedRestore(reverse: map<string, string>, s: string, ms: seq<Match>, cursor: nat)
    requires Spans(s, ms, cursor)
    ensures Spans(s, Map(Unwrap, ms), cursor)
    ensures Narrows(Restore(reverse, s, ms, cursor), Restore(reverse, s, Map(Unwrap, ms), cursor),
                    Swallowed(reverse, s, ms, cursor))
  {
    if ms != [] {
      UnwrappedRestore(reverse, s, ms[1..], ms[0].end);
      UnwrapFirst(reverse, s, ms[0], ms[1..], Map(Unwrap, ms[1..]), cursor);
      MapCons(Unwrap, ms[0], ms[1..]);
      assert ms == [ms[0]] + ms[1..];
    }
  }

  lemma UnwrapFirst(reverse: map<string, string>, s: string, m: Match, rest: seq<Match>, rest': seq<Match>, cursor: nat)
    requires cursor <= m.start && InBounds(s, m) && Spans(s, rest, m.end) && Spans(s, rest', m.end)
    requires Narrows(Restore(reverse, s, rest, m.end), Restore(reverse, s, rest', m.end), Swallowed(reverse, s, rest, m.end))
    ensures Spans(s, [m] + rest, cursor) && Spans(s, [Unwrap(m)] + rest', cursor)
    ensures Narrows(Restore(reverse, s, [m] + rest, cursor), Restore(reverse, s, [Unwrap(m)] + rest', cursor),
                    Swallowed(reverse, s, [m] + rest, cursor))
  {
    assert ([m] + rest)[1..] == rest && ([Unwrap(m)] + rest')[1..] == rest';
    var tail, tail' := Restore(reverse, s, rest, m.end), Restore(reverse, s, rest', m.end);
    MoveCursor(reverse, s, rest', m.groupEnd, m.end);
    SwapPieces(reverse, s, m, cursor);
    var gap, swap, front := Verbatim(s[m.groupEnd..m.end]), Swap(reverse, s, Unwrap(m)), Verbatim(s[cursor..m.groupStart]);
    ThenAssoc(Verbatim(s[cursor..m.start]), Swap(reverse, s, m), tail);
    ThenAssoc(front, swap.Then(gap), tail');
    ThenAssoc(swap, gap, tail');
    NarrowsThen(Verbatim(s[cursor..m.start]).Then(Swap(reverse, s, m)), front.Then(swap.Then(gap)), Cost(reverse, s, m),
                tail, tail', Swallowed(reverse, s, rest, m.end));
  }

  /** Some placeholder that resolves was matched together with its wrappers. */
  ghost predicate LosesWrapper(reverse: map<string, string>, s: string, ms: seq<Match>) {
    exists m :: m in ms && InBounds(s, m) && Cost(reverse, s, m) > 0
  }

  lemma {:induction false} SwallowedZero(reverse: map<string, string>, s: string, ms: seq<Match>, cursor: nat)
    requires Spans(s, ms, cursor)
    ensures Swallowed(reverse, s, ms, cursor) == 0 <==> !LosesWrapper(reverse, s, ms)
  {
    if ms != [] {
      SwallowedZero(reverse, s, ms[1..], ms[0].end);
      assert ms == [ms[0]] + ms[1..];
      if LosesWrapper(reverse, s, ms[1..]) {
        var m :| m in ms[1..] && InBounds(s, m) && Cost(reverse, s, m) > 0;
        assert m in ms;
      }
    }
  }

  ghost predicate WrapperLost(reverse: map<string, string>, s: string) {
    LosesWrapper(reverse, s, FindAll(s, 0))
  }

  /** Unredact finds the same placeholders as the plain restoration, and gives the same text exactly when no
      placeholder that resolves stands inside wrapper characters. */
  lemma WrapperLaw(reverse: map<string, string>, s: string)
    ensures Unredacted(reverse, s).restored == Plain(reverse, s, 0, |s|).restored
    ensures Unredacted(reverse, s).phantom == Plain(reverse, s, 0, |s|).phantom
    ensures Unredacted(reverse, s).text == Plain(reverse, s, 0, |s|).text <==> !WrapperLost(reverse, s)
    ensures WrapperLost(reverse, s) ==> |Unredacted(reverse, s).text| < |Plain(reverse, s, 0, |s|).text|
  {
    FindAllSpans(s, 0, 0);
    FindAllGroups(s, 0, FindAll(s, 0));
    UnwrappedRestore(reverse, s, FindAll(s, 0), 0);
    SwallowedZero(reverse, s, FindAll(s, 0), 0);
    RestoreBareIsPlain(reverse, s, 0);
  }

  // ---------------------------------------------------------------------------------------------
  // Wrapped placeholders and the search.
  // ---------------------------------------------------------------------------------------------

  /** The search either starts with a wrapped match or does not run past the wrapped placeholder ahead. */
  lemma FirstMatch(s: string, i: nat, m: Match)
    requires i <= m.start && Encloses(s, m)
    ensures MatchAt(s, i).None? ==> i < m.start
    ensures MatchAt(s, i).Some? ==> var first := MatchAt(s, i).value; first.start < first.groupStart || first.end <= m.start
  {
    if Wrapped(s, i).None? {
      if i == m.start {
        WrappedIs(s, m);
      }
      if Bare(s, i, |s|).Some? {
        BareCharacters(s, i, |s|);
        assert m.start < Bare(s, i, |s|).value ==> IsIdentifier(s[m.start]);
      }
    }
  }

  /** A wrapped placeholder anywhere ahead means that the search finds a wrapped match. */
  lemma {:induction false} EnclosedIsFound(s: string, i: nat, m: Match)
    requires i <= m.start && Encloses(s, m)
    ensures exists w :: w in FindAll(s, i) && w.start < w.groupStart
    decreases |s| - i
  {
    FirstMatch(s, i, m);
    var at := MatchAt(s, i);
    if at.None? {
      EnclosedIsFound(s, i + 1, m);
    } else if at.value.start == at.value.groupStart {
      EnclosedIsFound(s, at.value.end, m);
      var w :| w in FindAll(s, at.value.end) && w.start < w.groupStart;
      assert w in FindAll(s, i);
    } else {
      assert at.value in FindAll(s, i);
    }
  }

  lemma {:induction false} FoundIsEnclosed(s: string, i: nat, w: Match)
    requires i <= |s| && w in FindAll(s, i)
    ensures InBounds(s, w) && (Encloses(s, w) || w == Unwrap(w))
    decreases |s| - i
  {
    var at := MatchAt(s, i);
    if at.None? {
      FoundIsEnclosed(s, i + 1, w);
    } else if w != at.value {
      FoundIsEnclosed(s, at.value.end, w);
    }
  }

  lemma {:induction false} NoPhantom(reverse: map<string, string>, s: string, ms: seq<Match>, cursor: nat, w: Match)
    requires Spans(s, ms, cursor) && Restore(reverse, s, ms, cursor).phantom == [] && w in ms
    ensures InBounds(s, w) && Resolves(reverse, s, w)
  {
    if w != ms[0] {
      NoPhantom(reverse, s, ms[1..], ms[0].end, w);
    }
  }

  /** Wrappers are lost only if some placeholder stands inside a pair of them; if nothing is a phantom, whenever one does. */
  lemma LostIff(reverse: map<string, string>, s: string)
    ensures WrapperLost(reverse, s) ==> exists m :: Encloses(s, m)
    ensures Unredacted(reverse, s).phantom == [] && (exists m :: Encloses(s, m)) ==> WrapperLost(reverse, s)
  {
    FindAllSpans(s, 0, 0);
    if WrapperLost(reverse, s) {
      var w :| w in FindAll(s, 0) && InBounds(s, w) && Cost(reverse, s, w) > 0;
      FoundIsEnclosed(s, 0, w);
    }
    if Unredacted(reverse, s).phantom == [] && exists m :: Encloses(s, m) {
      var m :| Encloses(s, m);
      EnclosedIsFound(s, 0, m);
      var w :| w in FindAll(s, 0) && w.start < w.groupStart;
      NoPhantom(reverse, s, FindAll(s, 0), 0, w);
    }
  }

  /** A text whose only marker is at its very start has no wrapped placeholder to lose. */
  lemma NothingToLose(reverse: map<string, string>, s: string)
    requires forall p: nat :: 0 < p ==> !At(s, p, MARKER)
    ensures Unredacted(reverse, s) == Plain(reverse, s, 0, |s|)
  {
    LostIff(reverse, s);
    forall m ensures !Encloses(s, m) {
      if Encloses(s, m) {
        BareCharacters(s, m.groupStart, |s|);
      }
    }
    WrapperLaw(reverse, s);
  }

  // ---------------------------------------------------------------------------------------------
  // Cutting a text.
  // ---------------------------------------------------------------------------------------------

  /** A placeholder of the text occupies s[a..b]. */
  ghost predicate PlaceholderAt(s: string, a: nat, b: nat) {
    a < b <= |s| && Bare(s, a, |s|) == Some(b)
  }

  /** No placeholder of the text reaches across position c. */
  ghost predicate SafeCut(s: string, c: nat) {
    c <= |s| && forall a: nat, b: nat {:trigger PlaceholderAt(s, a, b)} :: PlaceholderAt(s, a, b) && a < c ==> b <= c
  }

  /** At a safe cut the plain restoration of the rest of the text is that of the two parts. */
  lemma {:induction false} PlainSplits(reverse: map<string, string>, s: string, i: nat, c: nat)
    requires SafeCut(s, c) && i <= c
    ensures Plain(reverse, s, i, |s|) == Plain(reverse, s, i, c).Then(Plain(reverse, s, c, |s|))
    decreases c - i
  {
    if i == c {
      NothingThen(Plain(reverse, s, c, |s|));
    } else {
      if Bare(s, i, |s|).Some? {
        assert PlaceholderAt(s, i, Bare(s, i, |s|).value);
        BareTruncates(s, i, c, |s|);
      } else if Bare(s, i, c).Some? {
        BareExtends(s, i, c, |s|);
      }
      var e := if Bare(s, i, |s|).Some? then Bare(s, i, |s|).value else i + 1;
      var head := if Bare(s, i, |s|).Some? then One(reverse, s[i..e]) else Verbatim([s[i]]);
      PlainSplits(reverse, s, e, c);
      ThenAssoc(head, Plain(reverse, s, e, c), Plain(reverse, s, c, |s|));
    }
  }

  /** One step of the plain restoration, placeholder or character. */
  lemma PlainUnfolds(reverse: map<string, string>, s: string, i: nat, hi: nat, e: nat, head: Restoration)
    requires i < hi <= |s| && e == if Bare(s, i, hi).Some? then Bare(s, i, hi).value else i + 1
    requires head == if Bare(s, i, hi).Some? then One(reverse, s[i..e]) else Verbatim([s[i]])
    ensures Plain(reverse, s, i, hi) == head.Then(Plain(reverse, s, e, hi))
  {
  }

  /** How far the first step of the plain restoration of a range goes, and what it gives. */
  ghost function FirstStep(s: string, i: nat, hi: nat): (n: nat)
    requires i < hi <= |s|
    ensures 0 < n <= hi - i
  {
    if Bare(s, i, hi).Some? then Bare(s, i, hi).value - i else 1
  }

  ghost predicate FirstGives(reverse: map<string, string>, s: string, i: nat, hi: nat, n: nat, head: Restoration) {
    i < hi <= |s| && 0 < n <= hi - i && Plain(reverse, s, i, hi) == head.Then(Plain(reverse, s, i + n, hi))
  }

  /** Equal ranges take the same first step. */
  lemma FirstSame(reverse: map<string, string>, s: string, i: nat, hi: nat, s': string, i': nat, hi': nat)
    returns (n: nat, head: Restoration)
    requires i < hi <= |s| && i' < hi' <= |s'| && s[i..hi] == s'[i'..hi'] && hi - i == hi' - i'
    ensures FirstGives(reverse, s, i, hi, n, head) && FirstGives(reverse, s', i', hi', n, head)
    ensures s[i + n..hi] == s'[i' + n..hi']
  {
    BareSame(s, i, hi, s', i', hi');
    n := FirstStep(s, i, hi);
    RangeParts(s, i, hi, s', i', hi', n);
    head := if Bare(s, i, hi).Some? then One(reverse, s[i..i + n]) else Verbatim([s[i]]);
  }

  /** Equal ranges restore alike. */
  lemma {:induction false} PlainSame(reverse: map<string, string>, s: string, i: nat, hi: nat, s': string, i': nat, hi': nat)
    requires i <= hi <= |s| && i' <= hi' <= |s'| && s[i..hi] == s'[i'..hi']
    ensures Plain(reverse, s, i, hi) == Plain(reverse, s', i', hi')
    decreases hi - i
  {
    assert hi - i == |s[i..hi]| == |s'[i'..hi']| == hi' - i';
    if i < hi {
      var n, head := FirstSame(reverse, s, i, hi, s', i', hi');
      PlainSame(reverse, s, i + n, hi, s', i' + n, hi');
      BothGive(reverse, s, i, hi, s', i', hi', n, head, Plain(reverse, s, i + n, hi));
    }
  }

  lemma BothGive(reverse: map<string, string>, s: string, i: nat, hi: nat, s': string, i': nat, hi': nat, n: nat,
                 head: Restoration, tail: Restoration)
    requires FirstGives(reverse, s, i, hi, n, head) && FirstGives(reverse, s', i', hi', n, head)
    requires Plain(reverse, s, i + n, hi) == tail && Plain(reverse, s', i' + n, hi') == tail
    ensures Plain(reverse, s, i, hi) == Plain(reverse, s', i', hi')
  {
  }

  lemma RangeParts(s: string, i: nat, hi: nat, s': string, i': nat, hi': nat, n: nat)
    requires i < hi <= |s| && i' < hi' <= |s'| && s[i..hi] == s'[i'..hi'] && 0 < n <= hi - i == hi' - i'
    ensures s[i..i + n] == s'[i'..i' + n] && s[i + n..hi] == s'[i' + n..hi'] && s[i] == s'[i']
  {
    assert s[i..hi][..n] == s[i..i + n] && s'[i'..hi'][..n] == s'[i'..i' + n];
    assert s[i..hi][n..] == s[i + n..hi] && s'[i'..hi'][n..] == s'[i' + n..hi'];
    assert s[i] == s[i..hi][0] && s'[i'] == s'[i'..hi'][0];
  }

  /** Text without a marker is restored as it is. */
  lemma {:induction false} PlainSkips(reverse: map<string, string>, s: string, i: nat, j: nat, hi: nat)
    requires i <= j <= hi <= |s| && forall p: nat {:trigger At(s, p, MARKER)} :: i <= p < j ==> !At(s, p, MARKER)
    ensures Plain(reverse, s, i, hi) == Verbatim(s[i..j]).Then(Plain(reverse, s, j, hi))
    decreases j - i
  {
    if i == j {
      NothingThen(Plain(reverse, s, j, hi));
    } else {
      if Bare(s, i, hi).Some? {
        BareCharacters(s, i, hi);
        assert false;
      }
      PlainSkips(reverse, s, i + 1, j, hi);
      ThenAssoc(Verbatim([s[i]]), Verbatim(s[i + 1..j]), Plain(reverse, s, j, hi));
      assert [s[i]] + s[i + 1..j] == s[i..j];
    }
  }

  // ---------------------------------------------------------------------------------------------
  // Running the search.
  // ---------------------------------------------------------------------------------------------

  /** The run of type characters decides: it must end in an underscore with a digit after it. */
  lemma RunDecides(s: string, i: nat, run: nat)
    requires i + 11 + run <= |s| && forall k {:trigger IsTypeChar(s[k])} :: i + 11 <= k < i + 11 + run ==> IsTypeChar(s[k])
    requires i + 11 + run < |s| ==> !IsTypeChar(s[i + 11 + run])
    requires run < 2 || s[i + 10 + run] != '_' || i + 11 + run == |s| || !IsDigit(s[i + 11 + run])
    ensures Bare(s, i, |s|) == None
  {
    forall t: nat, d: nat | Language(s, i, |s|, t, d) ensures t + 1 == run {
      assert IsDigit(s[i + 12 + t]) && !IsTypeChar(s[i + 12 + t]);
      assert run <= t + 1;
      assert forall k {:trigger IsTypeChar(s[k])} :: i + 11 <= k < i + 12 + t ==> IsTypeChar(s[k]);
    }
  }

  method ScanBare(s: string, i: nat) returns (r: Option<nat>)
    requires i <= |s|
    ensures r == Bare(s, i, |s|)
  {
    if |s| < i + 11 {
      return None;
    }
    for j := 0 to 11
      invariant forall k {:trigger Upper(s[k])} :: i <= k < i + j ==> Upper(s[k]) == MARKER[k - i]
    {
      if Upper(s[i + j]) != MARKER[j] {
        return None;
      }
    }
    var k := i + 11;
    while k < |s| && IsTypeChar(s[k])
      invariant i + 11 <= k <= |s| && forall j {:trigger IsTypeChar(s[j])} :: i + 11 <= j < k ==> IsTypeChar(s[j])
    {
      k := k + 1;
    }
    if k < i + 13 || s[k - 1] != '_' || k == |s| || !IsDigit(s[k]) {
      RunDecides(s, i, k - i - 11);
      return None;
    }
    var e := k + 1;
    while e < |s| && IsDigit(s[e])
      invariant k < e <= |s| && forall j {:trigger IsDigit(s[j])} :: k <= j < e ==> IsDigit(s[j])
    {
      e := e + 1;
    }
    BareIs(s, i, |s|, k - i - 12, e - k);
    return Some(e);
  }

  method SkipSpaces(s: string, i: nat) returns (j: nat)
    requires i <= |s|
    ensures AllSpaces(s, i, j) && (j < |s| ==> !IsSpace(s[j]))
  {
    j := i;
    while j < |s| && IsSpace(s[j])
      invariant AllSpaces(s, i, j)
    {
      j := j + 1;
    }
  }

  /** A wrapped placeholder begins and ends where the spaces inside its wrappers stop. */
  lemma WrapperEdges(s: string, m: Match, g: nat, c: nat)
    requires Encloses(s, m) && m.start < g && AllSpaces(s, m.start + 1, g) && (g < |s| ==> !IsSpace(s[g]))
    ensures m.groupStart == g
    ensures AllSpaces(s, m.groupEnd, c) && (c < |s| ==> !IsSpace(s[c])) ==> m.end == c + 1
  {
    EnclosesCharacters(s, m);
  }

  lemma NotWrapped(s: string, i: nat, g: nat, c: nat)
    requires i < g && AllSpaces(s, i + 1, g) && (g < |s| ==> !IsSpace(s[g]))
    requires Bare(s, g, |s|).Some? ==>
               AllSpaces(s, Bare(s, g, |s|).value, c) && (c < |s| ==> !IsSpace(s[c]) && !IsClose(s[c]))
    ensures Wrapped(s, i) == None
  {
    if m: Match :| m.start == i && Encloses(s, m) {
      WrapperEdges(s, m, g, c);
    }
  }

  method ScanWrapped(s: string, i: nat) returns (r: Option<Match>)
    requires i < |s|
    ensures r == Wrapped(s, i)
  {
    if !IsOpen(s[i]) {
      return None;
    }
    var g := SkipSpaces(s, i + 1);
    var e := ScanBare(s, g);
    if e == None {
      NotWrapped(s, i, g, g);
      return None;
    }
    var c := SkipSpaces(s, e.value);
    if c < |s| && IsClose(s[c]) {
      WrappedIs(s, Match(i, g, e.value, c + 1));
      return Some(Match(i, g, e.value, c + 1));
    }
    NotWrapped(s, i, g, c);
    return None;
  }

  method ScanAt(s: string, i: nat) returns (r: Option<Match>)
    requires i < |s|
    ensures r == MatchAt(s, i)
  {
    r := ScanWrapped(s, i);
    if r == None {
      var e := ScanBare(s, i);
      if e.Some? {
        r := Some(Match(i, i, e.value, e.value));
      }
    }
  }

  /** These are all the matches of the text but those from a position on. */
  ghost predicate FoundUpTo(s: string, i: nat, found: seq<Match>, all: seq<Match>) {
    i <= |s| && all == found + FindAll(s, i)
  }

  lemma FindNext(s: string, i: nat, at: Option<Match>, found: seq<Match>, all: seq<Match>)
    requires i < |s| && at == MatchAt(s, i) && FoundUpTo(s, i, found, all)
    ensures at.Some? ==> i < at.value.end && FoundUpTo(s, at.value.end, found + [at.value], all)
    ensures at.None? ==> FoundUpTo(s, i + 1, found, all)
  {
  }

  lemma FindEnd(s: string, found: seq<Match>, all: seq<Match>)
    requires FoundUpTo(s, |s|, found, all)
    ensures all == found
  {
  }

  /** The first match at a position, or none, and where to look next. */
  method NextMatch(s: string, i: nat, ghost found: seq<Match>, ghost all: seq<Match>) returns (m: Option<Match>, next: nat)
    requires i < |s| && FoundUpTo(s, i, found, all)
    ensures i < next <= |s| && FoundUpTo(s, next, if m.Some? then found + [m.value] else found, all)
  {
    m := ScanAt(s, i);
    FindNext(s, i, m, found, all);
    next := if m.Some? then m.value.end else i + 1;
  }

  /** The search over a whole text. */
  method FindMatches(s: string) returns (ms: seq<Match>)
    ensures ms == FindAll(s, 0)
  {
    ms := [];
    var i: nat := 0;
    ghost var all := FindAll(s, 0);
    while i < |s|
      invariant FoundUpTo(s, i, ms, all)
      decreases |s| - i
    {
      var m, next := NextMatch(s, i, ms, all);
      if m.Some? {
        ms := ms + [m.value];
      }
      i := next;
    }
    FindEnd(s, ms, all);
  }

  lemma RestoreNext(reverse: map<string, string>, s: string, ms: seq<Match>, last: nat, acc: Restoration, whole: Restoration)
    requires ms != [] && Spans(s, ms, last) && whole == acc.Then(Restore(reverse, s, ms, last))
    ensures var m := ms[0];
            && last <= m.start && InBounds(s, m) && Spans(s, ms[1..], m.end)
            && whole == acc.Then(Verbatim(s[last..m.start])).Then(Swap(reverse, s, m)).Then(Restore(reverse, s, ms[1..], m.end))
  {
    var m := ms[0];
    var gap, rest := Verbatim(s[last..m.start]), Restore(reverse, s, ms[1..], m.end);
    ThenAssoc(acc, gap, Swap(reverse, s, m).Then(rest));
    ThenAssoc(acc.Then(gap), Swap(reverse, s, m), rest);
  }

  lemma SwapNext(reverse: map<string, string>, s: string, m: Match, out: string, restored: nat, phantom: seq<string>,
                 cursor: nat, last: nat)
    requires cursor <= last <= m.start && InBounds(s, m)
    ensures Restoration(out + s[cursor..last], restored, phantom).Then(Verbatim(s[last..m.start])).Then(Swap(reverse, s, m)) ==
            if Token(s, m) in reverse
            then Restoration((out + s[cursor..m.start] + reverse[Token(s, m)]) + s[m.end..m.end], restored + 1, phantom)
            else Restoration(out + s[cursor..m.end], restored, phantom + [Token(s, m)])
  {
    assert s[cursor..m.start] + s[m.start..m.end] == s[cursor..m.end];
    assert s[cursor..last] + s[last..m.start] == s[cursor..m.start];
    assert (out + s[cursor..last]) + s[last..m.start] == out + s[cursor..m.start];
    assert s[m.end..m.end] == "";
    assert (out + s[cursor..m.start]) + s[m.start..m.end] == out + (s[cursor..m.start] + s[m.start..m.end]);
  }

  /** The restoration is what has been written, the text not yet copied up to last, and the restoration of the rest. */
  ghost predicate Progress(reverse: map<string, string>, s: string, whole: Restoration, out: string, restored: nat,
                           phantom: seq<string>, cursor: nat, ms: seq<Match>, last: nat) {
    && cursor <= last <= |s| && Spans(s, ms, last)
    && whole == Restoration(out + s[cursor..last], restored, phantom).Then(Restore(reverse, s, ms, last))
  }

  lemma ProgressNext(reverse: map<string, string>, s: string, whole: Restoration, out: string, restored: nat,
                     phantom: seq<string>, cursor: nat, ms: seq<Match>, last: nat)
    requires ms != [] && Progress(reverse, s, whole, out, restored, phantom, cursor, ms, last)
    ensures cursor <= ms[0].start && InBounds(s, ms[0])
    ensures var m, token := ms[0], Token(s, ms[0]);
            if token in reverse
            then Progress(reverse, s, whole, out + s[cursor..m.start] + reverse[token], restored + 1, phantom, m.end, ms[1..], m.end)
            else Progress(reverse, s, whole, out, restored, phantom + [token], cursor, ms[1..], m.end)
  {
    RestoreNext(reverse, s, ms, last, Restoration(out + s[cursor..last], restored, phantom), whole);
    SwapNext(reverse, s, ms[0], out, restored, phantom, cursor, last);
  }

  lemma ProgressStart(reverse: map<string, string>, s: string)
    ensures Progress(reverse, s, Unredacted(reverse, s), "", 0, [], 0, FindAll(s, 0), 0)
  {
    FindAllSpans(s, 0, 0);
    NothingThen(Unredacted(reverse, s));
    assert "" + s[0..0] == "";
  }

  lemma ProgressEnd(reverse: map<string, string>, s: string, whole: Restoration, out: string, restored: nat,
                    phantom: seq<string>, cursor: nat, last: nat)
    requires Progress(reverse, s, whole, out, restored, phantom, cursor, [], last)
    ensures whole == Restoration(out + s[cursor..], restored, phantom)
  {
    assert (out + s[cursor..last]) + s[last..] == out + s[cursor..];
  }

  /** Copies the text, replacing what resolves; a placeholder that does not is copied along and recorded. */
  method Unredact(reverse: map<string, string>, s: string) returns (r: Restoration)
    ensures r == Unredacted(reverse, s)
  {
    var ms := FindMatches(s);
    ProgressStart(reverse, s);
    var out, restored, phantom, cursor: nat := "", 0, [], 0;
    ghost var last: nat, whole := 0, Unredacted(reverse, s);
    while ms != []
      invariant cursor <= |s| && Progress(reverse, s, whole, out, restored, phantom, cursor, ms, last)
    {
      ProgressNext(reverse, s, whole, out, restored, phantom, cursor, ms, last);
      var m := ms[0];
      var token := Token(s, m);
      if token in reverse {
        out := out + s[cursor..m.start] + reverse[token];
        cursor := m.end;
        restored := restored + 1;
      } else {
        phantom := phantom + [token];
      }
      ms, last := ms[1..], m.end;
    }
    ProgressEnd(reverse, s, whole, out, restored, phantom, cursor, last);
    r := Restoration(out + s[cursor..], restored, phantom);
  }
}
