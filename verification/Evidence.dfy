/** The evidence chain (pii/verify/evidence.go, backward.go, wrap.go): boundaries that only widen, verdicts, and the
    resolution of overlapping candidates by verdict. */
module Evidence {
  import opened Wrappers
  import opened Sequences
  import opened Sorting
  import opened Overlaps
  import opened Utf8
  import Redactor
  import Vault

  // ---------------------------------------------------------------------------------------------
  // Rules.
  // ---------------------------------------------------------------------------------------------

  /** The Unicode classes that the walks ask about. */
  datatype Scripts = Scripts(han: int -> bool, digit: int -> bool, letter: int -> bool, latin: int -> bool, upper: int -> bool)

  datatype Extension = Extension(suffixes: seq<Bytes>, stop: int -> bool, maxRunes: int)

  datatype Backward = Backward(anchors: seq<Bytes>, stop: int -> bool, stopWord: Bytes -> bool, maxRunes: int,
                               administrative: seq<Bytes>, industry: seq<Bytes>, minScore: real)

  datatype Requirement = Must | MustNot | Should

  /** A contextual cue, with the decision whether it is found around an entity. */
  datatype Cue = Cue(requirement: Requirement, hit: (Bytes, Entity) -> bool, weight: real)

  datatype Chain = Chain(extension: Option<Extension>, backward: Option<Backward>, shapes: seq<string -> bool>, cues: seq<Cue>,
                         threshold: real, rejectUnverified: bool, rejectBelow: real)

  datatype Verdict = Keep | Unknown | Drop

  datatype Decision = Decision(verdict: Verdict, entity: Entity, score: real)

  function Chars(b: Bytes): string { seq(|b|, i requires 0 <= i < |b| => b[i] as char) }

  function Slice(text: Bytes, start: int, end: int): string
    requires 0 <= start <= end <= |text|
  {
    Chars(text[start..end])
  }

  predicate EndsWith(s: Bytes, suffix: Bytes) { |suffix| <= |s| && s[|s| - |suffix|..] == suffix }

  predicate EndsWithAny(s: Bytes, suffixes: seq<Bytes>) { exists i :: 0 <= i < |suffixes| && EndsWith(s, suffixes[i]) }

  predicate PartAt(s: Bytes, part: Bytes, i: nat) { i + |part| <= |s| && s[i..i + |part|] == part }

  predicate Contains(s: Bytes, part: Bytes) { exists i: nat :: i <= |s| && PartAt(s, part, i) }

  predicate ContainsAny(s: Bytes, parts: seq<Bytes>) { exists i :: 0 <= i < |parts| && Contains(s, parts[i]) }

  ghost predicate OnBoundary(text: Bytes, p: int) { 0 <= p <= |text| && Boundary(text, 0, |text|, p) }

  // ---------------------------------------------------------------------------------------------
  // Widening to the right.
  // ---------------------------------------------------------------------------------------------

  const SPACE := 0x20

  /** The code point may continue an address: not a stop character, and Han, a digit or a space. */
  predicate Continues(rule: Extension, scripts: Scripts, code: int) {
    code != REPLACEMENT && !rule.stop(code) && (scripts.han(code) || scripts.digit(code) || code == SPACE)
  }

  /** Where n continuing code points from p on lead to. */
  function After(text: Bytes, p: nat, n: nat, rule: Extension, scripts: Scripts): (r: Option<nat>)
    requires p <= |text|
    ensures r.Some? ==> p <= r.value <= |text|
    decreases n
  {
    if n == 0 then Some(p)
    else if p < |text| && Continues(rule, scripts, Decode(text, p, |text|).code) then
      After(text, p + Decode(text, p, |text|).size, n - 1, rule, scripts)
    else None
  }

  lemma {:induction false} AfterNext(text: Bytes, p: nat, n: nat, rule: Extension, scripts: Scripts)
    requires p <= |text|
    ensures After(text, p, n + 1, rule, scripts) ==
            match After(text, p, n, rule, scripts)
            case None => None
            case Some(q) => if q < |text| && Continues(rule, scripts, Decode(text, q, |text|).code)
                            then Some(q + Decode(text, q, |text|).size) else None
    decreases n
  {
    if n > 0 && p < |text| && Continues(rule, scripts, Decode(text, p, |text|).code) {
      AfterNext(text, p + Decode(text, p, |text|).size, n - 1, rule, scripts);
    }
  }

  lemma {:induction false} AfterNone(text: Bytes, p: nat, n: nat, m: nat, rule: Extension, scripts: Scripts)
    requires p <= |text| && n <= m && After(text, p, n, rule, scripts) == None
    ensures After(text, p, m, rule, scripts) == None
    decreases m - n
  {
    if n < m {
      AfterNone(text, p, n, m - 1, rule, scripts);
      AfterNext(text, p, m - 1, rule, scripts);
    }
  }

  /** The end may be widened to pos: some continuing code points lead there, and a feature word ends there. */
  ghost predicate CanEnd(text: Bytes, start: nat, end: nat, n: nat, pos: nat, rule: Extension, scripts: Scripts)
    requires start <= end <= |text|
  {
    n >= 1 && After(text, end, n, rule, scripts) == Some(pos) && EndsWithAny(text[start..pos], rule.suffixes)
  }

  function Limit(given: int, standard: nat): nat { if given <= 0 then standard else given }

  /** Of the places reached by at most n code points, the last one where the end may be; the end itself if there is none. */
  ghost predicate Furthest(text: Bytes, start: nat, end: nat, n: nat, last: nat, rule: Extension, scripts: Scripts)
    requires start <= end <= |text|
  {
    && (last == end || exists k: nat :: k <= n && CanEnd(text, start, end, k, last, rule, scripts))
    && forall k: nat, q: nat {:trigger CanEnd(text, start, end, k, q, rule, scripts)} ::
         k <= n && CanEnd(text, start, end, k, q, rule, scripts) ==> q <= last
  }

  lemma FurthestNext(text: Bytes, start: nat, end: nat, n: nat, last: nat, pos: nat, rule: Extension, scripts: Scripts)
    requires start <= end <= last <= pos <= |text| && Furthest(text, start, end, n, last, rule, scripts)
    requires After(text, end, n + 1, rule, scripts) == Some(pos)
    ensures Furthest(text, start, end, n + 1, if EndsWithAny(text[start..pos], rule.suffixes) then pos else last, rule, scripts)
  {
    if EndsWithAny(text[start..pos], rule.suffixes) {
      assert CanEnd(text, start, end, n + 1, pos, rule, scripts);
    }
  }

  /** Where no further code point continues, nothing is added by trying more of them. */
  lemma FurthestEnd(text: Bytes, start: nat, end: nat, n: nat, max: nat, last: nat, rule: Extension, scripts: Scripts)
    requires start <= end <= |text| && n <= max && Furthest(text, start, end, n, last, rule, scripts)
    requires n == max || After(text, end, n + 1, rule, scripts) == None
    ensures Furthest(text, start, end, max, last, rule, scripts)
  {
    forall k: nat, q: nat | k <= max && CanEnd(text, start, end, k, q, rule, scripts) ensures q <= last {
      if k > n {
        AfterNone(text, end, n + 1, k, rule, scripts);
      }
    }
  }

  /** Widens the end to the furthest place where it may be, and not at all if there is none. */
  method ExtendBoundary(text: Bytes, start: nat, end: nat, rule: Extension, scripts: Scripts) returns (last: nat)
    requires start <= end <= |text|
    ensures end <= last <= |text| && (OnBoundary(text, end) ==> OnBoundary(text, last))
    ensures Furthest(text, start, end, Limit(rule.maxRunes, 20), last, rule, scripts)
  {
    last := end;
    var pos: nat, runes: nat, max := end, 0, Limit(rule.maxRunes, 20);
    while runes < max && pos < |text| && Continues(rule, scripts, Decode(text, pos, |text|).code)
      invariant runes <= max && end <= last <= pos <= |text| && After(text, end, runes, rule, scripts) == Some(pos)
      invariant OnBoundary(text, end) ==> OnBoundary(text, pos) && OnBoundary(text, last)
      invariant Furthest(text, start, end, runes, last, rule, scripts)
    {
      AfterNext(text, end, runes, rule, scripts);
      if OnBoundary(text, end) {
        NextBoundary(text, pos);
      }
      pos := pos + Decode(text, pos, |text|).size;
      FurthestNext(text, start, end, runes, last, pos, rule, scripts);
      runes := runes + 1;
      if EndsWithAny(text[start..pos], rule.suffixes) {
        last := pos;
      }
    }
    AfterNext(text, end, runes, rule, scripts);
    FurthestEnd(text, start, end, runes, max, last, rule, scripts);
  }

  lemma NextBoundary(text: Bytes, p: nat)
    requires OnBoundary(text, p) && p < |text|
    ensures OnBoundary(text, p + Decode(text, p, |text|).size)
  {
    BoundaryTail(text, 0, |text|, p, p + Decode(text, p, |text|).size);
  }

  // ---------------------------------------------------------------------------------------------
  // Widening to the left.
  // ---------------------------------------------------------------------------------------------

  /** The code point may belong to the head of an organisation's name. */
  predicate Heads(rule: Backward, scripts: Scripts, code: int) {
    code != REPLACEMENT && !rule.stop(code) && (scripts.han(code) || scripts.digit(code) || scripts.letter(code))
  }

  /** Where n such code points before p lead back to. */
  function Before(text: Bytes, p: nat, n: nat, rule: Backward, scripts: Scripts): (r: Option<nat>)
    requires p <= |text|
    ensures r.Some? ==> r.value <= p
    decreases n
  {
    if n == 0 then Some(p)
    else if p > 0 && Heads(rule, scripts, DecodeLast(text, p).code) then
      Before(text, p - DecodeLast(text, p).size, n - 1, rule, scripts)
    else None
  }

  lemma {:induction false} BeforeNext(text: Bytes, p: nat, n: nat, rule: Backward, scripts: Scripts)
    requires p <= |text|
    ensures Before(text, p, n + 1, rule, scripts) ==
            match Before(text, p, n, rule, scripts)
            case None => None
            case Some(q) => if q > 0 && Heads(rule, scripts, DecodeLast(text, q).code) then Some(q - DecodeLast(text, q).size) else None
    decreases n
  {
    if n > 0 && p > 0 && Heads(rule, scripts, DecodeLast(text, p).code) {
      BeforeNext(text, p - DecodeLast(text, p).size, n - 1, rule, scripts);
    }
  }

  /** Going left from a position ends here: it is as far as the code points allow, or as many as are allowed. */
  ghost predicate IsSlide(text: Bytes, from: nat, slid: nat, max: nat, rule: Backward, scripts: Scripts)
    requires from <= |text|
  {
    slid <= from && exists n: nat ::
      n <= max && Before(text, from, n, rule, scripts) == Some(slid)
      && (n < max ==> Before(text, from, n + 1, rule, scripts) == None)
  }

  /** Slides left as far as the code points allow, up to a number of them. */
  method SlideLeft(text: Bytes, from: nat, max: nat, rule: Backward, scripts: Scripts) returns (start: nat)
    requires from <= |text|
    ensures IsSlide(text, from, start, max, rule, scripts)
    ensures Valid(text, 0, |text|) && OnBoundary(text, from) ==> OnBoundary(text, start)
  {
    start := from;
    ghost var n: nat := 0;
    var runes: nat := 0;
    while runes < max && start > 0 && Heads(rule, scripts, DecodeLast(text, start).code)
      invariant n == runes <= max && start <= from && Before(text, from, n, rule, scripts) == Some(start)
      invariant Valid(text, 0, |text|) && OnBoundary(text, from) ==> OnBoundary(text, start)
    {
      BeforeNext(text, from, n, rule, scripts);
      if Valid(text, 0, |text|) && OnBoundary(text, from) {
        DecodeLastIs(text, start);
      }
      start := start - DecodeLast(text, start).size;
      runes, n := runes + 1, n + 1;
    }
    BeforeNext(text, from, n, rule, scripts);
  }

  function RuneCount(text: Bytes, p: nat, hi: nat): nat
    requires p <= hi <= |text|
    decreases hi - p
  {
    if p == hi then 0 else 1 + RuneCount(text, p + Decode(text, p, hi).size, hi)
  }

  /** The score of a head: an administrative name in it, an industry in the whole, and a plausible length. */
  function HeadScore(text: Bytes, start: nat, from: nat, end: nat, rule: Backward): real
    requires start <= from <= end <= |text|
  {
    var n := RuneCount(text, start, from);
    (if ContainsAny(text[start..from], rule.administrative) then 0.6 else 0.0)
    + (if ContainsAny(text[start..end], rule.industry) then 0.5 else 0.0)
    + (if 1 <= n <= 8 then 0.3 else 0.0)
  }

  predicate IsWordChar(scripts: Scripts, code: int) {
    code != REPLACEMENT && (scripts.letter(code) || scripts.digit(code) || code == '.' as int || code == '&' as int || code == '-' as int)
  }

  /** A space stands before the entity and a Latin letter before that. */
  predicate IsLatinBoundary(text: Bytes, start: nat, scripts: Scripts)
    requires start <= |text|
  {
    start > 0 && DecodeLast(text, start).code == SPACE && start > 1 && scripts.latin(DecodeLast(text, start - 1).code)
  }

  /** A capitalised word that is no stop word, from a to the space at b. */
  ghost predicate NameWord(text: Bytes, a: nat, b: nat, rule: Backward, scripts: Scripts) {
    && a < b < |text| && text[b] == SPACE && scripts.upper(Decode(text, a, b).code) && !rule.stopWord(text[a..b])
  }

  /** At most k such words, each with its space, lie between two positions. */
  ghost predicate NameWords(text: Bytes, a: nat, b: nat, k: nat, rule: Backward, scripts: Scripts)
    decreases k
  {
    a == b || (k > 0 && exists m: nat :: NameWord(text, a, m, rule, scripts) && NameWords(text, m + 1, b, k - 1, rule, scripts))
  }

  lemma {:induction false} MoreWords(text: Bytes, a: nat, b: nat, k: nat, rule: Backward, scripts: Scripts)
    requires NameWords(text, a, b, k, rule, scripts)
    ensures NameWords(text, a, b, k + 1, rule, scripts)
    decreases k
  {
    if a != b {
      var m: nat :| NameWord(text, a, m, rule, scripts) && NameWords(text, m + 1, b, k - 1, rule, scripts);
      MoreWords(text, m + 1, b, k - 1, rule, scripts);
    }
  }

  /** Where the word that ends at p begins: as far back as word characters go. */
  function WordFrom(text: Bytes, p: nat, scripts: Scripts): (a: nat)
    requires p <= |text|
    ensures a <= p
    decreases p
  {
    if p > 0 && IsWordChar(scripts, DecodeLast(text, p).code) then WordFrom(text, p - DecodeLast(text, p).size, scripts) else p
  }

  /** A code point that can be part of a word. */
  ghost predicate InWord(scripts: Scripts, c: int) {
    c != 0xFFFD && (c in {'.' as int, '&' as int, '-' as int} || scripts.letter(c) || scripts.digit(c))
  }

  /** No other code point begins within one. */
  lemma NothingBetween(text: Bytes, p: nat, q: nat)
    requires Valid(text, 0, |text|) && OnBoundary(text, p) && OnBoundary(text, q) && 0 < p
    ensures p <= |text| && q < p ==> q <= p - DecodeLast(text, p).size
  {
    DecodeLastIs(text, p);
    var s := p - DecodeLast(text, p).size;
    if s < q < p {
      BoundaryTail(text, 0, |text|, s, q);
      BoundaryBounds(text, p, |text|, q);
    }
  }

  /** The word is whole: letters, digits and the three signs up to the position, and none before them. */
  lemma {:induction false} WordIsWhole(text: Bytes, p: nat, scripts: Scripts)
    requires Valid(text, 0, |text|) && p <= |text| && OnBoundary(text, p)
    ensures var a := WordFrom(text, p, scripts);
            && (a > 0 ==> !InWord(scripts, DecodeLast(text, a).code))
            && forall q: nat {:trigger OnBoundary(text, q)} :: a < q <= p && OnBoundary(text, q) ==> InWord(scripts, DecodeLast(text, q).code)
    decreases p
  {
    if p > 0 && IsWordChar(scripts, DecodeLast(text, p).code) {
      DecodeLastIs(text, p);
      var s := p - DecodeLast(text, p).size;
      WordIsWhole(text, s, scripts);
      forall q: nat | WordFrom(text, p, scripts) < q <= p && OnBoundary(text, q) ensures InWord(scripts, DecodeLast(text, q).code) {
        NothingBetween(text, p, q);
      }
    }
  }

  method WordStart(text: Bytes, wordEnd: nat, scripts: Scripts) returns (start: nat)
    requires wordEnd <= |text|
    ensures start == WordFrom(text, wordEnd, scripts)
    ensures Valid(text, 0, |text|) && OnBoundary(text, wordEnd) ==> OnBoundary(text, start)
  {
    start := wordEnd;
    while start > 0 && IsWordChar(scripts, DecodeLast(text, start).code)
      invariant start <= wordEnd && WordFrom(text, start, scripts) == WordFrom(text, wordEnd, scripts)
      invariant Valid(text, 0, |text|) && OnBoundary(text, wordEnd) ==> OnBoundary(text, start)
    {
      if Valid(text, 0, |text|) && OnBoundary(text, wordEnd) {
        DecodeLastIs(text, start);
      }
      start := start - DecodeLast(text, start).size;
    }
  }

  /** The capitalised word before a position, if one stands there with its space. */
  function WordBefore(text: Bytes, p: nat, rule: Backward, scripts: Scripts): (r: Option<nat>)
    requires p <= |text|
    ensures r.Some? ==> p > 0 && NameWord(text, r.value, p - 1, rule, scripts)
  {
    if p == 0 || text[p - 1] != SPACE then None
    else
      var a := WordFrom(text, p - 1, scripts);
      if a == p - 1 || !scripts.upper(Decode(text, a, p - 1).code) || rule.stopWord(text[a..p - 1]) then None else Some(a)
  }

  /** Where k such words lead back to. */
  function WordsBefore(text: Bytes, p: nat, k: nat, rule: Backward, scripts: Scripts): (r: Option<nat>)
    requires p <= |text|
    ensures r.Some? ==> r.value <= p
  {
    if k == 0 then Some(p)
    else
      match WordsBefore(text, p, k - 1, rule, scripts)
      case None => None
      case Some(q) => WordBefore(text, q, rule, scripts)
  }

  /** After k words the walk ends: it has six, or is long enough, or there is no further word; and not before. */
  ghost predicate IsLatinHead(text: Bytes, from: nat, start: nat, k: nat, max: nat, rule: Backward, scripts: Scripts)
    requires from <= |text|
  {
    && k <= 6 && WordsBefore(text, from, k, rule, scripts) == Some(start)
    && (k == 6 || (k > 0 && (from - start) / 3 > max) || WordBefore(text, start, rule, scripts) == None)
    && WordsShort(text, from, k, max, rule, scripts)
  }

  /** Fewer than k words are not long enough. */
  ghost predicate WordsShort(text: Bytes, from: nat, k: nat, max: nat, rule: Backward, scripts: Scripts)
    requires from <= |text|
  {
    forall j: nat {:trigger WordsBefore(text, from, j, rule, scripts)} ::
      0 < j < k && WordsBefore(text, from, j, rule, scripts).Some? ==> (from - WordsBefore(text, from, j, rule, scripts).value) / 3 <= max
  }

  /** Reads the word before a position, over the single space that must stand there. */
  method ReadWord(text: Bytes, p: nat, rule: Backward, scripts: Scripts) returns (r: Option<nat>)
    requires p <= |text|
    ensures r == WordBefore(text, p, rule, scripts)
    ensures r.Some? && Valid(text, 0, |text|) && OnBoundary(text, p) ==> OnBoundary(text, r.value)
  {
    if p == 0 || text[p - 1] != SPACE {
      return None;
    }
    if Valid(text, 0, |text|) && OnBoundary(text, p) {
      SpaceBefore(text, p);
    }
    var wordEnd := p - 1;
    var wordStart := WordStart(text, wordEnd, scripts);
    if wordStart == wordEnd || !scripts.upper(Decode(text, wordStart, wordEnd).code) || rule.stopWord(text[wordStart..wordEnd]) {
      return None;
    }
    r := Some(wordStart);
  }

  /** Takes in the capitalised words before the entity, at most six, until the name is long enough. */
  method ExtendLatin(text: Bytes, from: nat, max: nat, rule: Backward, scripts: Scripts) returns (start: nat)
    requires from <= |text|
    ensures start <= from && exists k: nat :: IsLatinHead(text, from, start, k, max, rule, scripts)
    ensures NameWords(text, start, from, 6, rule, scripts)
    ensures Valid(text, 0, |text|) && OnBoundary(text, from) ==> OnBoundary(text, start)
  {
    start := from;
    var words: nat, done := 0, false;
    while words < 6 && !done
      invariant words <= 6 && start <= from && WordsBefore(text, from, words, rule, scripts) == Some(start)
      invariant WordsShort(text, from, words, max, rule, scripts)
      invariant !done && words > 0 ==> (from - start) / 3 <= max
      invariant done ==> (words > 0 && (from - start) / 3 > max) || WordBefore(text, start, rule, scripts) == None
      invariant Valid(text, 0, |text|) && OnBoundary(text, from) ==> OnBoundary(text, start)
      decreases 6 - words, if done then 0 else 1
    {
      var word := ReadWord(text, start, rule, scripts);
      if word == None {
        done := true;
      } else {
        OneMoreShort(text, from, start, words, max, rule, scripts);
        start := word.value;
        words := words + 1;
        done := (from - start) / 3 > max;
      }
    }
    assert IsLatinHead(text, from, start, words, max, rule, scripts);
    HeadWords(text, from, start, words, rule, scripts);
    MoreWordsTo(text, start, from, words, rule, scripts);
  }

  lemma OneMoreShort(text: Bytes, from: nat, start: nat, k: nat, max: nat, rule: Backward, scripts: Scripts)
    requires from <= |text| && WordsBefore(text, from, k, rule, scripts) == Some(start) && WordsShort(text, from, k, max, rule, scripts)
    requires k > 0 ==> (from - start) / 3 <= max
    ensures WordsShort(text, from, k + 1, max, rule, scripts)
    ensures WordsBefore(text, from, k + 1, rule, scripts) == WordBefore(text, start, rule, scripts)
  {
  }

  lemma SpaceBefore(text: Bytes, p: nat)
    requires Valid(text, 0, |text|) && OnBoundary(text, p) && p > 0 && text[p - 1] == SPACE
    ensures OnBoundary(text, p - 1)
  {
    DecodeLastIs(text, p);
  }

  lemma {:induction false} HeadWords(text: Bytes, from: nat, start: nat, k: nat, rule: Backward, scripts: Scripts)
    requires from <= |text| && WordsBefore(text, from, k, rule, scripts) == Some(start)
    ensures NameWords(text, start, from, k, rule, scripts)
    decreases k
  {
    if k > 0 {
      var q := WordsBefore(text, from, k - 1, rule, scripts).value;
      HeadWords(text, from, q, k - 1, rule, scripts);
      assert NameWord(text, start, q - 1, rule, scripts) && NameWords(text, (q - 1) + 1, from, k - 1, rule, scripts);
    }
  }

  lemma {:induction false} MoreWordsTo(text: Bytes, a: nat, b: nat, k: nat, rule: Backward, scripts: Scripts)
    requires k <= 6 && NameWords(text, a, b, k, rule, scripts)
    ensures NameWords(text, a, b, 6, rule, scripts)
    decreases 6 - k
  {
    if k < 6 {
      MoreWords(text, a, b, k, rule, scripts);
      MoreWordsTo(text, a, b, k + 1, rule, scripts);
    }
  }

  /** The value of the entity ends in one of the anchors. */
  predicate Anchored(value: string, anchors: seq<Bytes>) {
    exists i :: 0 <= i < |anchors| && 0 < |anchors[i]| <= |value| && value[|value| - |anchors[i]|..] == Chars(anchors[i])
  }

  /** Where the start belongs. It stays without an anchor or anything before it. In Latin text it is where the walk over words
      ends; elsewhere where the slide ends, if the head is short and scores enough. */
  ghost predicate StartsHere(text: Bytes, value: string, from: nat, end: nat, start: nat, rule: Backward, scripts: Scripts)
    requires from <= end <= |text|
  {
    var max := Limit(rule.maxRunes, 16);
    if !Anchored(value, rule.anchors) || from == 0 then start == from
    else if IsLatinBoundary(text, from, scripts) then exists k: nat :: IsLatinHead(text, from, start, k, max, rule, scripts)
    else exists slid: nat :: IsSlide(text, from, slid, max, rule, scripts) && start == Scored(text, slid, from, end, rule)
  }

  /** The start of a head that is short and scores enough, or else the start that there was. */
  function Scored(text: Bytes, slid: nat, from: nat, end: nat, rule: Backward): nat
    requires slid <= from <= end <= |text|
  {
    if slid < from && RuneCount(text, slid, from) <= 12 && HeadScore(text, slid, from, end, rule) >= rule.minScore then slid else from
  }

  /** Widens the start of an organisation's name that ends in a generic word. */
  method ExtendBackward(text: Bytes, value: string, from: nat, end: nat, rule: Backward, scripts: Scripts) returns (start: nat)
    requires from <= end <= |text|
    ensures start <= from && (Valid(text, 0, |text|) && OnBoundary(text, from) ==> OnBoundary(text, start))
    ensures StartsHere(text, value, from, end, start, rule, scripts)
    ensures start < from && IsLatinBoundary(text, from, scripts) ==> NameWords(text, start, from, 6, rule, scripts)
  {
    if !Anchored(value, rule.anchors) || from == 0 {
      return from;
    }
    var max := Limit(rule.maxRunes, 16);
    if IsLatinBoundary(text, from, scripts) {
      start := ExtendLatin(text, from, max, rule, scripts);
      return;
    }
    var slid := SlideLeft(text, from, max, rule, scripts);
    if slid == from || RuneCount(text, slid, from) > 12 || HeadScore(text, slid, from, end, rule) < rule.minScore {
      return from;
    }
    start := slid;
  }

  // ---------------------------------------------------------------------------------------------
  // The verdict.
  // ---------------------------------------------------------------------------------------------

  /** The entity w is e with boundaries that moved outwards, if at all, and the text that they now enclose. */
  ghost predicate Widens(text: Bytes, e: Entity, w: Entity) {
    && 0 <= w.start <= e.start <= e.end <= w.end <= |text|
    && w == e.(start := w.start, end := w.end, value := w.value)
    && (e.value == Slice(text, e.start, e.end) ==> w.value == Slice(text, w.start, w.end))
    && (Valid(text, 0, |text|) && OnBoundary(text, e.start) && OnBoundary(text, e.end) ==>
          OnBoundary(text, w.start) && OnBoundary(text, w.end))
  }

  /** Something about the entity or around it rules it out: its shape, a cue that must not be there, or one that must. */
  ghost predicate RuledOut(text: Bytes, e: Entity, chain: Chain) {
    || (exists i :: 0 <= i < |chain.shapes| && chain.shapes[i](e.value))
    || (exists i :: 0 <= i < |chain.cues| && Refutes(chain.cues[i], text, e))
  }

  predicate Refutes(cue: Cue, text: Bytes, e: Entity) {
    match cue.requirement
    case MustNot => cue.hit(text, e)
    case Must => !cue.hit(text, e)
    case Should => false
  }

  /** The weights of the first n cues that are found. */
  function ScoreOf(cues: seq<Cue>, n: nat, text: Bytes, e: Entity): real
    requires n <= |cues|
  {
    if n == 0 then 0.0
    else
      var cue := cues[n - 1];
      ScoreOf(cues, n - 1, text, e) + if cue.requirement.Should? && cue.hit(text, e) then cue.weight else 0.0
  }

  /** The evidence falls short and the chain turns that into a rejection: always, or for a known low confidence. */
  predicate Unsupported(e: Entity, chain: Chain) {
    chain.rejectUnverified || (chain.rejectBelow > 0.0 && 0.0 < e.confidence < chain.rejectBelow)
  }

  /** The end is where the extension rule puts it, and then the start where the backward rule does. */
  ghost predicate WidenedBy(text: Bytes, e: Entity, chain: Chain, scripts: Scripts, w: Entity) {
    && Widens(text, e, w)
    && (match chain.extension
        case None => w.end == e.end
        case Some(rule) => Furthest(text, e.start, e.end, Limit(rule.maxRunes, 20), w.end, rule, scripts))
    && var value := if w.end > e.end then Slice(text, e.start, w.end) else e.value;
       && w.value == (if w.start < e.start then Slice(text, w.start, w.end) else value)
       && match chain.backward
          case None => w.start == e.start
          case Some(rule) => StartsHere(text, value, e.start, w.end, w.start, rule, scripts)
  }

  method Widen(text: Bytes, e: Entity, chain: Chain, scripts: Scripts) returns (w: Entity)
    requires 0 <= e.start <= e.end <= |text|
    ensures WidenedBy(text, e, chain, scripts, w)
  {
    w := e;
    if chain.extension.Some? {
      var last := ExtendBoundary(text, e.start, e.end, chain.extension.value, scripts);
      if last > e.end {
        w := w.(end := last, value := Slice(text, e.start, last));
      }
    }
    if chain.backward.Some? {
      var first := ExtendBackward(text, w.value, w.start, w.end, chain.backward.value, scripts);
      if first < w.start {
        w := w.(start := first, value := Slice(text, first, w.end));
      }
    }
  }

  /** The verdict that a chain's rules and cues call for. */
  ghost predicate VerdictFits(text: Bytes, c: Chain, d: Decision) {
    && (d.verdict == Drop <==> RuledOut(text, d.entity, c)
                               || (ScoreOf(c.cues, |c.cues|, text, d.entity) < c.threshold && Unsupported(d.entity, c)))
    && (d.verdict == Keep <==> !RuledOut(text, d.entity, c) && ScoreOf(c.cues, |c.cues|, text, d.entity) >= c.threshold)
    && (d.verdict != Drop ==> d.score == ScoreOf(c.cues, |c.cues|, text, d.entity))
  }

  /** The decision on an entity: widened and judged as its chain says, if there is one for its kind. */
  ghost predicate Judged(text: Bytes, e: Entity, chain: Option<Chain>, scripts: Scripts, d: Decision) {
    && Widens(text, e, d.entity)
    && match chain
       case None => d == Decision(Keep, e, 0.0)
       case Some(c) => WidenedBy(text, e, c, scripts, d.entity) && VerdictFits(text, c, d)
  }

  /** What lacks support is rejected only for a confidence that is known and low, or if the chain always rejects it. */
  lemma OnlyKnownLowIsRejected(text: Bytes, c: Chain, d: Decision)
    requires VerdictFits(text, c, d) && !RuledOut(text, d.entity, c)
    requires ScoreOf(c.cues, |c.cues|, text, d.entity) < c.threshold && !c.rejectUnverified
    ensures d.entity.confidence <= 0.0 || d.entity.confidence >= c.rejectBelow ==> d.verdict == Unknown
    ensures 0.0 < d.entity.confidence < c.rejectBelow ==> d.verdict == Drop
  {
  }

  /** Widens the entity, then judges it. */
  method Validate(text: Bytes, e: Entity, chain: Option<Chain>, scripts: Scripts) returns (d: Decision)
    requires 0 <= e.start <= e.end <= |text|
    ensures Judged(text, e, chain, scripts, d)
  {
    if chain == None {
      return Decision(Keep, e, 0.0);
    }
    var w := Widen(text, e, chain.value, scripts);
    d := Judge(text, w, chain.value);
  }

  /** A chain rejects what is ruled out whatever it scores. */
  method Judge(text: Bytes, w: Entity, c: Chain) returns (d: Decision)
    ensures d.entity == w && VerdictFits(text, c, d)
  {
    for i := 0 to |c.shapes|
      invariant forall j :: 0 <= j < i ==> !c.shapes[j](w.value)
    {
      if c.shapes[i](w.value) {
        return Decision(Drop, w, 0.0);
      }
    }
    var score := 0.0;
    for i := 0 to |c.cues|
      invariant score == ScoreOf(c.cues, i, text, w) && forall j :: 0 <= j < i ==> !Refutes(c.cues[j], text, w)
    {
      var hit := c.cues[i].hit(text, w);
      match c.cues[i].requirement {
        case MustNot =>
          if hit {
            assert Refutes(c.cues[i], text, w);
            return Decision(Drop, w, score);
          }
        case Must =>
          if !hit {
            assert Refutes(c.cues[i], text, w);
            return Decision(Drop, w, score);
          }
        case Should =>
          if hit {
            score := score + c.cues[i].weight;
          }
      }
    }
    if score >= c.threshold {
      return Decision(Keep, w, score);
    }
    d := Decision(if Unsupported(w, c) then Drop else Unknown, w, score);
  }

  // ---------------------------------------------------------------------------------------------
  // Resolution by evidence.
  // ---------------------------------------------------------------------------------------------

  function VerdictRank(v: Verdict): int { if v == Keep then 2 else if v == Unknown then 1 else 0 }

  /** Stronger verdict, then score, then confidence, then length; of equal ones the earlier first. */
  predicate ByEvidence(x: Decision, y: Decision) {
    if VerdictRank(x.verdict) != VerdictRank(y.verdict) then VerdictRank(x.verdict) > VerdictRank(y.verdict)
    else if x.score != y.score then x.score > y.score
    else if x.entity.confidence != y.entity.confidence then x.entity.confidence > y.entity.confidence
    else if x.entity.Len() != y.entity.Len() then x.entity.Len() > y.entity.Len()
    else x.entity.start <= y.entity.start
  }

  lemma EvidenceIsTotal()
    ensures TotalPreorder(ByEvidence)
  {
  }

  predicate Competes(d: Decision) { d.verdict != Drop }

  const CLASH := (x: Decision, y: Decision) => x.entity.Overlaps(y.entity)

  const ENTITY := (d: Decision) => d.entity

  function BestFirst(decisions: seq<Decision>): seq<Decision> { StableSort(ByEvidence, Filter(Competes, decisions)) }

  function Winners(decisions: seq<Decision>): seq<Decision> { Greedy(CLASH, BestFirst(decisions)) }

  /** No rejected candidate wins, winners do not overlap, and a candidate that loses overlaps one that ranks no lower. */
  lemma WinnersWin(decisions: seq<Decision>)
    ensures forall d :: d in Winners(decisions) ==> d in decisions && d.verdict != Drop
    ensures PairwiseFree(CLASH, Winners(decisions))
    ensures forall d :: d in decisions && d.verdict != Drop && d !in Winners(decisions) ==>
              exists k :: k in Winners(decisions) && d.entity.Overlaps(k.entity) && ByEvidence(k, d) && Stronger(k, d)
  {
    var ranked := BestFirst(decisions);
    EvidenceIsTotal();
    StableSortOk(ByEvidence, Filter(Competes, decisions));
    FilterKeeps(Competes, decisions);
    GreedyFree(CLASH, ranked);
    GreedyIn(CLASH, ranked);
    forall d | d in decisions && d.verdict != Drop && d !in Winners(decisions)
      ensures exists k :: k in Winners(decisions) && d.entity.Overlaps(k.entity) && ByEvidence(k, d) && Stronger(k, d)
    {
      GreedyMaximal(CLASH, ByEvidence, ranked, d);
      var k :| k in Winners(decisions) && CLASH(d, k) && ByEvidence(k, d);
      assert d.entity.Overlaps(k.entity);
      assert k in decisions && k.verdict != Drop && Stronger(k, d);
    }
  }

  /** What was kept does not lose to what is unknown; among equals the score decides, then the confidence, then the length, and
      then the place. */
  ghost predicate Stronger(k: Decision, d: Decision) {
    var x, y := k.entity, d.entity;
    && (d.verdict == Keep ==> k.verdict == Keep)
    && (k.verdict == d.verdict ==> k.score >= d.score)
    && (k.verdict == d.verdict && k.score == d.score ==> x.confidence >= y.confidence)
    && (k.verdict == d.verdict && k.score == d.score && x.confidence == y.confidence ==>
          x.end - x.start >= y.end - y.start && (x.end - x.start == y.end - y.start ==> x.start <= y.start))
  }

  predicate StartsFirst(x: Decision, y: Decision) { x.entity.start <= y.entity.start }

  lemma StartsIsTotal()
    ensures TotalPreorder(StartsFirst)
  {
  }

  /** Chooses among overlapping candidates by their evidence. */
  method ResolveByEvidence(decisions: seq<Decision>) returns (kept: seq<Decision>)
    ensures multiset(kept) == multiset(Winners(decisions)) && SortedBy(StartsFirst, kept)
  {
    var ranked := BestFirst(decisions);
    kept := [];
    assert ranked[..0] == [];
    for i := 0 to |ranked|
      invariant kept == Greedy(CLASH, ranked[..i])
    {
      GreedyAppend(CLASH, ranked[..i], ranked[i]);
      assert ranked[..i + 1] == ranked[..i] + [ranked[i]];
      var conflict := HasConflict(ranked[i], kept);
      if !conflict {
        kept := kept + [ranked[i]];
      }
    }
    assert ranked[..|ranked|] == ranked;
    StartsIsTotal();
    kept := Sort(StartsFirst, kept);
  }

  method HasConflict(d: Decision, kept: seq<Decision>) returns (conflict: bool)
    ensures conflict == Conflicts(CLASH, d, kept)
  {
    for j := 0 to |kept|
      invariant forall k :: 0 <= k < j ==> !CLASH(d, kept[k])
    {
      if d.entity.start < kept[j].entity.end && kept[j].entity.start < d.entity.end {
        assert CLASH(d, kept[j]);
        return true;
      }
    }
    return false;
  }

  // ---------------------------------------------------------------------------------------------
  // Detection with evidence, and what redaction makes of it.
  // ---------------------------------------------------------------------------------------------

  function ChainFor(chains: map<string, Chain>, kind: string): Option<Chain> { if kind in chains then Some(chains[kind]) else None }

  /** One decision on each candidate, in their order. */
  ghost predicate Decided(text: Bytes, found: seq<Entity>, chains: map<string, Chain>, scripts: Scripts, decisions: seq<Decision>) {
    |decisions| == |found| && forall i :: 0 <= i < |found| ==> Judged(text, found[i], ChainFor(chains, found[i].kind), scripts, decisions[i])
  }

  lemma DecidedNext(text: Bytes, found: seq<Entity>, i: nat, chains: map<string, Chain>, scripts: Scripts,
                    decisions: seq<Decision>, d: Decision)
    requires i < |found| && Decided(text, found[..i], chains, scripts, decisions)
    requires Judged(text, found[i], ChainFor(chains, found[i].kind), scripts, d)
    ensures Decided(text, found[..i + 1], chains, scripts, decisions + [d])
  {
    forall j | 0 <= j < i + 1
      ensures Judged(text, found[..i + 1][j], ChainFor(chains, found[..i + 1][j].kind), scripts, (decisions + [d])[j])
    {
      assert j < i ==> found[..i + 1][j] == found[..i][j] && (decisions + [d])[j] == decisions[j];
    }
  }

  method ValidateAll(text: Bytes, found: seq<Entity>, chains: map<string, Chain>, scripts: Scripts)
    returns (kept: seq<Decision>, ghost decisions: seq<Decision>)
    requires forall e :: e in found ==> 0 <= e.start <= e.end <= |text|
    ensures Decided(text, found, chains, scripts, decisions)
    ensures multiset(kept) == multiset(Winners(decisions)) && SortedBy(StartsFirst, kept)
  {
    var all: seq<Decision> := [];
    assert found[..0] == [];
    for i := 0 to |found|
      invariant Decided(text, found[..i], chains, scripts, all)
    {
      assert found[i] in found;
      var d := Validate(text, found[i], ChainFor(chains, found[i].kind), scripts);
      DecidedNext(text, found, i, chains, scripts, all, d);
      all := all + [d];
    }
    assert found[..|found|] == found;
    decisions := all;
    kept := ResolveByEvidence(all);
  }

  /** The candidate is kept as widened, or was rejected, or overlaps a winner that ranks no lower. */
  ghost predicate Accounted(decisions: seq<Decision>, d: Decision, out: seq<Entity>) {
    d.entity in out || d.verdict == Drop || exists k :: k in Winners(decisions) && k.entity in out && d.entity.Overlaps(k.entity) && ByEvidence(k, d)
  }

  /** The wrapped detector: entities corrected and chosen by evidence. */
  method Detect(text: Bytes, found: seq<Entity>, chains: map<string, Chain>, scripts: Scripts)
    returns (out: seq<Entity>, ghost decisions: seq<Decision>)
    requires forall e :: e in found ==> 0 <= e.start <= e.end <= |text|
    ensures Decided(text, found, chains, scripts, decisions)
    ensures multiset(out) == multiset(Map(ENTITY, Winners(decisions))) && SortedBy(ByStart, out) && PairwiseFree(OVERLAP, out)
    ensures forall d :: d in decisions ==> Accounted(decisions, d, out)
  {
    var kept;
    kept, decisions := ValidateAll(text, found, chains, scripts);
    out := Map(ENTITY, kept);
    EntitiesFree(decisions, kept);
    WinnersWin(decisions);
    SameContents(kept, Winners(decisions));
    MapContents(ENTITY, kept, Winners(decisions));
    forall i, j | 0 <= i < j < |out| ensures ByStart(out[i], out[j]) {
      assert StartsFirst(kept[i], kept[j]);
    }
    forall k | k in Winners(decisions) ensures k.entity in out {
      var i :| 0 <= i < |kept| && kept[i] == k;
      assert out[i] == k.entity;
    }
  }

  lemma RemoveAt<T>(t: seq<T>, k: nat)
    requires k < |t|
    ensures multiset(t) == multiset{t[k]} + multiset(t[..k] + t[k + 1..])
  {
    assert t == t[..k] + [t[k]] + t[k + 1..];
  }

  lemma MapRemoveAt<S, T>(f: S -> T, t: seq<S>, k: nat)
    requires k < |t|
    ensures multiset(Map(f, t)) == multiset{f(t[k])} + multiset(Map(f, t[..k] + t[k + 1..]))
  {
    RemoveAt(Map(f, t), k);
    assert Map(f, t)[..k] + Map(f, t)[k + 1..] == Map(f, t[..k] + t[k + 1..]);
  }

  lemma RemoveSame<T(!new)>(s: seq<T>, t: seq<T>) returns (k: nat)
    requires multiset(s) == multiset(t) && s != []
    ensures k < |t| && t[k] == s[0] && multiset(s[1..]) == multiset(t[..k] + t[k + 1..])
  {
    SameContents(s, t);
    assert s[0] in t;
    k :| 0 <= k < |t| && t[k] == s[0];
    RemoveAt(t, k);
    assert s == [s[0]] + s[1..];
    assert multiset(s[1..]) == multiset(s) - multiset{s[0]};
    assert multiset(t[..k] + t[k + 1..]) == multiset(t) - multiset{t[k]};
  }

  lemma {:induction false} MapContents<S(!new), T(!new)>(f: S -> T, s: seq<S>, t: seq<S>)
    requires multiset(s) == multiset(t)
    ensures multiset(Map(f, s)) == multiset(Map(f, t))
    decreases |s|
  {
    if s != [] {
      var k := RemoveSame(s, t);
      MapContents(f, s[1..], t[..k] + t[k + 1..]);
      MapRemoveAt(f, t, k);
      MapCons(f, s[0], s[1..]);
      assert s == [s[0]] + s[1..];
    } else {
      SameContents(s, t);
    }
  }

  /** Every entity of the result comes from a candidate that was not rejected. */
  lemma OutFrom(text: Bytes, found: seq<Entity>, chains: map<string, Chain>, scripts: Scripts, decisions: seq<Decision>,
                out: seq<Entity>, w: Entity)
    returns (i: nat)
    requires Decided(text, found, chains, scripts, decisions) && multiset(out) == multiset(Map(ENTITY, Winners(decisions))) && w in out
    ensures i < |found| && Widens(text, found[i], w) && decisions[i].entity == w && decisions[i].verdict != Drop
  {
    SameContents(out, Map(ENTITY, Winners(decisions)));
    var k :| 0 <= k < |Winners(decisions)| && Map(ENTITY, Winners(decisions))[k] == w;
    var d := Winners(decisions)[k];
    assert d in Winners(decisions);
    WinnersWin(decisions);
    i :| 0 <= i < |decisions| && decisions[i] == d;
    assert Judged(text, found[i], ChainFor(chains, found[i].kind), scripts, decisions[i]);
  }

  lemma EntitiesFree(decisions: seq<Decision>, kept: seq<Decision>)
    requires multiset(kept) == multiset(Winners(decisions))
    ensures PairwiseFree(OVERLAP, Map(ENTITY, kept))
  {
    WinnersWin(decisions);
    PermutationFree(CLASH, Winners(decisions), kept);
    forall i, j | 0 <= i < j < |kept| ensures !OVERLAP(Map(ENTITY, kept)[j], Map(ENTITY, kept)[i]) {
      assert !CLASH(kept[j], kept[i]);
    }
  }

  /** An empty entity begins where a non-empty one does. */
  ghost predicate EmptyAtStart(es: seq<Entity>) {
    exists x, y :: x in es && y in es && x.start == x.end == y.start < y.end
  }

  /** Redaction sorts by start, in whatever order ties come out. Entities that do not overlap never trip its overlap
      check if and only if no empty one begins where one that is not empty begins. */
  lemma NeverBlocked(es: seq<Entity>)
    requires PairwiseFree(OVERLAP, es) && forall e :: e in es ==> 0 <= e.start <= e.end
    ensures (forall ordered {:trigger Redactor.Chain(ordered)} ::
               multiset(ordered) == multiset(es) && SortedBy(ByStart, ordered) ==> Redactor.Chain(ordered)) <==> !EmptyAtStart(es)
  {
    if EmptyAtStart(es) {
      var ordered := Blocked(es);
      assert !Redactor.Chain(ordered);
    } else {
      forall ordered | multiset(ordered) == multiset(es) && SortedBy(ByStart, ordered) ensures Redactor.Chain(ordered) {
        IsChain(es, ordered);
      }
    }
  }

  lemma IsChain(es: seq<Entity>, ordered: seq<Entity>)
    requires PairwiseFree(OVERLAP, es) && (forall e :: e in es ==> 0 <= e.start <= e.end) && !EmptyAtStart(es)
    requires multiset(ordered) == multiset(es) && SortedBy(ByStart, ordered)
    ensures Redactor.Chain(ordered)
  {
    SameContents(es, ordered);
    PermutationFree(OVERLAP, es, ordered);
    forall i: nat | i < |ordered| ensures Redactor.LastEnd(ordered, i) <= ordered[i].start {
      assert ordered[i] in es;
      if i > 0 {
        assert ordered[i - 1] in es && ByStart(ordered[i - 1], ordered[i]) && !OVERLAP(ordered[i], ordered[i - 1]);
      }
    }
  }

  /** Whatever candidates come in, if none is empty the result passes the overlap check in every order by start, whatever kinds
      are filtered out of it. */
  lemma DetectedPasses(text: Bytes, found: seq<Entity>, chains: map<string, Chain>, scripts: Scripts, decisions: seq<Decision>,
                       out: seq<Entity>, allowed: Option<set<string>>, ordered: seq<Entity>)
    requires forall e :: e in found ==> 0 <= e.start < e.end <= |text|
    requires Decided(text, found, chains, scripts, decisions)
    requires multiset(out) == multiset(Map(ENTITY, Winners(decisions))) && PairwiseFree(OVERLAP, out)
    requires multiset(ordered) == multiset(Redactor.Keep(allowed, out)) && SortedBy(ByStart, ordered)
    ensures Redactor.Chain(ordered)
  {
    var es := Redactor.Keep(allowed, out);
    forall w | w in es ensures 0 <= w.start < w.end {
      var i := OutFrom(text, found, chains, scripts, decisions, out, w);
      assert found[i] in found;
    }
    if allowed.Some? {
      FilterFree(OVERLAP, Redactor.OfKind(allowed.value), out);
    }
    NeverBlocked(es);
  }

  lemma {:induction false} FilterFree<T(!new)>(clash: (T, T) -> bool, keep: T -> bool, s: seq<T>)
    requires PairwiseFree(clash, s)
    ensures PairwiseFree(clash, Filter(keep, s))
  {
    if s != [] {
      assert PairwiseFree(clash, s[1..]) by {
        forall i, j | 0 <= i < j < |s[1..]| ensures !clash(s[1..][j], s[1..][i]) {
          assert !clash(s[j + 1], s[i + 1]);
        }
      }
      FilterFree(clash, keep, s[1..]);
      forall x | x in s[1..] ensures !clash(x, s[0]) {
        var j :| 0 <= j < |s[1..]| && s[1..][j] == x;
        assert !clash(s[j + 1], s[0]);
      }
    }
  }

  /** Detection with evidence, then redaction of what it found: never blocked by an overlap when no candidate was empty. */
  method DetectAndRedact(text: Bytes, found: seq<Entity>, chains: map<string, Chain>, scripts: Scripts,
                         allowed: Option<set<string>>, failClosed: bool, vault: Vault.SessionVault)
    returns (r: Redactor.RedactResult)
    requires vault.Valid()
    requires forall e :: e in found ==> 0 <= e.start <= e.end <= |text| && Vault.KeySafe(e.kind)
    modifies vault
    ensures vault.Valid()
    ensures (forall e :: e in found ==> e.start < e.end) ==> r.Clean?
  {
    ghost var decisions;
    var out;
    out, decisions := Detect(text, found, chains, scripts);
    forall w | w in out ensures 0 <= w.start <= w.end <= |text| && Vault.KeySafe(w.kind) {
      var i := OutFrom(text, found, chains, scripts, decisions, out, w);
      assert found[i] in found;
    }
    ghost var ordered, names;
    r, ordered, names := Redactor.Redact(Chars(text), Redactor.Found(out), allowed, failClosed, vault);
    if (forall e :: e in found ==> e.start < e.end) && Chars(text) != "" {
      DetectedPasses(text, found, chains, scripts, decisions, out, allowed, ordered);
    }
  }

  const NOTHING_AT_3 := Entity("NAME", "", 3, 3, 0.9, "dictionary")
  const ONE_AT_3 := Entity("PHONE", "1", 3, 4, 0.9, "pattern")

  /** With an empty entity where another begins, one order by start passes the overlap check and the other does not. */
  lemma EmptyBlocks()
    ensures var e, x := NOTHING_AT_3, ONE_AT_3;
            && PairwiseFree(OVERLAP, [e, x]) && EmptyAtStart([e, x])
            && SortedBy(ByStart, [e, x]) && Redactor.Chain([e, x])
            && SortedBy(ByStart, [x, e]) && !Redactor.Chain([x, e])
  {
    assert Redactor.LastEnd([ONE_AT_3, NOTHING_AT_3], 1) == 4;
  }

  /** An arrangement in which the non-empty entity comes first is sorted, and blocked. */
  lemma Blocked(es: seq<Entity>) returns (ordered: seq<Entity>)
    requires EmptyAtStart(es)
    ensures multiset(ordered) == multiset(es) && SortedBy(ByStart, ordered) && !Redactor.Chain(ordered)
  {
    var x, y :| x in es && y in es && x.start == x.end == y.start < y.end;
    var k :| 0 <= k < |es| && es[k] == y;
    var rest := es[..k] + es[k + 1..];
    assert es == es[..k] + [y] + es[k + 1..];
    assert x in rest;
    OrdersAreTotal();
    StableSortOk(ByStart, rest);
    var sorted := StableSort(ByStart, rest);
    InsertContents(ByStart, y, sorted);
    InsertSorted(ByStart, y, sorted);
    ordered := Insert(ByStart, y, sorted);
    var p := InsertAt(y, sorted, x);
    assert ByStart(ordered[p], ordered[p + 1]);
    assert Redactor.LastEnd(ordered, p + 1) == y.end;
  }

  /** A stable insertion stands before everything that does not begin earlier. */
  lemma {:induction false} InsertAt(y: Entity, sorted: seq<Entity>, x: Entity) returns (p: nat)
    requires SortedBy(ByStart, sorted) && x in sorted && x.start == y.start
    ensures var r := Insert(ByStart, y, sorted); p + 1 < |r| && r[p] == y && r[p + 1].start <= x.start
  {
    var i :| 0 <= i < |sorted| && sorted[i] == x;
    if ByStart(y, sorted[0]) {
      p := 0;
      assert i > 0 ==> ByStart(sorted[0], sorted[i]);
    } else {
      assert sorted[1..][i - 1] == x;
      var q := InsertAt(y, sorted[1..], x);
      p := q + 1;
    }
  }
}
