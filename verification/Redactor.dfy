/** Redaction (pii/anonymize/redactor.go): replacing what was detected by placeholders, and what restoring the
    result gives back. */
module Redactor {
  import opened Wrappers
  import opened Sequences
  import opened Sorting
  import opened Overlaps
  import opened Placeholders
  import opened Vault
  import opened Streaming
  import opened Chunks

  // ---------------------------------------------------------------------------------------------
  // Redaction.
  // ---------------------------------------------------------------------------------------------

  datatype Detection = Found(entities: seq<Entity>) | DetectorFailed

  datatype BlockReason = DetectorUnavailable | OverlappingSpans

  /** FailOpen is the explicit choice to pass the original text on when detection fails. */
  datatype RedactResult = Clean(text: string, entities: seq<Entity>) | FailOpen(text: string) | Blocked(reason: BlockReason)

  /** Where the text before entity i, not yet copied, begins. */
  function LastEnd(es: seq<Entity>, i: nat): int
    requires i <= |es|
  {
    if i == 0 then 0 else es[i - 1].end
  }

  ghost predicate InText(text: string, es: seq<Entity>) {
    forall e :: e in es ==> 0 <= e.start <= e.end <= |text|
  }

  /** None of the first k entities starts before the one before it ends. */
  ghost predicate ChainTo(es: seq<Entity>, k: nat) {
    k <= |es| && forall i: nat {:trigger LastEnd(es, i)} :: i < k ==> LastEnd(es, i) <= es[i].start
  }

  ghost predicate Chain(es: seq<Entity>) { ChainTo(es, |es|) }

  /** The placeholders of the first k entities, under a numbering. */
  ghost predicate Named(ordinals: Ordinals, es: seq<Entity>, names: seq<string>, k: nat) {
    && k <= |es| && k <= |names|
    && forall i: nat {:trigger NameIs(ordinals, es[i], names[i])} :: i < k ==> NameIs(ordinals, es[i], names[i])
  }

  ghost predicate NameIs(ordinals: Ordinals, e: Entity, name: string) {
    (e.kind, e.value) in ordinals && name == Name(e.kind, ordinals[(e.kind, e.value)])
  }

  /** What has been written once k entities have been replaced: the text between them and their placeholders. */
  ghost function Written(text: string, es: seq<Entity>, names: seq<string>, k: nat): string
    requires InText(text, es) && ChainTo(es, k) && k <= |names|
  {
    if k == 0 then ""
    else
      assert LastEnd(es, k - 1) <= es[k - 1].start;
      Written(text, es, names, k - 1) + text[LastEnd(es, k - 1)..es[k - 1].start] + names[k - 1]
  }

  ghost function Redacted(text: string, es: seq<Entity>, names: seq<string>): string
    requires InText(text, es) && Chain(es) && |names| == |es|
  {
    Written(text, es, names, |es|) + text[LastEnd(es, |es|)..]
  }

  /** What has been written does not depend on later placeholders. */
  lemma {:induction false} WrittenStable(text: string, es: seq<Entity>, names: seq<string>, k: nat, name: string)
    requires InText(text, es) && ChainTo(es, k) && k <= |names|
    ensures Written(text, es, names + [name], k) == Written(text, es, names, k)
  {
    if k > 0 {
      WrittenStable(text, es, names, k - 1, name);
    }
  }

  function Keep(allowed: Option<set<string>>, entities: seq<Entity>): seq<Entity> {
    match allowed
    case None => entities
    case Some(kinds) => Filter(OfKind(kinds), entities)
  }

  function OfKind(kinds: set<string>): Entity -> bool { (e: Entity) => e.kind in kinds }

  /** Of the entities, those at the picked places came out, in their order: all of an allowed kind, each as often as it is
      there, and no others. */
  ghost predicate AllowedOnes(entities: seq<Entity>, out: seq<Entity>, allowed: Option<set<string>>, picks: seq<nat>) {
    && |picks| == |out| && (forall i, j :: 0 <= i < j < |picks| ==> picks[i] < picks[j])
    && (forall k {:trigger out[k]} {:trigger picks[k]} :: 0 <= k < |out| ==> picks[k] < |entities| && out[k] == entities[picks[k]])
    && (forall i: nat {:trigger entities[i]} :: i < |entities| ==> (i in picks <==> allowed.None? || entities[i].kind in allowed.value))
  }

  lemma KeepPicks(entities: seq<Entity>, allowed: Option<set<string>>) returns (picks: seq<nat>)
    ensures AllowedOnes(entities, Keep(allowed, entities), allowed, picks)
  {
    if allowed.None? {
      picks := seq(|entities|, i requires 0 <= i < |entities| => i);
      forall i: nat | i < |entities| ensures i in picks {
        assert picks[i] == i;
      }
    } else {
      picks := FilterPicks(OfKind(allowed.value), entities);
    }
  }

  lemma NamedGrows(before: Ordinals, after: Ordinals, es: seq<Entity>, names: seq<string>, k: nat, name: string)
    requires Named(before, es, names, k) && k == |names| && k < |es| && NameIs(after, es[k], name)
    requires forall x :: x in before ==> x in after && after[x] == before[x]
    ensures Named(after, es, names + [name], k + 1)
  {
    forall i: nat | i < k + 1 ensures NameIs(after, es[i], (names + [name])[i]) {
      assert i < k ==> NameIs(before, es[i], names[i]);
    }
  }

  method ReplaceNext(vault: SessionVault, es: seq<Entity>, k: nat, ghost names: seq<string>) returns (p: string)
    requires vault.Valid() && k == |names| < |es| && KeySafe(es[k].kind) && Named(vault.ordinals, es, names, k)
    modifies vault
    ensures vault.Valid() && Named(vault.ordinals, es, names + [p], k + 1)
  {
    ghost var before := vault.ordinals;
    var e := es[k];
    p := vault.PlaceholderFor(e.kind, e.value);
    NamedGrows(before, vault.ordinals, es, names, k, p);
  }

  /** Copies the text, replacing each entity by its placeholder, and stops at one that starts too early. */
  method Rewrite(text: string, sorted: seq<Entity>, vault: SessionVault) returns (r: Option<string>, ghost names: seq<string>)
    requires vault.Valid() && InText(text, sorted) && forall e :: e in sorted ==> KeySafe(e.kind)
    modifies vault
    ensures vault.Valid()
    ensures r.Some? <==> Chain(sorted)
    ensures r.Some? ==> |names| == |sorted| && Named(vault.ordinals, sorted, names, |sorted|)
                        && r.value == Redacted(text, sorted, names)
  {
    names := [];
    var b, cursor := "", 0;
    for i := 0 to |sorted|
      invariant vault.Valid() && ChainTo(sorted, i) && |names| == i && Named(vault.ordinals, sorted, names, i)
      invariant cursor == LastEnd(sorted, i) && b == Written(text, sorted, names, i)
    {
      if sorted[i].start < cursor {
        assert LastEnd(sorted, i) > sorted[i].start;
        return None, names;
      }
      var replacement := ReplaceNext(vault, sorted, i, names);
      WrittenStable(text, sorted, names, i, replacement);
      names := names + [replacement];
      b := b + text[cursor..sorted[i].start] + replacement;
      cursor := sorted[i].end;
    }
    r := Some(b + text[cursor..]);
  }

  /** Redacts a text with placeholders for everything detected. Overlapping entities block the request, and so
      does a failed detector unless failing open was chosen. */
  method Redact(text: string, detection: Detection, allowed: Option<set<string>>, failClosed: bool, vault: SessionVault)
    returns (r: RedactResult, ghost ordered: seq<Entity>, ghost names: seq<string>)
    requires vault.Valid()
    requires detection.Found? ==> InText(text, detection.entities) && forall e :: e in detection.entities ==> KeySafe(e.kind)
    modifies vault
    ensures vault.Valid()
    ensures text == "" ==> r == Clean("", [])
    ensures text != "" && detection.DetectorFailed? ==>
              r == if failClosed then Blocked(DetectorUnavailable) else FailOpen(text)
    ensures text != "" && detection.Found? ==>
              var es := Keep(allowed, detection.entities);
              && multiset(ordered) == multiset(es) && SortedBy(ByStart, ordered) && InText(text, ordered)
              && (Chain(ordered) ==> |names| == |ordered| && Named(vault.ordinals, ordered, names, |ordered|)
                                     && r == Clean(Redacted(text, ordered, names), es))
              && (!Chain(ordered) ==> r == Blocked(OverlappingSpans))
    ensures text != "" && r.Clean? ==>
              detection.Found? && exists picks :: AllowedOnes(detection.entities, r.entities, allowed, picks)
  {
    ordered, names := [], [];
    if text == "" {
      return Clean(text, []), [], [];
    }
    match detection
    case DetectorFailed =>
      r := if failClosed then Blocked(DetectorUnavailable) else FailOpen(text);
    case Found(entities) =>
      var es := Keep(allowed, entities);
      ghost var picks := KeepPicks(entities, allowed);
      if es == [] {
        assert text[0..] == text;
        return Clean(text, []), [], [];
      }
      OrdersAreTotal();
      var sorted := Sort(ByStart, es);
      var out;
      out, names := Rewrite(text, sorted, vault);
      r := if out.Some? then Clean(out.value, es) else Blocked(OverlappingSpans);
      ordered := sorted;
  }

  // ---------------------------------------------------------------------------------------------
  // The round trip.
  // ---------------------------------------------------------------------------------------------

  /** Where the text before entity i ends: at its start, or at the end of the text. */
  function GapEnd(text: string, es: seq<Entity>, i: nat): int
    requires i <= |es|
  {
    if i == |es| then |text| else es[i].start
  }

  lemma GapBounds(text: string, es: seq<Entity>, i: nat)
    requires InText(text, es) && Chain(es) && i <= |es|
    ensures 0 <= LastEnd(es, i) <= GapEnd(text, es, i) <= |text|
  {
    if i < |es| {
      assert LastEnd(es, i) <= es[i].start && es[i] in es;
    }
    if i > 0 {
      assert es[i - 1] in es;
    }
  }

  /** The text that stands between entity i - 1 and entity i. */
  ghost function Gap(text: string, es: seq<Entity>, i: nat): string
    requires InText(text, es) && Chain(es) && i <= |es|
  {
    GapBounds(text, es, i);
    text[LastEnd(es, i)..GapEnd(text, es, i)]
  }

  /** What the caller can check before redacting: the kinds are those of built-in recognisers, the entities carry the
      text they cover, the text between them holds no marker, and none is directly followed by a digit of that text. */
  ghost predicate Restorable(text: string, es: seq<Entity>) {
    && InText(text, es) && Chain(es)
    && (forall e :: e in es ==> ValidKind(e.kind) && e.value == text[e.start..e.end])
    && (forall i: nat {:trigger Gap(text, es, i)} :: i <= |es| ==> Unmarked(Gap(text, es, i)))
    && (forall i: nat {:trigger Gap(text, es, i)} :: 0 < i <= |es| ==> NoDigitFirst(Gap(text, es, i)))
  }

  ghost predicate Unmarked(s: string) { forall p: nat {:trigger At(s, p, MARKER)} :: !At(s, p, MARKER) }

  predicate NoDigitFirst(s: string) { s != "" ==> !IsDigit(s[0]) }

  /** The redacted text from the gap before entity k on. */
  ghost function Rest(text: string, es: seq<Entity>, names: seq<string>, k: nat): string
    requires InText(text, es) && Chain(es) && k <= |es| == |names|
    decreases |es| - k
  {
    if k == |es| then Gap(text, es, k) else Gap(text, es, k) + names[k] + Rest(text, es, names, k + 1)
  }

  ghost function Whole(text: string, es: seq<Entity>, names: seq<string>, k: nat): string
    requires InText(text, es) && Chain(es) && k <= |es| == |names|
  {
    Written(text, es, names, k) + Rest(text, es, names, k)
  }

  lemma RestIsRedacted(text: string, es: seq<Entity>, names: seq<string>, k: nat)
    requires InText(text, es) && Chain(es) && k <= |es| == |names|
    ensures Written(text, es, names, k) + Rest(text, es, names, k) == Redacted(text, es, names)
  {
    AllTheWay(text, es, names, k, Whole(text, es, names, |es|));
    LastIsRedacted(text, es, names);
  }

  lemma {:induction false} AllTheWay(text: string, es: seq<Entity>, names: seq<string>, k: nat, all: string)
    requires InText(text, es) && Chain(es) && k <= |es| == |names| && Whole(text, es, names, |es|) == all
    ensures Whole(text, es, names, k) == all
    decreases |es| - k
  {
    if k < |es| {
      AllTheWay(text, es, names, k + 1, all);
      NextIsWhole(text, es, names, k, all);
    }
  }

  lemma LastIsRedacted(text: string, es: seq<Entity>, names: seq<string>)
    requires InText(text, es) && Chain(es) && |names| == |es|
    ensures Written(text, es, names, |es|) + Rest(text, es, names, |es|) == Redacted(text, es, names)
  {
    assert Gap(text, es, |es|) == text[LastEnd(es, |es|)..];
  }

  lemma NextIsWhole(text: string, es: seq<Entity>, names: seq<string>, k: nat, all: string)
    requires InText(text, es) && Chain(es) && k < |es| == |names| && Whole(text, es, names, k + 1) == all
    ensures Whole(text, es, names, k) == all
  {
    WrittenNext(text, es, names, k);
    RestUnfolds(Written(text, es, names, k), Gap(text, es, k), names[k], Rest(text, es, names, k + 1));
  }

  lemma WrittenNext(text: string, es: seq<Entity>, names: seq<string>, k: nat)
    requires InText(text, es) && Chain(es) && k < |es| == |names|
    ensures Written(text, es, names, k + 1) == Written(text, es, names, k) + Gap(text, es, k) + names[k]
  {
  }

  lemma RestUnfolds(done: string, gap: string, name: string, rest: string)
    ensures done + (gap + name + rest) == (done + gap + name) + rest
  {
  }

  /** A marker cannot begin in unmarked text and end in the name or text after it: only its first letter is an A. */
  lemma NoMarkerBefore(gap: string, name: string, rest: string, p: nat)
    requires Unmarked(gap) && p < |gap| && |name| >= 1 && name[0] == 'A'
    ensures !At(gap + name + rest, p, MARKER)
  {
    var s := gap + name + rest;
    if p + 11 <= |gap| {
      assert s[0..|gap|] == gap;
      AtInText(s, 0, |gap|, p, MARKER);
    } else {
      assert forall j :: 1 <= j < 11 ==> MARKER[j] != 'A';
      assert s[|gap|] == 'A';
      assert At(s, p, MARKER) ==> Upper(s[|gap|]) != 'A';
    }
  }

  lemma ThreeParts(a: string, b: string, c: string)
    ensures var s, e := a + b + c, |a| + |b|;
            |s| == e + |c| && s[0..|a|] == a && s[|a|..e] == b && s[e..|s|] == c && c[0..|c|] == c
  {
  }

  /** One stretch of text and the placeholder after it restore to the text and the value. */
  lemma SegmentPlain(reverse: map<string, string>, gap: string, kind: string, n: nat, value: string, rest: string)
    requires Unmarked(gap) && ValidKind(kind) && Maps(reverse, Name(kind, n), value) && NoDigitFirst(rest)
    ensures var s := gap + Name(kind, n) + rest;
            Plain(reverse, s, 0, |s|) == Restoration(gap + value, 1, []).Then(Plain(reverse, rest, 0, |rest|))
  {
    var name := Name(kind, n);
    var s := gap + name + rest;
    var e := |gap| + |name|;
    forall p: nat | p < |gap| ensures !At(s, p, MARKER) {
      NoMarkerBefore(gap, name, rest, p);
    }
    PlainSkips(reverse, s, 0, |gap|, |s|);
    ThreeParts(gap, name, rest);
    NameBare(kind, n, s, |gap|);
    NameUpper(kind, n);
    PlainUnfolds(reverse, s, |gap|, |s|, e, Restoration(value, 1, []));
    PlainSame(reverse, s, e, |s|, rest, 0, |rest|);
    ThenAssoc(Verbatim(gap), Restoration(value, 1, []), Plain(reverse, rest, 0, |rest|));
  }

  lemma RestStarts(text: string, es: seq<Entity>, names: seq<string>, k: nat)
    requires Restorable(text, es) && 0 < k <= |es| == |names|
    requires k < |es| ==> |names[k]| > 0 && names[k][0] == 'A'
    ensures NoDigitFirst(Rest(text, es, names, k))
  {
    assert NoDigitFirst(Gap(text, es, k));
  }

  lemma NamedAt(reverse: map<string, string>, ordinals: Ordinals, text: string, es: seq<Entity>, names: seq<string>, k: nat)
    returns (n: nat)
    requires Reversed(reverse, ordinals) && Named(ordinals, es, names, |es|) && k < |es| && Restorable(text, es)
    ensures names[k] == Name(es[k].kind, n) && ValidKind(es[k].kind) && Maps(reverse, names[k], es[k].value)
    ensures names[k][0] == 'A'
  {
    assert NameIs(ordinals, es[k], names[k]);
    var kind, value := es[k].kind, es[k].value;
    n := ordinals[(kind, value)];
    assert Maps(reverse, Name((kind, value).0, n), (kind, value).1);
  }

  lemma GapThenValue(text: string, es: seq<Entity>, k: nat, n: nat)
    requires Restorable(text, es) && k < |es|
    ensures 0 <= LastEnd(es, k) <= LastEnd(es, k + 1) <= |text|
    ensures Restoration(Gap(text, es, k) + es[k].value, 1, []).Then(Restoration(text[LastEnd(es, k + 1)..], n, []))
            == Restoration(text[LastEnd(es, k)..], n + 1, [])
  {
    GapBounds(text, es, k);
    var e := es[k];
    assert e in es;
    assert text[LastEnd(es, k)..e.start] + text[e.start..e.end] + text[e.end..] == text[LastEnd(es, k)..];
  }

  lemma RestPlainStep(reverse: map<string, string>, text: string, es: seq<Entity>, k: nat, n: nat, rest: string)
    requires Restorable(text, es) && k < |es| && NoDigitFirst(rest)
    requires ValidKind(es[k].kind) && Maps(reverse, Name(es[k].kind, n), es[k].value)
    requires 0 <= LastEnd(es, k + 1) <= |text|
    requires Plain(reverse, rest, 0, |rest|) == Restoration(text[LastEnd(es, k + 1)..], |es| - k - 1, [])
    ensures 0 <= LastEnd(es, k) <= |text|
    ensures var s := Gap(text, es, k) + Name(es[k].kind, n) + rest;
            Plain(reverse, s, 0, |s|) == Restoration(text[LastEnd(es, k)..], |es| - k, [])
  {
    SegmentPlain(reverse, Gap(text, es, k), es[k].kind, n, es[k].value, rest);
    GapThenValue(text, es, k, |es| - k - 1);
  }

  lemma TailPlain(reverse: map<string, string>, text: string, es: seq<Entity>)
    requires Restorable(text, es)
    ensures 0 <= LastEnd(es, |es|) <= |text|
    ensures var s := Gap(text, es, |es|); Plain(reverse, s, 0, |s|) == Restoration(text[LastEnd(es, |es|)..], 0, [])
  {
    GapBounds(text, es, |es|);
    UnmarkedPlain(reverse, Gap(text, es, |es|));
  }

  lemma UnmarkedPlain(reverse: map<string, string>, s: string)
    requires Unmarked(s)
    ensures Plain(reverse, s, 0, |s|) == Verbatim(s)
  {
    PlainSkips(reverse, s, 0, |s|, |s|);
    assert s[0..|s|] == s;
    NothingThen(Verbatim(s));
  }

  lemma NoDigitNext(reverse: map<string, string>, ordinals: Ordinals, text: string, es: seq<Entity>, names: seq<string>, k: nat)
    requires Reversed(reverse, ordinals) && Named(ordinals, es, names, |es|) && Restorable(text, es) && 0 < k <= |es| == |names|
    ensures NoDigitFirst(Rest(text, es, names, k))
  {
    if k < |es| {
      var _ := NamedAt(reverse, ordinals, text, es, names, k);
    }
    RestStarts(text, es, names, k);
  }

  /** From every gap on, the plain restoration of a redacted text gives the text back. */
  lemma {:induction false} RestPlain(reverse: map<string, string>, ordinals: Ordinals, text: string, es: seq<Entity>,
                                     names: seq<string>, k: nat)
    requires Reversed(reverse, ordinals) && Named(ordinals, es, names, |es|) && Restorable(text, es) && k <= |es| == |names|
    ensures 0 <= LastEnd(es, k) <= |text|
    ensures var s := Rest(text, es, names, k);
            Plain(reverse, s, 0, |s|) == Restoration(text[LastEnd(es, k)..], |es| - k, [])
    decreases |es| - k
  {
    if k == |es| {
      TailPlain(reverse, text, es);
    } else {
      RestPlain(reverse, ordinals, text, es, names, k + 1);
      NextPlain(reverse, ordinals, text, es, names, k);
    }
  }

  lemma NextPlain(reverse: map<string, string>, ordinals: Ordinals, text: string, es: seq<Entity>, names: seq<string>, k: nat)
    requires Reversed(reverse, ordinals) && Named(ordinals, es, names, |es|) && Restorable(text, es) && k < |es| == |names|
    requires 0 <= LastEnd(es, k + 1) <= |text|
    requires var s := Rest(text, es, names, k + 1);
             Plain(reverse, s, 0, |s|) == Restoration(text[LastEnd(es, k + 1)..], |es| - k - 1, [])
    ensures 0 <= LastEnd(es, k) <= |text|
    ensures var s := Rest(text, es, names, k);
            Plain(reverse, s, 0, |s|) == Restoration(text[LastEnd(es, k)..], |es| - k, [])
  {
    var n := NamedAt(reverse, ordinals, text, es, names, k);
    NoDigitNext(reverse, ordinals, text, es, names, k + 1);
    RestPlainStep(reverse, text, es, k, n, Rest(text, es, names, k + 1));
  }

  /** The plain restoration of a redacted text is the text. */
  lemma RedactedPlain(reverse: map<string, string>, ordinals: Ordinals, text: string, es: seq<Entity>, names: seq<string>)
    requires Reversed(reverse, ordinals) && Named(ordinals, es, names, |es|) && |names| == |es| && Restorable(text, es)
    ensures var out := Redacted(text, es, names);
            Plain(reverse, out, 0, |out|) == Restoration(text, |es|, [])
  {
    RestPlain(reverse, ordinals, text, es, names, 0);
    RestIsRedacted(text, es, names, 0);
    assert "" + Rest(text, es, names, 0) == Rest(text, es, names, 0) && text[0..] == text;
  }

  // ---------------------------------------------------------------------------------------------
  // Wrapper characters in the text.
  // ---------------------------------------------------------------------------------------------

  /** The text before ends with an opening wrapper and spaces, the text after begins with spaces and a closing one. */
  ghost predicate Around(before: string, after: string) {
    exists a: nat, b: nat {:trigger AllSpaces(before, a, |before|), AllSpaces(after, 0, b)} ::
      && 0 < a && AllSpaces(before, a, |before|) && IsOpen(before[a - 1])
      && AllSpaces(after, 0, b) && b < |after| && IsClose(after[b])
  }

  /** Some entity of the text stands between wrapper characters that are not part of another entity. */
  ghost predicate EnclosedFrom(text: string, es: seq<Entity>, k: nat)
    requires InText(text, es) && Chain(es)
  {
    exists i: nat :: k <= i < |es| && EnclosedAt(text, es, i)
  }

  ghost predicate EnclosedAt(text: string, es: seq<Entity>, i: nat)
    requires InText(text, es) && Chain(es) && i < |es|
  {
    Around(Gap(text, es, i), Gap(text, es, i + 1))
  }

  lemma SpacesSlice(s: string, lo: nat, hi: nat, a: nat, b: nat)
    requires lo + b <= hi <= |s|
    ensures AllSpaces(s[lo..hi], a, b) <==> AllSpaces(s, lo + a, lo + b)
  {
    var t := s[lo..hi];
    assert forall k {:trigger t[k]} :: a <= k < b ==> t[k] == s[lo + k];
    assert forall k {:trigger s[k]} :: lo + a <= k < lo + b ==> s[k] == t[k - lo];
  }

  function Moved(m: Match, d: nat): Match { Match(m.start + d, m.groupStart + d, m.groupEnd + d, m.end + d) }

  /** The wrapped placeholders of the rest are those of the whole. */
  lemma EnclosesSlice(s: string, d: nat, m: Match)
    requires d <= |s| && m.start < m.groupStart < m.groupEnd < m.end <= |s| - d
    ensures Encloses(s[d..], m) <==> Encloses(s, Moved(m, d))
  {
    var t := s[d..];
    assert t == s[d..|s|];
    SpacesSlice(s, d, |s|, m.start + 1, m.groupStart);
    SpacesSlice(s, d, |s|, m.groupEnd, m.end - 1);
    BareMoved(s, d, m.groupStart, m.groupEnd);
  }

  lemma BareMoved(s: string, d: nat, p: nat, e: nat)
    requires d + p <= |s|
    ensures Bare(s[d..], p, |s| - d) == Some(e) <==> Bare(s, d + p, |s|) == Some(d + e)
  {
    assert s[d..][p..|s| - d] == s[d + p..|s|];
    BareSame(s[d..], p, |s| - d, s, d + p, |s|);
  }

  lemma AroundEncloses(gap: string, kind: string, n: nat, rest: string)
    requires ValidKind(kind) && NoDigitFirst(rest) && Around(gap, rest)
    ensures HasWrapped(gap + Name(kind, n) + rest)
  {
    var name := Name(kind, n);
    var s, g, e := gap + name + rest, |gap|, |gap| + |name|;
    var a: nat, b: nat :| 0 < a && AllSpaces(gap, a, |gap|) && IsOpen(gap[a - 1]) && AllSpaces(rest, 0, b) && b < |rest| && IsClose(rest[b]);
    assert s[0..g] == gap && s[e..|s|] == rest && s[g..e] == name;
    SpacesSlice(s, 0, g, a, g);
    SpacesSlice(s, e, |s|, 0, b);
    NameBare(kind, n, s, g);
    assert Encloses(s, Match(a - 1, g, e, e + b + 1));
  }

  /** A wrapped placeholder that opens before the first name is that name. */
  lemma EnclosesFirst(gap: string, name: string, rest: string, m: Match)
    requires Unmarked(gap) && name != "" && name[0] == 'A' && m.start < |gap| && Encloses(gap + name + rest, m)
    ensures m.groupStart == |gap|
  {
    var s := gap + name + rest;
    BareCharacters(s, m.groupStart, |s|);
    if m.groupStart < |gap| {
      NoMarkerBefore(gap, name, rest, m.groupStart);
    }
    assert |gap| < m.groupStart ==> IsSpace(s[|gap|]);
  }

  lemma WrappersAround(gap: string, name: string, rest: string, m: Match)
    requires Encloses(gap + name + rest, m) && m.start < |gap| == m.groupStart && m.groupEnd == |gap| + |name|
    ensures Around(gap, rest)
  {
    var s, g, e := gap + name + rest, |gap|, |gap| + |name|;
    var a, b := m.start + 1, m.end - 1 - e;
    assert s[0..g] == gap && s[e..|s|] == rest;
    SpacesSlice(s, 0, g, a, g);
    SpacesSlice(s, e, |s|, 0, b);
    assert AllSpaces(gap, a, |gap|) && IsOpen(gap[a - 1]) && AllSpaces(rest, 0, b) && IsClose(rest[b]);
  }

  /** A wrapped placeholder of the whole is the first name between wrappers, or one of the rest. */
  lemma EnclosesAround(gap: string, kind: string, n: nat, rest: string, m: Match)
    requires Unmarked(gap) && ValidKind(kind) && NoDigitFirst(rest) && Encloses(gap + Name(kind, n) + rest, m)
    ensures m.start < |gap| ==> Around(gap, rest)
    ensures m.start >= |gap| ==> m.start >= |gap| + |Name(kind, n)|
  {
    var name := Name(kind, n);
    var s, g, e := gap + name + rest, |gap|, |gap| + |name|;
    assert s[g..e] == name;
    NameBare(kind, n, s, g);
    if m.start < g {
      EnclosesFirst(gap, name, rest, m);
      WrappersAround(gap, name, rest, m);
    } else {
      BareCharacters(s, g, |s|);
      assert m.start < e ==> IsIdentifier(s[m.start]);
    }
  }

  ghost predicate HasWrapped(s: string) { exists m :: Encloses(s, m) }

  lemma UnmarkedEncloses(s: string)
    requires Unmarked(s)
    ensures !HasWrapped(s)
  {
    if m :| Encloses(s, m) {
      BareCharacters(s, m.groupStart, |s|);
    }
  }

  /** Only the text up to the next name matters for a closing wrapper. */
  lemma AroundGap(before: string, after: string, tail: string)
    requires tail == "" || tail[0] == 'A'
    ensures Around(before, after + tail) <==> Around(before, after)
  {
    var whole := after + tail;
    if Around(before, after) {
      var a: nat, b: nat :| 0 < a && AllSpaces(before, a, |before|) && IsOpen(before[a - 1])
                            && AllSpaces(after, 0, b) && b < |after| && IsClose(after[b]);
      assert whole[0..|after|] == after;
      SpacesSlice(whole, 0, |after|, 0, b);
      assert IsClose(whole[b]) && AllSpaces(whole, 0, b);
    }
    if Around(before, whole) {
      var a: nat, b: nat :| 0 < a && AllSpaces(before, a, |before|) && IsOpen(before[a - 1])
                            && AllSpaces(whole, 0, b) && b < |whole| && IsClose(whole[b]);
      assert b >= |after| ==> whole[|after|] == 'A';
      assert |after| < b ==> IsSpace(whole[|after|]);
      assert whole[0..|after|] == after;
      SpacesSlice(whole, 0, |after|, 0, b);
      assert IsClose(after[b]) && AllSpaces(after, 0, b);
    }
  }

  lemma EnclosedStep(gap: string, kind: string, n: nat, rest: string, after: string, tail: string)
    requires Unmarked(gap) && ValidKind(kind) && NoDigitFirst(rest) && rest == after + tail && (tail == "" || tail[0] == 'A')
    ensures HasWrapped(gap + Name(kind, n) + rest) <==> Around(gap, after) || HasWrapped(rest)
  {
    AroundGap(gap, after, tail);
    if m :| Encloses(gap + Name(kind, n) + rest, m) {
      WrappedIn(gap, kind, n, rest, m);
    }
    if m :| Encloses(rest, m) {
      WrappedBehind(gap + Name(kind, n), rest, m);
    }
    if Around(gap, rest) {
      AroundEncloses(gap, kind, n, rest);
    }
  }

  lemma WrappedIn(gap: string, kind: string, n: nat, rest: string, m: Match)
    requires Unmarked(gap) && ValidKind(kind) && NoDigitFirst(rest) && Encloses(gap + Name(kind, n) + rest, m)
    ensures Around(gap, rest) || HasWrapped(rest)
  {
    var s, d := gap + Name(kind, n) + rest, |gap| + |Name(kind, n)|;
    EnclosesAround(gap, kind, n, rest, m);
    if m.start >= d {
      assert s[d..] == rest;
      EnclosesSlice(s, d, Match(m.start - d, m.groupStart - d, m.groupEnd - d, m.end - d));
    }
  }

  lemma WrappedBehind(front: string, rest: string, m: Match)
    requires Encloses(rest, m)
    ensures HasWrapped(front + rest)
  {
    var s := front + rest;
    assert s[|front|..] == rest;
    EnclosesSlice(s, |front|, m);
    assert Encloses(s, Moved(m, |front|));
  }

  lemma AfterGap(reverse: map<string, string>, ordinals: Ordinals, text: string, es: seq<Entity>, names: seq<string>, k: nat)
    returns (tail: string)
    requires Reversed(reverse, ordinals) && Named(ordinals, es, names, |es|) && Restorable(text, es) && k <= |es| == |names|
    ensures k < |es| ==> names[k] != "" && names[k][0] == 'A'
    ensures Rest(text, es, names, k) == Gap(text, es, k) + tail && (tail == "" || tail[0] == 'A')
  {
    tail := "";
    if k < |es| {
      var _ := NamedAt(reverse, ordinals, text, es, names, k);
      tail := names[k] + Rest(text, es, names, k + 1);
    }
  }

  lemma FromNext(text: string, es: seq<Entity>, k: nat)
    requires InText(text, es) && Chain(es) && k < |es|
    ensures EnclosedFrom(text, es, k) <==> EnclosedAt(text, es, k) || EnclosedFrom(text, es, k + 1)
  {
  }

  lemma RestEnclosesStep(text: string, es: seq<Entity>, k: nat, n: nat, rest: string, tail: string)
    requires Restorable(text, es) && k < |es| && ValidKind(es[k].kind) && NoDigitFirst(rest)
    requires rest == Gap(text, es, k + 1) + tail && (tail == "" || tail[0] == 'A')
    requires HasWrapped(rest) <==> EnclosedFrom(text, es, k + 1)
    ensures HasWrapped(Gap(text, es, k) + Name(es[k].kind, n) + rest) <==> EnclosedFrom(text, es, k)
  {
    EnclosedStep(Gap(text, es, k), es[k].kind, n, rest, Gap(text, es, k + 1), tail);
    FromNext(text, es, k);
  }

  lemma {:induction false} RestEncloses(reverse: map<string, string>, ordinals: Ordinals, text: string, es: seq<Entity>,
                                        names: seq<string>, k: nat)
    requires Reversed(reverse, ordinals) && Named(ordinals, es, names, |es|) && Restorable(text, es) && k <= |es| == |names|
    ensures HasWrapped(Rest(text, es, names, k)) <==> EnclosedFrom(text, es, k)
    decreases |es| - k
  {
    if k == |es| {
      UnmarkedEncloses(Gap(text, es, k));
    } else {
      RestEncloses(reverse, ordinals, text, es, names, k + 1);
      var n := NamedAt(reverse, ordinals, text, es, names, k);
      var tail := AfterGap(reverse, ordinals, text, es, names, k + 1);
      RestStarts(text, es, names, k + 1);
      RestEnclosesStep(text, es, k, n, Rest(text, es, names, k + 1), tail);
    }
  }

  lemma RedactedEncloses(reverse: map<string, string>, ordinals: Ordinals, text: string, es: seq<Entity>, names: seq<string>)
    requires Reversed(reverse, ordinals) && Named(ordinals, es, names, |es|) && |names| == |es| && Restorable(text, es)
    ensures HasWrapped(Redacted(text, es, names)) <==> EnclosedFrom(text, es, 0)
  {
    RestEncloses(reverse, ordinals, text, es, names, 0);
    RestIsRedacted(text, es, names, 0);
    assert "" + Rest(text, es, names, 0) == Rest(text, es, names, 0);
  }

  // ---------------------------------------------------------------------------------------------
  // Which redacted texts can be restored as a stream.
  // ---------------------------------------------------------------------------------------------

  /** No token marker stands in the text between the entities, and each placeholder is at most one byte longer than the search
      looks back, with no second marker in it. */
  ghost predicate Flows(text: string, es: seq<Entity>, names: seq<string>)
    requires InText(text, es) && Chain(es) && |names| == |es|
  {
    FlowsFrom(text, es, names, 0)
  }

  ghost predicate FlowsFrom(text: string, es: seq<Entity>, names: seq<string>, k: nat)
    requires InText(text, es) && Chain(es) && |names| == |es|
  {
    && (forall i: nat {:trigger Gap(text, es, i)} :: k <= i <= |es| ==> NoneAnywhere(Gap(text, es, i), TOKEN_MARKER))
    && (forall i: nat {:trigger names[i]} :: k <= i < |es| ==> ShortName(names[i]))
  }

  ghost predicate ShortName(name: string) {
    |name| <= WINDOW + 1 && forall p: nat :: 0 < p ==> !At(name, p, MARKER)
  }

  /** A marker of either kind stands in the text before the name, or in the name, or behind it. */
  lemma MarkersOfParts(gap: string, name: string, rest: string, marker: string)
    requires marker != []
    ensures var s, g, e := gap + name + rest, |gap|, |gap| + |name|;
            && (forall p: nat :: p + |marker| <= g ==> (At(s, p, marker) <==> At(gap, p, marker)))
            && (forall p: nat :: g <= p && p + |marker| <= e ==> (At(s, p, marker) <==> At(name, p - g, marker)))
            && (forall p: nat :: e <= p ==> (At(s, p, marker) <==> At(rest, p - e, marker)))
  {
    var s, g, e := gap + name + rest, |gap|, |gap| + |name|;
    ThreeParts(gap, name, rest);
    forall p: nat | p + |marker| <= g ensures At(s, p, marker) <==> At(gap, p, marker) {
      AtInText(s, 0, g, p, marker);
    }
    forall p: nat | g <= p && p + |marker| <= e ensures At(s, p, marker) <==> At(name, p - g, marker) {
      AtInText(s, g, e, p - g, marker);
    }
    forall p: nat | e <= p ensures At(s, p, marker) <==> At(rest, p - e, marker) {
      AtInText(s, e, |s|, p - e, marker);
    }
  }

  /** No token marker reaches into a placeholder from either side. */
  lemma SegmentTokens(gap: string, kind: string, n: nat, rest: string)
    requires ValidKind(kind)
    ensures NoneAnywhere(gap + Name(kind, n) + rest, TOKEN_MARKER) <==> NoneAnywhere(gap, TOKEN_MARKER) && NoneAnywhere(rest, TOKEN_MARKER)
  {
    var name := Name(kind, n);
    var s, g, e := gap + name + rest, |gap|, |gap| + |name|;
    MarkersOfParts(gap, name, rest, TOKEN_MARKER);
    NameCharacters(kind, n);
    assert s[g] == name[0] == 'A' && Upper(s[g]) == 'A';
    forall p: nat | p < e && p + 5 > g ensures !At(s, p, TOKEN_MARKER) {
      if p >= g {
        assert s[p] == name[p - g] && IsIdentifier(name[p - g]);
        assert At(s, p, TOKEN_MARKER) ==> Upper(s[p]) == '[';
      }
    }
    if NoneAnywhere(s, TOKEN_MARKER) {
      forall p: nat ensures !At(gap, p, TOKEN_MARKER) && !At(rest, p, TOKEN_MARKER) {
        assert !At(s, p, TOKEN_MARKER) && !At(s, e + p, TOKEN_MARKER);
      }
    }
  }

  lemma NameCharacters(kind: string, n: nat)
    requires ValidKind(kind)
    ensures var name := Name(kind, n); |name| >= 14 && name[0] == 'A' && IsDigit(name[|name| - 1])
    ensures forall i {:trigger Name(kind, n)[i]} :: 0 <= i < |Name(kind, n)| ==> IsIdentifier(Name(kind, n)[i])
  {
    var name := Name(kind, n);
    assert name[0..|name|] == name;
    NameBare(kind, n, name, 0);
    BareCharacters(name, 0, |name|);
  }

  /** Up to the end of the name the only marker is its own. */
  lemma OneMarker(gap: string, kind: string, n: nat, rest: string, p: nat)
    requires Unmarked(gap) && ValidKind(kind) && ShortName(Name(kind, n)) && p < |gap| + |Name(kind, n)| && p != |gap|
    ensures !At(gap + Name(kind, n) + rest, p, MARKER)
  {
    var name := Name(kind, n);
    var s, g, e := gap + name + rest, |gap|, |gap| + |name|;
    NameCharacters(kind, n);
    if p < g {
      NoMarkerBefore(gap, name, rest, p);
    } else {
      MarkersOfParts(gap, name, rest, MARKER);
      assert s[e - 1] == name[|name| - 1] && IsDigit(s[e - 1]) && Upper(s[e - 1]) == s[e - 1];
      assert forall k :: 0 <= k < 11 ==> !IsDigit(MARKER[k]);
    }
  }

  /** The placeholders are the name itself and those behind it. */
  lemma SegmentPlaceholders(gap: string, kind: string, n: nat, rest: string, a: nat, b: nat)
    requires Unmarked(gap) && ValidKind(kind) && NoDigitFirst(rest) && ShortName(Name(kind, n))
    ensures var s, g, e := gap + Name(kind, n) + rest, |gap|, |gap| + |Name(kind, n)|;
            PlaceholderAt(s, a, b) <==> (a == g && b == e) || (e <= a && e <= b && PlaceholderAt(rest, a - e, b - e))
  {
    var name := Name(kind, n);
    var s, g, e := gap + name + rest, |gap|, |gap| + |name|;
    ThreeParts(gap, name, rest);
    if a == g {
      NameBare(kind, n, s, g);
    } else if a < e {
      OneMarker(gap, kind, n, rest, a);
      NoPlaceholder(s, a, b);
    } else {
      assert s[e..] == rest;
      PlaceholderBehind(s, e, a, b);
    }
  }

  lemma NoPlaceholder(s: string, a: nat, b: nat)
    requires !At(s, a, MARKER)
    ensures !PlaceholderAt(s, a, b)
  {
    if PlaceholderAt(s, a, b) {
      PlaceholderText(s, a, b);
    }
  }

  lemma PlaceholderBehind(s: string, e: nat, a: nat, b: nat)
    requires e <= a && e <= |s|
    ensures PlaceholderAt(s, a, b) <==> e <= b && PlaceholderAt(s[e..], a - e, b - e)
  {
    if a < b <= |s| {
      BareMoved(s, e, a - e, b - e);
    }
  }

  /** A segment in front of a text leaves it streamable if its own placeholder is short and it has no token marker. */
  lemma SegmentStreams(gap: string, kind: string, n: nat, rest: string)
    requires Unmarked(gap) && ValidKind(kind) && NoDigitFirst(rest)
    ensures Streamable(gap + Name(kind, n) + rest) <==> NoneAnywhere(gap, TOKEN_MARKER) && ShortName(Name(kind, n)) && Streamable(rest)
  {
    var name := Name(kind, n);
    var s, g, e := gap + name + rest, |gap|, |gap| + |name|;
    SegmentTokens(gap, kind, n, rest);
    assert NoneAnywhere(s, TOKEN_MARKER) <==> forall p: nat :: !At(s, p, TOKEN_MARKER);
    assert NoneAnywhere(rest, TOKEN_MARKER) <==> forall p: nat :: !At(rest, p, TOKEN_MARKER);
    if Streamable(s) {
      StreamsShort(gap, kind, n, rest);
    }
    if ShortName(name) {
      SegmentFits(gap, kind, n, rest);
    }
  }

  lemma StreamsShort(gap: string, kind: string, n: nat, rest: string)
    requires ValidKind(kind) && NoDigitFirst(rest) && Streamable(gap + Name(kind, n) + rest)
    ensures ShortName(Name(kind, n))
  {
    var name := Name(kind, n);
    var s, g, e := gap + name + rest, |gap|, |gap| + |name|;
    ThreeParts(gap, name, rest);
    NameBare(kind, n, s, g);
    NameCharacters(kind, n);
    assert PlaceholderAt(s, g, e) && NoMarkerInside(s, g, e);
    forall p: nat | 0 < p ensures !At(name, p, MARKER) {
      AtInText(s, g, e, p, MARKER);
    }
  }

  /** Every placeholder of a text is short enough to be streamed, with no marker in it. */
  ghost predicate AllFit(s: string) {
    forall a: nat, b: nat :: PlaceholderAt(s, a, b) ==> b - a <= WINDOW + 1 && NoMarkerInside(s, a, b)
  }

  lemma SegmentFits(gap: string, kind: string, n: nat, rest: string)
    requires Unmarked(gap) && ValidKind(kind) && NoDigitFirst(rest) && ShortName(Name(kind, n))
    ensures AllFit(gap + Name(kind, n) + rest) <==> AllFit(rest)
  {
    var name := Name(kind, n);
    var s, g, e := gap + name + rest, |gap|, |gap| + |name|;
    MarkersOfParts(gap, name, rest, MARKER);
    if AllFit(rest) {
      forall a: nat, b: nat | PlaceholderAt(s, a, b) ensures b - a <= WINDOW + 1 && NoMarkerInside(s, a, b) {
        SegmentPlaceholders(gap, kind, n, rest, a, b);
        if a == g {
          forall p: nat | g < p < e ensures !At(s, p, MARKER) {
            OneMarker(gap, kind, n, rest, p);
          }
        } else {
          assert NoMarkerInside(rest, a - e, b - e);
          forall p: nat | a < p < b ensures !At(s, p, MARKER) {
            assert !At(rest, p - e, MARKER);
          }
        }
      }
    }
    if AllFit(s) {
      forall a: nat, b: nat | PlaceholderAt(rest, a, b) ensures b - a <= WINDOW + 1 && NoMarkerInside(rest, a, b) {
        SegmentPlaceholders(gap, kind, n, rest, e + a, e + b);
        assert NoMarkerInside(s, e + a, e + b);
        forall p: nat | a < p < b ensures !At(rest, p, MARKER) {
          assert !At(s, e + p, MARKER);
        }
      }
    }
  }

  /** From every gap on, the redacted text can be streamed exactly if the gaps and names allow it. */
  lemma {:induction false} RestStreams(reverse: map<string, string>, ordinals: Ordinals, text: string, es: seq<Entity>,
                                       names: seq<string>, k: nat)
    requires Reversed(reverse, ordinals) && Named(ordinals, es, names, |es|) && Restorable(text, es) && k <= |es| == |names|
    ensures Streamable(Rest(text, es, names, k)) <==> FlowsFrom(text, es, names, k)
    decreases |es| - k
  {
    if k == |es| {
      TailStreams(text, es, names);
    } else {
      RestStreams(reverse, ordinals, text, es, names, k + 1);
      var n := NextParts(reverse, ordinals, text, es, names, k);
      RestStreamsStep(text, es, names, k, n, Rest(text, es, names, k + 1), Rest(text, es, names, k));
    }
  }

  lemma TailStreams(text: string, es: seq<Entity>, names: seq<string>)
    requires Restorable(text, es) && |es| == |names|
    ensures Streamable(Rest(text, es, names, |es|)) <==> FlowsFrom(text, es, names, |es|)
  {
    UnmarkedStreams(Gap(text, es, |es|));
  }

  /** The next gap and name, and what follows. */
  lemma NextParts(reverse: map<string, string>, ordinals: Ordinals, text: string, es: seq<Entity>, names: seq<string>, k: nat)
    returns (n: nat)
    requires Reversed(reverse, ordinals) && Named(ordinals, es, names, |es|) && Restorable(text, es) && k < |es| == |names|
    ensures ValidKind(es[k].kind) && names[k] == Name(es[k].kind, n) && NoDigitFirst(Rest(text, es, names, k + 1))
    ensures Rest(text, es, names, k) == Gap(text, es, k) + Name(es[k].kind, n) + Rest(text, es, names, k + 1)
  {
    n := NamedAt(reverse, ordinals, text, es, names, k);
    NoDigitNext(reverse, ordinals, text, es, names, k + 1);
  }

  lemma RestStreamsStep(text: string, es: seq<Entity>, names: seq<string>, k: nat, n: nat, rest: string, whole: string)
    requires Restorable(text, es) && k < |es| == |names| && ValidKind(es[k].kind) && names[k] == Name(es[k].kind, n)
    requires NoDigitFirst(rest) && (Streamable(rest) <==> FlowsFrom(text, es, names, k + 1))
    requires whole == Gap(text, es, k) + Name(es[k].kind, n) + rest
    ensures Streamable(whole) <==> FlowsFrom(text, es, names, k)
  {
    SegmentStreams(Gap(text, es, k), es[k].kind, n, rest);
    FlowsNext(text, es, names, k);
  }

  lemma UnmarkedStreams(s: string)
    requires Unmarked(s)
    ensures Streamable(s) <==> NoneAnywhere(s, TOKEN_MARKER)
  {
    forall a: nat, b: nat ensures !PlaceholderAt(s, a, b) {
      NoPlaceholder(s, a, b);
    }
  }

  lemma FlowsNext(text: string, es: seq<Entity>, names: seq<string>, k: nat)
    requires InText(text, es) && Chain(es) && k < |es| == |names|
    ensures FlowsFrom(text, es, names, k) <==>
            NoneAnywhere(Gap(text, es, k), TOKEN_MARKER) && ShortName(names[k]) && FlowsFrom(text, es, names, k + 1)
  {
    if NoneAnywhere(Gap(text, es, k), TOKEN_MARKER) && ShortName(names[k]) && FlowsFrom(text, es, names, k + 1) {
      forall i: nat | k <= i <= |es| ensures NoneAnywhere(Gap(text, es, i), TOKEN_MARKER) {
      }
    }
  }

  lemma RedactedStreams(reverse: map<string, string>, ordinals: Ordinals, text: string, es: seq<Entity>, names: seq<string>)
    requires Reversed(reverse, ordinals) && Named(ordinals, es, names, |es|) && Restorable(text, es) && |es| == |names|
    ensures Streamable(Redacted(text, es, names)) <==> Flows(text, es, names)
  {
    RestStreams(reverse, ordinals, text, es, names, 0);
    RestIsRedacted(text, es, names, 0);
    assert "" + Rest(text, es, names, 0) == Rest(text, es, names, 0);
  }

  /** Restoring a redacted text finds every entity and no phantom, and gives the original back if and only if no entity
      stands between wrapper characters. Restoring it as a stream gives the original back in either case. */
  lemma RoundTrip(forward: map<string, string>, reverse: map<string, string>, counters: map<string, nat>,
                  ordinals: Ordinals, text: string, es: seq<Entity>, names: seq<string>)
    requires Numbering(forward, reverse, counters, ordinals)
    requires Named(ordinals, es, names, |es|) && |names| == |es| && Restorable(text, es)
    ensures var r := Unredacted(reverse, Redacted(text, es, names));
            && r.restored == |es| && r.phantom == []
            && (r.text == text <==> !EnclosedFrom(text, es, 0))
    ensures Flows(text, es, names) <==> Streamable(Redacted(text, es, names))
    ensures Flows(text, es, names) ==> Stream(reverse, "", Redacted(text, es, names)) == Restoration(text, |es|, [])
  {
    var out := Redacted(text, es, names);
    RedactedPlain(reverse, ordinals, text, es, names);
    RedactedEncloses(reverse, ordinals, text, es, names);
    RedactedStreams(reverse, ordinals, text, es, names);
    WrapperLaw(reverse, out);
    LostIff(reverse, out);
    if Streamable(out) {
      StreamTheorem(reverse, out);
    }
  }

  const BETWEEN := "[x]"
  const NAMED_X := Entity("NAME", "x", 1, 2, 0.9, "dictionary")

  /** A text with a single entity. */
  lemma Single(text: string, e: Entity, name: string)
    requires 0 <= e.start <= e.end <= |text|
    ensures InText(text, [e]) && Chain([e])
    ensures Gap(text, [e], 0) == text[..e.start] && Gap(text, [e], 1) == text[e.end..]
    ensures Redacted(text, [e], [name]) == text[..e.start] + name + text[e.end..]
  {
    assert LastEnd([e], 0) == 0 && LastEnd([e], 1) == e.end;
    assert Written(text, [e], [name], 0) == "";
  }

  lemma BetweenIsRestorable()
    ensures Restorable(BETWEEN, [NAMED_X]) && EnclosedFrom(BETWEEN, [NAMED_X], 0)
  {
    Single(BETWEEN, NAMED_X, "");
    assert BETWEEN[..1] == "[" && BETWEEN[2..] == "]";
    assert BETWEEN[1..2] == "x";
    BracketAround();
    assert EnclosedAt(BETWEEN, [NAMED_X], 0);
  }

  lemma BracketAround()
    ensures Around("[", "]") && Unmarked("[") && Unmarked("]")
  {
    assert AllSpaces("[", 1, 1) && AllSpaces("]", 0, 0);
  }

  lemma NamedIs()
    ensures Named(map[("NAME", "x") := 0], [NAMED_X], ["ANONYMIZED_NAME_0"], 1)
  {
    assert Name("NAME", 0) == "ANONYMIZED_NAME_0";
    assert NameIs(map[("NAME", "x") := 0], NAMED_X, "ANONYMIZED_NAME_0");
  }

  /** An entity between brackets comes back without them. */
  lemma BracketsAreLost(reverse: map<string, string>)
    requires "ANONYMIZED_NAME_0" in reverse && reverse["ANONYMIZED_NAME_0"] == "x"
    ensures Restorable(BETWEEN, [NAMED_X]) && EnclosedFrom(BETWEEN, [NAMED_X], 0)
    ensures Named(map[("NAME", "x") := 0], [NAMED_X], ["ANONYMIZED_NAME_0"], 1)
    ensures Unredacted(reverse, Redacted(BETWEEN, [NAMED_X], ["ANONYMIZED_NAME_0"])) == Restoration("x", 1, [])
  {
    BetweenIsRestorable();
    NamedIs();
    BetweenRedacted();
    BracketsDiffer(reverse, "x");
  }

  lemma BetweenRedacted()
    ensures InText(BETWEEN, [NAMED_X]) && Chain([NAMED_X])
    ensures Redacted(BETWEEN, [NAMED_X], ["ANONYMIZED_NAME_0"]) == BRACKETED
  {
    Single(BETWEEN, NAMED_X, "ANONYMIZED_NAME_0");
  }

  /** Restored in chunks of any size there is no phantom, one entity is missing for each chunk that overtakes a placeholder, and
      so every entity is found if and only if no chunk does; then the original comes back when no entity stands between
      wrapper characters. */
  lemma RoundTripInChunks(forward: map<string, string>, reverse: map<string, string>, counters: map<string, nat>,
                          ordinals: Ordinals, text: string, es: seq<Entity>, names: seq<string>, chunks: seq<string>)
    requires Numbering(forward, reverse, counters, ordinals)
    requires Named(ordinals, es, names, |es|) && |names| == |es| && Restorable(text, es)
    requires Flows(text, es, names) && Concat(chunks) == Redacted(text, es, names)
    ensures var r, lost := Chunked(reverse, "", chunks), Lost(Concat(chunks), 0, chunks);
            && r.phantom == [] && r.restored + lost == |es| && (r.restored == |es| <==> lost == 0)
            && (lost == 0 && !EnclosedFrom(text, es, 0) ==> r.text == text)
  {
    RoundTrip(forward, reverse, counters, ordinals, text, es, names);
    RedactedEncloses(reverse, ordinals, text, es, names);
    ChunkTheorem(reverse, Concat(chunks), chunks);
  }
}
