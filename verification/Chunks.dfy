/** Streams fed in chunks of any size (pii/anonymize/redactor.go): when cutting them up changes nothing. */
module Chunks {
  import opened Wrappers
  import opened Placeholders
  import opened Streaming

  /** What feeding chunks and then flushing yields, from what is held on. */
  ghost function Chunked(reverse: map<string, string>, held: string, chunks: seq<string>): Restoration
    decreases |chunks|
  {
    if chunks == [] then Unredacted(reverse, held)
    else
      var buf := held + chunks[0];
      var safe := SafePrefix(buf);
      Unredacted(reverse, buf[..safe]).Then(Chunked(reverse, buf[safe..], chunks[1..]))
  }

  function Concat(chunks: seq<string>): string { if chunks == [] then "" else chunks[0] + Concat(chunks[1..]) }

  /** A placeholder of the text reaches across a position. */
  ghost predicate Crosses(text: string, e: nat) {
    exists a: nat, b: nat :: PlaceholderAt(text, a, b) && a < e < b
  }

  /** The chunk text[k..e] ends a placeholder that lies within the last 64 bytes, has no marker after it, and stops within
      the marker of another placeholder. */
  ghost predicate Overtakes(text: string, k: nat, e: nat) {
    (exists p: nat, q: nat :: Ends(text, k, e, p, q)) && Begun(text, e)
  }

  ghost predicate Ends(text: string, k: nat, e: nat, p: nat, q: nat) {
    && PlaceholderAt(text, p, q) && k <= q < e <= |text| && e <= p + WINDOW
    && !IsIdentifier(text[q]) && NoneAfter(text, p, e)
  }

  ghost predicate Begun(text: string, e: nat) {
    exists a: nat, b: nat :: PlaceholderAt(text, a, b) && a < e < a + 11
  }

  ghost predicate NoneAfter(text: string, x: nat, e: nat) {
    forall q: nat :: x < q && q + 11 <= e ==> !At(text, q, MARKER)
  }

  /** How many chunks from position k on end like that. Behind such a chunk the text counts anew. */
  ghost function Lost(text: string, k: nat, chunks: seq<string>): nat
    decreases |chunks|
  {
    if chunks == [] then 0
    else
      var e := k + |chunks[0]|;
      if e <= |text| && Overtakes(text, k, e) then 1 + Lost(text[e..], 0, chunks[1..]) else Lost(text, e, chunks[1..])
  }

  /** The state before a feed, with text up to k read and up to c let go: no placeholder is cut, one that has not been closed
      is held, if the search can see it, and one that has been closed is not. */
  ghost predicate Ready(text: string, c: nat, k: nat) {
    && c <= k <= |text| && SafeCut(text, c)
    && (forall p: nat, q: nat :: PlaceholderAt(text, p, q) && q < p + WINDOW && k <= q ==> c <= p)
    && (forall p: nat, q: nat :: PlaceholderAt(text, p, q) && q < k && !IsIdentifier(text[q]) ==> p < c)
  }

  // ---------------------------------------------------------------------------------------------
  // Where the cuts fall.
  // ---------------------------------------------------------------------------------------------

  /** What is held for a placeholder marker, in terms of the text: nothing, for the last marker that the search sees is that of
      a closed placeholder; or from an open last marker on; or what may be the beginning of a marker. */
  ghost predicate Outcome(text: string, c: nat, e: nat, x: nat, hold: Hold) {
    match hold
    case Closed(p) => x == e && EndsAt(text, e, c + p)
    case _ => MarkerHold(text, c, e, x, hold)
  }

  ghost predicate EndsAt(text: string, e: nat, p: nat) { exists q: nat :: Ends(text, 0, e, p, q) }

  lemma HoldOutcome(text: string, c: nat, e: nat) returns (x: nat, hold: Hold)
    requires c <= e <= |text|
    ensures x == c + HoldPoint(text[c..e], MARKER, CompletePlaceholder) <= e && Outcome(text, c, e, x, hold)
  {
    var r := HoldPoint(text[c..e], MARKER, CompletePlaceholder);
    hold := HoldPointCases(text[c..e], MARKER, CompletePlaceholder);
    OutcomeOf(text, c, e, r, hold);
    x := c + r;
  }

  lemma OutcomeOf(text: string, c: nat, e: nat, r: nat, hold: Hold)
    requires c <= e <= |text| && HoldCase(text[c..e], MARKER, CompletePlaceholder, r, hold)
    ensures Outcome(text, c, e, c + r, hold)
  {
    match hold
    case Closed(p) => ClosedEnds(text, c, e, p);
    case Open => OpenInText(text, c, e, r);
    case Partial(n) => PartialInText(text, c, e, r);
  }

  /** The construct at a complete last marker has ended within the buffer. */
  lemma ClosedEnds(text: string, c: nat, e: nat, p: nat)
    requires c <= e <= |text| && e - c <= p + WINDOW
    requires At(text[c..e], p, MARKER) && CompletePlaceholder(text[c..e][p..]) && LastFrom(text[c..e], p, MARKER)
    ensures EndsAt(text, e, c + p)
  {
    LastInText(text, c, e, p);
    assert text[c..e][p..] == text[c + p..e];
    var a, q := CompleteInText(text, c + p, e);
    PlaceholderText(text, a, q);
    assert Ends(text, 0, e, c + p, q);
  }

  lemma LastInText(text: string, c: nat, e: nat, p: nat)
    requires c <= e <= |text| && LastFrom(text[c..e], p, MARKER)
    ensures NoneAfter(text, c + p, e)
  {
    forall q: nat | c + p < q && q + 11 <= e ensures !At(text, q, MARKER) {
      AtInText(text, c, e, q - c, MARKER);
    }
  }

  /** No hold point of the placeholder marker lies inside a placeholder, but the end of the buffer may, as long as the
      marker of that placeholder has not been read. */
  lemma HoldOutside(text: string, c: nat, e: nat, x: nat, hold: Hold, a: nat, b: nat)
    requires Streamable(text) && c <= a && PlaceholderAt(text, a, b) && Outcome(text, c, e, x, hold)
    ensures x <= e <= |text| && (a < x < b ==> x == e < a + 11 && hold.Closed?)
  {
    PlaceholderText(text, a, b);
    assert NoMarkerInside(text, a, b);
    match hold
    case Closed(p) =>
      var q: nat :| Ends(text, 0, e, c + p, q);
      PlaceholderText(text, c + p, q);
      assert NoMarkerInside(text, c + p, q);
    case Open =>
    case Partial(n) =>
      assert forall i :: x <= i < e ==> !IsDigit(text[i]);
  }

  /** A chunk that overtakes lets everything go. */
  lemma OvertakenGoes(text: string, c: nat, k: nat, e: nat, x: nat, hold: Hold, p: nat, q: nat)
    requires Ends(text, k, e, p, q) && c <= p && Outcome(text, c, e, x, hold)
    ensures x == e
  {
    PlaceholderText(text, p, q);
  }

  lemma OvertakenHoldsNothing(text: string, c: nat, k: nat, e: nat)
    requires Streamable(text) && Ready(text, c, k) && k <= e <= |text| && Overtakes(text, k, e)
    ensures c + SafePrefix(text[c..e]) == e
  {
    var p: nat, q: nat :| Ends(text, k, e, p, q);
    var x, hold := HoldOutcome(text, c, e);
    OvertakenGoes(text, c, k, e, x, hold, p, q);
    BegunHoldsNoToken(text, c, e);
  }

  /** Where a marker has begun no token marker has. */
  lemma BegunHoldsNoToken(text: string, c: nat, e: nat)
    requires Streamable(text) && c <= e <= |text| && Begun(text, e)
    ensures c + HoldPoint(text[c..e], TOKEN_MARKER, CompleteToken) == e
  {
    var a: nat, b: nat :| PlaceholderAt(text, a, b) && a < e < a + 11;
    PlaceholderText(text, a, b);
    TokenHold(text, c, e);
    var y := c + HoldPoint(text[c..e], TOKEN_MARKER, CompleteToken);
    assert Upper(text[a]) == MARKER[0];
  }

  /** A chunk at whose end everything is let go in the middle of a placeholder overtakes it. */
  lemma CutIsOvertaken(text: string, c: nat, k: nat, e: nat, hold: Hold, a: nat, b: nat)
    requires Streamable(text) && Ready(text, c, k) && PlaceholderAt(text, a, b) && c <= a < e < b
    requires Outcome(text, c, e, e, hold)
    ensures Overtakes(text, k, e)
  {
    HoldOutside(text, c, e, e, hold, a, b);
    var q: nat :| Ends(text, 0, e, c + hold.at, q);
    assert Ends(text, k, e, c + hold.at, q);
  }

  /** Unless the chunk overtakes, no placeholder is cut. */
  lemma CutIsSafe(text: string, c: nat, k: nat, e: nat, cut: nat)
    requires Streamable(text) && Ready(text, c, k) && k <= e <= |text| && !Overtakes(text, k, e)
    requires cut == c + SafePrefix(text[c..e])
    ensures SafeCut(text, cut)
  {
    TokenHold(text, c, e);
    var x, hold := HoldOutcome(text, c, e);
    forall a: nat, b: nat | PlaceholderAt(text, a, b) && a < cut ensures b <= cut {
      if c <= a && cut < b {
        PlaceholderText(text, a, b);
        assert cut < e ==> IsIdentifier(text[cut]);
        HoldOutside(text, c, e, x, hold, a, b);
        CutIsOvertaken(text, c, k, e, hold, a, b);
      }
    }
  }

  /** A placeholder that has just been read in full is held when the search can see it; one that has been closed is not. */
  lemma HeldUntilClosed(text: string, c: nat, e: nat, x: nat, hold: Hold, p: nat, q: nat)
    requires Streamable(text) && c <= p && PlaceholderAt(text, p, q) && q <= e && Outcome(text, c, e, x, hold)
    ensures q == e < p + WINDOW ==> x <= p
    ensures q < e && !IsIdentifier(text[q]) ==> p < x
  {
    PlaceholderText(text, p, q);
    assert NoMarkerInside(text, p, q);
    if hold.Closed? {
      var q': nat :| Ends(text, 0, e, c + hold.at, q');
    }
  }

  lemma CutOf(text: string, c: nat, e: nat, p: nat) returns (x: nat, hold: Hold)
    requires Streamable(text) && c <= e <= |text|
    ensures Outcome(text, c, e, x, hold)
    ensures var cut := c + SafePrefix(text[c..e]); cut <= x <= e && (p < x && p + 4 < e ==> p < cut)
  {
    TokenHold(text, c, e);
    x, hold := HoldOutcome(text, c, e);
  }

  lemma NextReady(text: string, c: nat, k: nat, e: nat, cut: nat)
    requires Streamable(text) && Ready(text, c, k) && k <= e <= |text| && !Overtakes(text, k, e)
    requires cut == c + SafePrefix(text[c..e])
    ensures Ready(text, cut, e)
  {
    CutIsSafe(text, c, k, e, cut);
    forall p: nat, q: nat | PlaceholderAt(text, p, q) && q < p + WINDOW && e <= q ensures cut <= p {
      if q == e {
        var x, hold := CutOf(text, c, e, p);
        HeldUntilClosed(text, c, e, x, hold, p, q);
      }
    }
    forall p: nat, q: nat | PlaceholderAt(text, p, q) && q < e && !IsIdentifier(text[q]) ensures p < cut {
      if c <= p {
        PlaceholderText(text, p, q);
        var x, hold := CutOf(text, c, e, p);
        HeldUntilClosed(text, c, e, x, hold, p, q);
      }
    }
  }

  /** From a ready state a feed cuts a placeholder if and only if the chunk overtakes one, and otherwise leads to a ready state. */
  lemma FeedCuts(text: string, c: nat, k: nat, e: nat)
    requires Streamable(text) && Ready(text, c, k) && k <= e <= |text|
    ensures var cut := c + SafePrefix(text[c..e]);
            && (Overtakes(text, k, e) ==> cut == e && Crosses(text, e))
            && (!Overtakes(text, k, e) ==> Ready(text, cut, e))
            && (SafeCut(text, cut) <==> !Overtakes(text, k, e))
  {
    if Overtakes(text, k, e) {
      OvertakenHoldsNothing(text, c, k, e);
      BegunCrosses(text, e);
    } else {
      NextReady(text, c, k, e, c + SafePrefix(text[c..e]));
    }
  }

  /** What follows is a text of its own, ready to be read. */
  lemma RestIsText(text: string, e: nat)
    requires Streamable(text) && e <= |text|
    ensures Streamable(text[e..]) && Ready(text[e..], 0, 0)
  {
    var rest := text[e..];
    forall a: nat, b: nat | PlaceholderAt(rest, a, b) ensures b - a <= WINDOW + 1 && NoMarkerInside(rest, a, b) {
      BareSame(rest, a, |rest|, text, e + a, |text|);
      assert PlaceholderAt(text, e + a, e + b);
      assert text[e..|text|] == rest;
      forall p: nat | a < p < b ensures !At(rest, p, MARKER) {
        AtInText(text, e, |text|, p, MARKER);
      }
    }
    forall p: nat ensures !At(rest, p, TOKEN_MARKER) {
      assert text[e..|text|] == rest;
      AtInText(text, e, |text|, p, TOKEN_MARKER);
    }
  }

  // ---------------------------------------------------------------------------------------------
  // What comes out.
  // ---------------------------------------------------------------------------------------------

  /** The same placeholders, and for a text without wrapped ones the same text. */
  ghost predicate Agrees(text: string, r: Restoration, plain: Restoration) {
    && r.restored == plain.restored && r.phantom == plain.phantom
    && ((forall m :: !Encloses(text, m)) ==> r == plain)
  }

  /** A wrapped placeholder of a piece is one of the text. */
  lemma EnclosedInText(text: string, c: nat, e: nat, m: Match)
    requires c <= e <= |text| && Encloses(text[c..e], m)
    ensures Encloses(text, Match(c + m.start, c + m.groupStart, c + m.groupEnd, c + m.end))
  {
    var piece := text[c..e];
    assert forall i {:trigger text[i]} :: c <= i < e ==> text[i] == piece[i - c];
    BareInText(text, c, e, m.groupStart, m.groupEnd);
  }

  lemma BareInText(text: string, c: nat, e: nat, a: nat, b: nat)
    requires c <= e <= |text| && Bare(text[c..e], a, e - c) == Some(b) && b < e - c
    ensures Bare(text, c + a, |text|) == Some(c + b)
  {
    SliceOfSlice(text, c, e, a);
    BareSame(text[c..e], a, e - c, text, c + a, e);
    BareExtends(text, c + a, e, |text|);
  }

  lemma PieceAgrees(reverse: map<string, string>, text: string, c: nat, e: nat)
    requires c <= e <= |text|
    ensures Agrees(text, Unredacted(reverse, text[c..e]), Plain(reverse, text, c, e))
  {
    var piece := text[c..e];
    assert piece[0..|piece|] == piece;
    PlainSame(reverse, piece, 0, |piece|, text, c, e);
    WrapperLaw(reverse, piece);
    LostIff(reverse, piece);
    if forall m :: !Encloses(text, m) {
      forall m ensures !Encloses(piece, m) {
        if Encloses(piece, m) {
          EnclosedInText(text, c, e, m);
        }
      }
    }
  }

  lemma AgreesThen(text: string, r: Restoration, p: Restoration, r': Restoration, p': Restoration)
    requires Agrees(text, r, p) && Agrees(text, r', p')
    ensures Agrees(text, r.Then(r'), p.Then(p'))
  {
  }

  /** What is lost of a text: so many placeholders fewer, none made up. */
  ghost predicate Fewer(r: Restoration, plain: Restoration, n: nat) {
    && r.restored + |r.phantom| + n == plain.restored + |plain.phantom|
    && r.restored <= plain.restored && |r.phantom| <= |plain.phantom|
  }

  lemma FewerThen(r: Restoration, p: Restoration, n: nat, r': Restoration, p': Restoration, n': nat)
    requires Fewer(r, p, n) && Fewer(r', p', n')
    ensures Fewer(r.Then(r'), p.Then(p'), n + n')
  {
  }

  /** A placeholder begins where no other ends. */
  lemma StartIsSafe(text: string, a: nat, b: nat)
    requires Streamable(text) && PlaceholderAt(text, a, b)
    ensures SafeCut(text, a)
  {
    PlaceholderText(text, a, b);
    forall a': nat, b': nat | PlaceholderAt(text, a', b') && a' < a ensures b' <= a {
      assert NoMarkerInside(text, a', b');
    }
  }

  /** The part of a text up to the middle of a marker. */
  lemma HeadPlain(reverse: map<string, string>, text: string, c: nat, a: nat, b: nat, e: nat)
    requires Streamable(text) && PlaceholderAt(text, a, b) && c <= a < e < a + 11
    ensures e < b <= |text| && Plain(reverse, text, c, e) == Plain(reverse, text, c, a).Then(Verbatim(text[a..e]))
  {
    var head := text[..e];
    PlaceholderText(text, a, b);
    StartIsSafe(text, a, b);
    assert head[..] == text[..e] && head[0..e] == text[0..e];
    forall a': nat, b': nat | PlaceholderAt(head, a', b') && a' < a ensures b' <= a {
      assert head[a'..e] == text[a'..e];
      BareSame(head, a', e, text, a', e);
      BareExtends(text, a', e, |text|);
      assert PlaceholderAt(text, a', Bare(text, a', |text|).value);
    }
    PlainSplits(reverse, head, c, a);
    assert head[c..a] == text[c..a] && head[c..e] == text[c..e] && head[a..e] == text[a..e];
    PlainSame(reverse, head, c, a, text, c, a);
    PlainSame(reverse, head, c, e, text, c, e);
    forall p: nat | a <= p < e ensures !At(head, p, MARKER) {
      AtInText(text, 0, e, p, MARKER);
      assert head == text[0..e];
      assert NoMarkerInside(text, a, b);
    }
    PlainSkips(reverse, head, a, e, e);
    NothingThen(Verbatim(text[a..e]));
  }

  /** Cut in the middle of its marker, a placeholder is lost, and nothing else is. */
  lemma CutLoses(reverse: map<string, string>, text: string, c: nat, e: nat)
    requires Streamable(text) && SafeCut(text, c) && c <= e && Begun(text, e)
    ensures e <= |text| && Fewer(Plain(reverse, text, c, e).Then(Plain(reverse, text, e, |text|)), Plain(reverse, text, c, |text|), 1)
  {
    var a: nat, b: nat :| PlaceholderAt(text, a, b) && a < e < a + 11;
    assert c <= a by {
      PlaceholderText(text, a, b);
    }
    HeadPlain(reverse, text, c, a, b, e);
    StartIsSafe(text, a, b);
    PlainSplits(reverse, text, c, a);
    assert Bare(text, a, |text|) == Some(b);
    assert Plain(reverse, text, a, |text|) == One(reverse, text[a..b]).Then(Plain(reverse, text, b, |text|));
    assert NoMarkerInside(text, a, b);
    PlainSkips(reverse, text, e, b, |text|);
  }

  lemma ChunkedUnfolds(reverse: map<string, string>, text: string, c: nat, k: nat, chunks: seq<string>, e: nat, cut: nat)
    requires chunks != [] && c <= k && e == k + |chunks[0]| <= |text| && chunks[0] == text[k..e]
    requires cut == c + SafePrefix(text[c..e])
    ensures Chunked(reverse, text[c..k], chunks) == Unredacted(reverse, text[c..cut]).Then(Chunked(reverse, text[cut..e], chunks[1..]))
  {
    var buf := text[c..e];
    assert text[c..k] + chunks[0] == buf;
    assert buf[..cut - c] == text[c..cut] && buf[cut - c..] == text[cut..e];
  }

  /** What a stream of chunks gives against one pass: so many placeholders fewer as chunks overtake, and everything if none does. */
  ghost predicate Restores(text: string, r: Restoration, plain: Restoration, lost: nat) {
    Fewer(r, plain, lost) && (lost == 0 ==> Agrees(text, r, plain))
  }

  lemma {:induction false} ChunkedRestores(reverse: map<string, string>, text: string, c: nat, k: nat, chunks: seq<string>)
    requires Streamable(text) && Ready(text, c, k) && Concat(chunks) == text[k..]
    ensures Restores(text, Chunked(reverse, text[c..k], chunks), Plain(reverse, text, c, |text|), Lost(text, k, chunks))
    decreases |chunks|, 2
  {
    if chunks == [] {
      NoFeed(reverse, text, c, k);
    } else {
      NextFeed(reverse, text, c, k, chunks, k + |chunks[0]|);
    }
  }

  lemma NoFeed(reverse: map<string, string>, text: string, c: nat, k: nat)
    requires c <= k <= |text| && text[k..] == ""
    ensures Restores(text, Chunked(reverse, text[c..k], []), Plain(reverse, text, c, |text|), Lost(text, k, []))
  {
    LastPiece(reverse, text, c);
    NoChunks(reverse, text[c..k], text, k);
    assert k == |text|;
  }

  lemma {:induction false} NextFeed(reverse: map<string, string>, text: string, c: nat, k: nat, chunks: seq<string>, e: nat)
    requires Streamable(text) && Ready(text, c, k) && chunks != [] && e == k + |chunks[0]| && Concat(chunks) == text[k..]
    ensures Restores(text, Chunked(reverse, text[c..k], chunks), Plain(reverse, text, c, |text|), Lost(text, k, chunks))
    decreases |chunks|, 1
  {
    ConcatNext(text, k, chunks);
    if Overtakes(text, k, e) {
      OvertakenFeed(reverse, text, c, k, chunks, e);
    } else {
      SafeFeed(reverse, text, c, k, chunks, e);
    }
  }

  lemma LastPiece(reverse: map<string, string>, text: string, c: nat)
    requires c <= |text|
    ensures Restores(text, Unredacted(reverse, text[c..|text|]), Plain(reverse, text, c, |text|), 0)
  {
    PieceAgrees(reverse, text, c, |text|);
    NoneLost(text, Unredacted(reverse, text[c..|text|]), Plain(reverse, text, c, |text|));
  }

  lemma NoneLost(text: string, r: Restoration, plain: Restoration)
    requires Agrees(text, r, plain)
    ensures Restores(text, r, plain, 0)
  {
  }

  lemma NoChunks(reverse: map<string, string>, held: string, text: string, k: nat)
    ensures Chunked(reverse, held, []) == Unredacted(reverse, held) && Lost(text, k, []) == 0
  {
  }

  lemma {:induction false} OvertakenFeed(reverse: map<string, string>, text: string, c: nat, k: nat, chunks: seq<string>, e: nat)
    requires Streamable(text) && Ready(text, c, k) && chunks != [] && e == k + |chunks[0]| <= |text|
    requires chunks[0] == text[k..e] && Concat(chunks[1..]) == text[e..] && Overtakes(text, k, e)
    ensures Restores(text, Chunked(reverse, text[c..k], chunks), Plain(reverse, text, c, |text|), Lost(text, k, chunks))
    decreases |chunks|, 0
  {
    OvertakenHoldsNothing(text, c, k, e);
    RestIsText(text, e);
    ChunkedRestores(reverse, text[e..], 0, 0, chunks[1..]);
    OvertakenRestores(reverse, text, c, k, chunks, e);
  }

  lemma {:induction false} SafeFeed(reverse: map<string, string>, text: string, c: nat, k: nat, chunks: seq<string>, e: nat)
    requires Streamable(text) && Ready(text, c, k) && chunks != [] && e == k + |chunks[0]| <= |text|
    requires chunks[0] == text[k..e] && Concat(chunks[1..]) == text[e..] && !Overtakes(text, k, e)
    ensures Restores(text, Chunked(reverse, text[c..k], chunks), Plain(reverse, text, c, |text|), Lost(text, k, chunks))
    decreases |chunks|, 0
  {
    var cut := c + SafePrefix(text[c..e]);
    NextReady(text, c, k, e, cut);
    ChunkedRestores(reverse, text, cut, e, chunks[1..]);
    SafeRestores(reverse, text, c, k, chunks, e, cut);
  }

  lemma LostNext(text: string, k: nat, chunks: seq<string>, e: nat)
    requires chunks != [] && e == k + |chunks[0]| <= |text|
    ensures Lost(text, k, chunks) == if Overtakes(text, k, e) then 1 + Lost(text[e..], 0, chunks[1..]) else Lost(text, e, chunks[1..])
  {
  }

  lemma OvertakenRestores(reverse: map<string, string>, text: string, c: nat, k: nat, chunks: seq<string>, e: nat)
    requires chunks != [] && c <= k && e == k + |chunks[0]| <= |text| && chunks[0] == text[k..e]
    requires Streamable(text) && SafeCut(text, c) && Overtakes(text, k, e) && c + SafePrefix(text[c..e]) == e
    requires Restores(text[e..], Chunked(reverse, text[e..][0..0], chunks[1..]), Plain(reverse, text[e..], 0, |text[e..]|),
                      Lost(text[e..], 0, chunks[1..]))
    ensures Restores(text, Chunked(reverse, text[c..k], chunks), Plain(reverse, text, c, |text|), Lost(text, k, chunks))
  {
    ChunkedUnfolds(reverse, text, c, k, chunks, e, e);
    LostNext(text, k, chunks, e);
    assert text[e..][0..0] == text[e..e];
    OvertakenStep(reverse, text, c, e, Chunked(reverse, text[e..e], chunks[1..]), Lost(text[e..], 0, chunks[1..]),
                  Chunked(reverse, text[c..k], chunks), Lost(text, k, chunks));
  }

  lemma SafeRestores(reverse: map<string, string>, text: string, c: nat, k: nat, chunks: seq<string>, e: nat, cut: nat)
    requires chunks != [] && c <= k && e == k + |chunks[0]| <= |text| && chunks[0] == text[k..e] && cut <= e
    requires SafeCut(text, cut) && !Overtakes(text, k, e) && cut == c + SafePrefix(text[c..e])
    requires Restores(text, Chunked(reverse, text[cut..e], chunks[1..]), Plain(reverse, text, cut, |text|), Lost(text, e, chunks[1..]))
    ensures Restores(text, Chunked(reverse, text[c..k], chunks), Plain(reverse, text, c, |text|), Lost(text, k, chunks))
  {
    ChunkedUnfolds(reverse, text, c, k, chunks, e, cut);
    LostNext(text, k, chunks, e);
    SafeStep(reverse, text, c, cut, Chunked(reverse, text[cut..e], chunks[1..]), Lost(text, e, chunks[1..]),
             Chunked(reverse, text[c..k], chunks));
  }

  lemma OvertakenStep(reverse: map<string, string>, text: string, c: nat, e: nat, rest: Restoration, lost: nat,
                      all: Restoration, total: nat)
    requires Streamable(text) && SafeCut(text, c) && c <= e <= |text| && Begun(text, e)
    requires Fewer(rest, Plain(reverse, text[e..], 0, |text[e..]|), lost)
    requires all == Unredacted(reverse, text[c..e]).Then(rest) && total == 1 + lost
    ensures Restores(text, all, Plain(reverse, text, c, |text|), total)
  {
    CutLoses(reverse, text, c, e);
    PieceAgrees(reverse, text, c, e);
    SuffixPlain(reverse, text, e);
    FewerThen(Unredacted(reverse, text[c..e]), Plain(reverse, text, c, e), 0, rest, Plain(reverse, text, e, |text|), lost);
  }

  lemma SuffixPlain(reverse: map<string, string>, text: string, e: nat)
    requires e <= |text|
    ensures Plain(reverse, text[e..], 0, |text[e..]|) == Plain(reverse, text, e, |text|)
  {
    assert text[e..][0..|text[e..]|] == text[e..|text|];
    PlainSame(reverse, text[e..], 0, |text[e..]|, text, e, |text|);
  }

  lemma SafeStep(reverse: map<string, string>, text: string, c: nat, cut: nat, rest: Restoration, lost: nat, all: Restoration)
    requires c <= cut <= |text| && SafeCut(text, cut)
    requires Restores(text, rest, Plain(reverse, text, cut, |text|), lost)
    requires all == Unredacted(reverse, text[c..cut]).Then(rest)
    ensures Restores(text, all, Plain(reverse, text, c, |text|), lost)
  {
    PieceAgrees(reverse, text, c, cut);
    PlainSplits(reverse, text, c, cut);
    FewerThen(Unredacted(reverse, text[c..cut]), Plain(reverse, text, c, cut), 0, rest, Plain(reverse, text, cut, |text|), lost);
    if lost == 0 {
      AgreesThen(text, Unredacted(reverse, text[c..cut]), Plain(reverse, text, c, cut), rest, Plain(reverse, text, cut, |text|));
    }
  }

  lemma ConcatNext(text: string, k: nat, chunks: seq<string>)
    requires k <= |text| && Concat(chunks) == text[k..] && chunks != []
    ensures var e := k + |chunks[0]|; e <= |text| && chunks[0] == text[k..e] && Concat(chunks[1..]) == text[e..]
  {
    var e := k + |chunks[0]|;
    assert text[k..] == chunks[0] + Concat(chunks[1..]);
    assert text[k..e] == text[k..][..|chunks[0]|] && text[e..] == text[k..][|chunks[0]|..];
  }

  /** However a text is cut into chunks, the stream loses one placeholder for each chunk that overtakes one, and it agrees with
      one pass over the whole if and only if no chunk does. */
  lemma ChunkTheorem(reverse: map<string, string>, text: string, chunks: seq<string>)
    requires Streamable(text) && Concat(chunks) == text
    ensures var r, whole, lost := Chunked(reverse, "", chunks), Unredacted(reverse, text), Lost(text, 0, chunks);
            Fewer(r, whole, lost) && (Agrees(text, r, whole) <==> lost == 0)
  {
    assert text[0..0] == "" && text[0..] == text && text[0..|text|] == text;
    RestIsText(text, 0);
    ChunkedRestores(reverse, text, 0, 0, chunks);
    PieceAgrees(reverse, text, 0, |text|);
  }

  /** Nothing is lost when no chunk ends in the middle of a placeholder. */
  lemma {:induction false} WholeChunks(text: string, k: nat, chunks: seq<string>)
    requires forall n: nat {:trigger chunks[..n]} :: n <= |chunks| ==> !Crosses(text, k + |Concat(chunks[..n])|)
    ensures Lost(text, k, chunks) == 0
    decreases |chunks|
  {
    if chunks != [] {
      var e := k + |chunks[0]|;
      assert chunks[..1] == [chunks[0]] && Concat(chunks[..1][1..]) == "";
      forall n: nat | n <= |chunks| - 1 ensures !Crosses(text, e + |Concat(chunks[1..][..n])|) {
        assert chunks[..n + 1][1..] == chunks[1..][..n] && chunks[..n + 1][0] == chunks[0];
      }
      WholeChunks(text, e, chunks[1..]);
      if Begun(text, e) {
        BegunCrosses(text, e);
      }
    }
  }

  lemma BegunCrosses(text: string, e: nat)
    requires Begun(text, e)
    ensures Crosses(text, e)
  {
    var a: nat, b: nat :| PlaceholderAt(text, a, b) && a < e < a + 11;
    PlaceholderText(text, a, b);
  }

  const TWO := "ANONYMIZED_Y_0 ANONYMIZED_X_0"
  const TWO_CHUNKS := ["ANONYMIZED_Y_0 ANON", "YMIZED_X_0"]

  lemma FirstWord()
    ensures Language(TWO, 0, 29, 1, 1)
  {
  }

  lemma FirstOfTwo()
    ensures PlaceholderAt(TWO, 0, 14)
  {
    FirstWord();
    BareIs(TWO, 0, 29, 1, 1);
  }

  lemma SecondWord()
    ensures Language(TWO, 15, 29, 1, 1)
  {
  }

  lemma SecondOfTwo()
    ensures PlaceholderAt(TWO, 15, 29)
  {
    SecondWord();
    BareIs(TWO, 15, 29, 1, 1);
  }

  lemma MarkersOfTwo(p: nat)
    requires At(TWO, p, MARKER)
    ensures p == 0 || p == 15
  {
    assert Upper(TWO[p]) == MARKER[0] && Upper(TWO[p + 1]) == MARKER[1];
  }

  lemma TwoStreams()
    ensures Streamable(TWO)
  {
    FirstOfTwo();
    SecondOfTwo();
    forall a: nat, b: nat | PlaceholderAt(TWO, a, b) ensures b - a <= WINDOW + 1 && NoMarkerInside(TWO, a, b) {
      PlaceholderText(TWO, a, b);
      MarkersOfTwo(a);
      forall p: nat | a < p < b ensures !At(TWO, p, MARKER) {
        if At(TWO, p, MARKER) {
          MarkersOfTwo(p);
        }
      }
    }
    forall p: nat ensures !At(TWO, p, TOKEN_MARKER) {
      assert p < 29 ==> Upper(TWO[p]) != '[';
    }
  }

  lemma TwoIsOvertaken()
    ensures Overtakes(TWO, 0, 19)
  {
    FirstOfTwo();
    SecondOfTwo();
    forall p: nat | 0 < p && p + 11 <= 19 ensures !At(TWO, p, MARKER) {
      if At(TWO, p, MARKER) {
        MarkersOfTwo(p);
      }
    }
    assert Ends(TWO, 0, 19, 0, 14);
  }

  lemma TwoInOnePass(reverse: map<string, string>)
    ensures var whole := Unredacted(reverse, TWO); whole.restored + |whole.phantom| == 2
  {
    FirstOfTwo();
    SecondOfTwo();
    PlainUnfolds(reverse, TWO, 0, 29, 14, One(reverse, TWO[0..14]));
    forall p: nat | 14 <= p < 15 ensures !At(TWO, p, MARKER) {
      if At(TWO, p, MARKER) {
        MarkersOfTwo(p);
      }
    }
    PlainSkips(reverse, TWO, 14, 15, 29);
    PlainUnfolds(reverse, TWO, 15, 29, 29, One(reverse, TWO[15..29]));
    WrapperLaw(reverse, TWO);
  }

  /** Nothing as short as this holds a placeholder. */
  lemma ShortIsSafe(text: string, k: nat, e: nat)
    requires |text| < 14
    ensures !Overtakes(text, k, e)
  {
  }

  lemma LostOfTwo()
    ensures Lost(TWO, 0, TWO_CHUNKS) == 1
  {
    TwoIsOvertaken();
    LostOnce(TWO, TWO_CHUNKS, 19);
  }

  lemma LostOnce(text: string, chunks: seq<string>, e: nat)
    requires |chunks| == 2 && e == |chunks[0]| <= |text| < e + 14 && |chunks[1]| <= |text| - e && Overtakes(text, 0, e)
    ensures Lost(text, 0, chunks) == 1
  {
    var rest := chunks[1..];
    LostNext(text, 0, chunks, e);
    ShortIsSafe(text[e..], 0, |rest[0]|);
    LostNext(text[e..], 0, rest, |rest[0]|);
    assert rest[1..] == [];
  }

  /** The second placeholder is lost: fed in these chunks the text gives one, and in one pass two. */
  lemma ChunksLose(reverse: map<string, string>)
    ensures Streamable(TWO) && Concat(TWO_CHUNKS) == TWO && Lost(TWO, 0, TWO_CHUNKS) == 1
    ensures var r, whole := Chunked(reverse, "", TWO_CHUNKS), Unredacted(reverse, TWO);
            r.restored + |r.phantom| == 1 && whole.restored + |whole.phantom| == 2
  {
    TwoStreams();
    TwoInOnePass(reverse);
    ConcatTwo();
    LostOfTwo();
    ChunkTheorem(reverse, TWO, TWO_CHUNKS);
  }

  lemma ConcatTwo()
    ensures Concat(TWO_CHUNKS) == TWO
  {
    assert TWO_CHUNKS[1..] == ["YMIZED_X_0"] && TWO_CHUNKS[1..][1..] == [];
    assert Concat(TWO_CHUNKS[1..]) == "YMIZED_X_0" + "";
  }

  function Bytes(text: string): seq<string> { seq(|text|, i requires 0 <= i < |text| => [text[i]]) }

  /** Feeding byte by byte is feeding chunks of one byte. */
  lemma {:induction false} BytesAreChunks(reverse: map<string, string>, held: string, text: string)
    ensures Chunked(reverse, held, Bytes(text)) == Stream(reverse, held, text)
    decreases |text|
  {
    if text != "" {
      var buf := held + [text[0]];
      assert Bytes(text)[1..] == Bytes(text[1..]) && Bytes(text)[0] == [text[0]];
      BytesAreChunks(reverse, buf[SafePrefix(buf)..], text[1..]);
    }
  }

  /** After some chunks: what has come out, followed by what the rest will give, is the restoration of the whole stream. */
  ghost predicate Ongoing(reverse: map<string, string>, fed: seq<string>, emitted: Restoration, buffer: string) {
    forall rest: seq<string> {:trigger Chunked(reverse, buffer, rest)} ::
      Chunked(reverse, "", fed + rest) == emitted.Then(Chunked(reverse, buffer, rest))
  }

  lemma OngoingStart(reverse: map<string, string>)
    ensures Ongoing(reverse, [], NOTHING, "")
  {
    forall rest: seq<string> ensures Chunked(reverse, "", [] + rest) == NOTHING.Then(Chunked(reverse, "", rest)) {
      assert [] + rest == rest;
      NothingThen(Chunked(reverse, "", rest));
    }
  }

  lemma OngoingStep(reverse: map<string, string>, fed: seq<string>, emitted: Restoration, buffer: string, chunk: string,
                    piece: string, held: string)
    requires Ongoing(reverse, fed, emitted, buffer)
    requires piece + held == buffer + chunk && |piece| == SafePrefix(buffer + chunk)
    ensures Ongoing(reverse, fed + [chunk], emitted.Then(Unredacted(reverse, piece)), held)
  {
    forall rest: seq<string>
      ensures Chunked(reverse, "", fed + [chunk] + rest) == emitted.Then(Unredacted(reverse, piece)).Then(Chunked(reverse, held, rest))
    {
      assert fed + [chunk] + rest == fed + ([chunk] + rest);
      OneChunk(reverse, buffer, chunk, rest, piece, held);
      ThenAssoc(emitted, Unredacted(reverse, piece), Chunked(reverse, held, rest));
    }
  }

  lemma OneChunk(reverse: map<string, string>, buffer: string, chunk: string, rest: seq<string>, piece: string, held: string)
    requires piece + held == buffer + chunk && |piece| == SafePrefix(buffer + chunk)
    ensures Chunked(reverse, buffer, [chunk] + rest) == Unredacted(reverse, piece).Then(Chunked(reverse, held, rest))
  {
    assert ([chunk] + rest)[1..] == rest;
    assert (buffer + chunk)[..|piece|] == piece && (buffer + chunk)[|piece|..] == held;
  }
}
