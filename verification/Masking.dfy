/** Width-preserving masking and the bridge between offsets (pii/detect/cascade.go, nerclient/offsets.go). */
module Masking {
  import opened Wrappers
  import opened Sequences
  import opened Sorting
  import opened Overlaps
  import opened Utf8

  // ---------------------------------------------------------------------------------------------
  // Fillers.
  // ---------------------------------------------------------------------------------------------

  /** A filler as wide as the code point it covers; the replacement character, which stands for a broken byte, is wide. */
  function FillerFor(code: int): (f: int)
    requires IsScalar(code)
    ensures IsScalar(f) && Width(f) == Width(code)
  {
    match Width(code)
    case 1 => '#' as int
    case 2 => 0xA7
    case 3 => 0x25AE
    case _ => 0x1_F7E5
  }

  /** The fillers for s[p..q]. */
  function Filled(s: Bytes, p: nat, q: nat): Bytes
    requires p <= q <= |s|
    decreases q - p
  {
    if p == q then []
    else var r := Decode(s, p, q); Encode(FillerFor(r.code)) + Filled(s, p + r.size, q)
  }

  /** Masking never shortens a piece of text, and keeps its length exactly if the piece is well formed. */
  lemma {:induction false} FilledLength(s: Bytes, p: nat, q: nat)
    requires p <= q <= |s|
    ensures |Filled(s, p, q)| >= q - p
    ensures |Filled(s, p, q)| == q - p <==> Valid(s, p, q)
    decreases q - p
  {
    if p < q {
      FilledLength(s, p + Decode(s, p, q).size, q);
    }
  }

  /** The masked text from the cursor on. A span that begins before the cursor, or ends beyond the text, is passed over. */
  function MaskedFrom(text: Bytes, spans: seq<Entity>, cursor: nat): Bytes
    requires cursor <= |text| && forall e :: e in spans ==> e.start <= e.end
  {
    if spans == [] then text[cursor..]
    else
      assert spans[0] in spans;
      var e := spans[0];
      if e.start < cursor || e.end > |text| then MaskedFrom(text, spans[1..], cursor)
      else text[cursor..e.start] + Filled(text, e.start, e.end) + MaskedFrom(text, spans[1..], e.end)
  }

  // ---------------------------------------------------------------------------------------------
  // What masking keeps.
  // ---------------------------------------------------------------------------------------------

  ghost predicate Covered(spans: seq<Entity>, p: int) {
    exists e :: e in spans && e.start <= p < e.end
  }

  /** Spans in order, none that covers anything beginning before the one ahead of it ends. */
  ghost predicate Chained(spans: seq<Entity>) {
    forall i, j :: 0 <= i < j < |spans| ==>
      spans[i].start <= spans[j].start && (spans[i].start < spans[i].end && spans[j].start < spans[j].end ==> spans[i].end <= spans[j].start)
  }

  ghost predicate Ahead(spans: seq<Entity>, cursor: int) {
    forall e :: e in spans && e.start < e.end ==> cursor <= e.start
  }

  /** Spans of the text that begin and end between code points. */
  ghost predicate InRunes(text: Bytes, spans: seq<Entity>) {
    forall e :: e in spans ==> 0 <= e.start <= e.end <= |text| && Boundary(text, 0, |text|, e.start) && Boundary(text, 0, |text|, e.end)
  }

  /** At p the masked text has the code point of the text, or the filler for it if p is covered. */
  ghost predicate Copied(text: Bytes, masked: Bytes, p: nat, covered: bool)
    requires p < |text|
  {
    var r := Decode(text, p, |text|);
    r.valid && Stands(masked, p, if covered then FillerFor(r.code) else r.code)
  }

  /** Code point by code point, up to q. */
  ghost predicate MaskedTo(text: Bytes, masked: Bytes, spans: seq<Entity>, q: nat) {
    q <= |text| && |masked| == q
    && forall p: nat {:trigger Boundary(text, 0, |text|, p)} ::
         p < q && Boundary(text, 0, |text|, p) ==> Copied(text, masked, p, Covered(spans, p))
  }

  lemma StandsIn(s: Bytes, more: Bytes, p: nat, c: int)
    requires Stands(s, p, c)
    ensures Stands(s + more, p, c)
  {
    assert (s + more)[p..p + Width(c)] == s[p..p + Width(c)];
  }

  lemma StandsAfter(s: Bytes, t: Bytes, p: nat, c: int)
    requires Stands(t, p, c)
    ensures Stands(s + t, |s| + p, c)
  {
    assert (s + t)[|s| + p..|s| + p + Width(c)] == t[p..p + Width(c)];
  }

  lemma SliceOfSlice(s: Bytes, lo: nat, hi: nat, a: nat, b: nat)
    requires a <= b && lo + b <= hi <= |s|
    ensures s[lo..hi][a..b] == s[lo + a..lo + b]
  {
    var t := s[lo..hi];
    assert forall k :: a <= k < b ==> t[k] == s[lo + k];
    assert forall k :: 0 <= k < b - a ==> t[a..b][k] == s[lo + a..lo + b][k];
  }

  lemma StandsInSlice(s: Bytes, lo: nat, hi: nat, p: nat, c: int)
    requires Stands(s, p, c) && lo <= p && p + Width(c) <= hi <= |s|
    ensures Stands(s[lo..hi], p - lo, c)
  {
    SliceOfSlice(s, lo, hi, p - lo, p - lo + Width(c));
  }

  /** A code point before a boundary ends no later than it. */
  lemma EndsBefore(text: Bytes, p: nat, q: nat)
    requires Boundary(text, 0, |text|, p) && Boundary(text, 0, |text|, q) && p < q
    ensures q <= |text| && p + Decode(text, p, |text|).size <= q
    ensures Boundary(text, 0, |text|, p + Decode(text, p, |text|).size)
  {
    BoundaryBounds(text, 0, |text|, q);
    BoundaryTail(text, 0, |text|, p, q);
    BoundaryBounds(text, p + Decode(text, p, |text|).size, |text|, q);
    BoundaryTail(text, 0, |text|, p, p + Decode(text, p, |text|).size);
  }

  /** Copying up to a boundary. */
  lemma CopyKeeps(text: Bytes, done: Bytes, spans: seq<Entity>, lo: nat, hi: nat)
    requires Valid(text, 0, |text|) && MaskedTo(text, done, spans, lo) && lo <= hi
    requires Boundary(text, 0, |text|, lo) && Boundary(text, 0, |text|, hi) && hi <= |text|
    requires forall p :: lo <= p < hi ==> !Covered(spans, p)
    ensures MaskedTo(text, done + text[lo..hi], spans, hi)
  {
    forall p: nat | p < hi && Boundary(text, 0, |text|, p) ensures Copied(text, done + text[lo..hi], p, Covered(spans, p)) {
      var r := Decode(text, p, |text|);
      if p < lo {
        StandsIn(done, text[lo..hi], p, if Covered(spans, p) then FillerFor(r.code) else r.code);
      } else {
        EndsBefore(text, p, hi);
        BoundaryTail(text, 0, |text|, p, p);
        DecodedStands(text, p, |text|);
        StandsInSlice(text, lo, hi, p, r.code);
        StandsAfter(done, text[lo..hi], p - lo, r.code);
      }
    }
  }

  ghost predicate AllCovered(spans: seq<Entity>, lo: int, hi: int) { forall p {:trigger Covered(spans, p)} :: lo <= p < hi ==> Covered(spans, p) }

  /** Filling from one boundary to another. */
  lemma {:induction false} FillKeeps(text: Bytes, done: Bytes, spans: seq<Entity>, lo: nat, hi: nat)
    requires Valid(text, 0, |text|) && MaskedTo(text, done, spans, lo) && lo <= hi <= |text|
    requires Boundary(text, 0, |text|, lo) && Boundary(text, 0, |text|, hi)
    requires AllCovered(spans, lo, hi)
    ensures MaskedTo(text, done + Filled(text, lo, hi), spans, hi)
    decreases hi - lo
  {
    if lo == hi {
      assert done + Filled(text, lo, hi) == done;
    } else {
      var filler, next := FillNext(text, done, spans, lo, hi);
      FillKeeps(text, done + filler, spans, next, hi);
      Associate(done, filler, Filled(text, next, hi));
    }
  }

  lemma FillNext(text: Bytes, done: Bytes, spans: seq<Entity>, lo: nat, hi: nat) returns (filler: Bytes, next: nat)
    requires Valid(text, 0, |text|) && MaskedTo(text, done, spans, lo) && lo < hi <= |text| && Covered(spans, lo)
    requires Boundary(text, 0, |text|, lo) && Boundary(text, 0, |text|, hi)
    ensures lo < next <= hi && Boundary(text, 0, |text|, next) && Filled(text, lo, hi) == filler + Filled(text, next, hi)
    ensures MaskedTo(text, done + filler, spans, next)
  {
    SameRune(text, lo, hi);
    var r := Decode(text, lo, hi);
    filler, next := Encode(FillerFor(r.code)), lo + r.size;
    FillOne(text, done, spans, lo, filler);
  }

  lemma SameRune(text: Bytes, p: nat, q: nat)
    requires Valid(text, 0, |text|) && p < q <= |text| && Boundary(text, 0, |text|, p) && Boundary(text, 0, |text|, q)
    ensures Decode(text, p, q) == Decode(text, p, |text|) && Decode(text, p, q).valid
    ensures Boundary(text, 0, |text|, p + Decode(text, p, q).size) && p + Decode(text, p, q).size <= q
  {
    EndsBefore(text, p, q);
    BoundaryTail(text, 0, |text|, p, q);
    BoundaryHead(text, p, |text|, q);
  }

  lemma FillOne(text: Bytes, done: Bytes, spans: seq<Entity>, from: nat, filler: Bytes)
    requires Valid(text, 0, |text|) && MaskedTo(text, done, spans, from) && Boundary(text, 0, |text|, from) && from < |text|
    requires Decode(text, from, |text|).valid && filler == Encode(FillerFor(Decode(text, from, |text|).code)) && Covered(spans, from)
    ensures MaskedTo(text, done + filler, spans, from + Decode(text, from, |text|).size)
  {
    var r := Decode(text, from, |text|);
    forall p: nat | p < from + r.size && Boundary(text, 0, |text|, p) ensures Copied(text, done + filler, p, Covered(spans, p)) {
      if p < from {
        var s := Decode(text, p, |text|);
        StandsIn(done, filler, p, if Covered(spans, p) then FillerFor(s.code) else s.code);
      } else {
        BoundaryTail(text, 0, |text|, from, p);
        if p > from {
          BoundaryBounds(text, from + r.size, |text|, p);
        }
        assert p == from;
        assert (done + filler)[from..from + r.size] == filler;
      }
    }
  }

  /** The first n spans are dealt with and the text is masked up to the cursor; the spans still ahead do not reach back
      over it, so passing one over leaves nothing uncovered. */
  ghost predicate Reached(text: Bytes, done: Bytes, all: seq<Entity>, n: nat, cursor: nat) {
    && n <= |all| && cursor <= |text| && Boundary(text, 0, |text|, cursor) && Ahead(all[n..], cursor)
    && MaskedTo(text, done, all, cursor) && Behind(all[..n], cursor)
  }

  ghost predicate Behind(spans: seq<Entity>, cursor: int) { forall e :: e in spans ==> e.end <= cursor || e.start >= e.end }

  lemma PassOver(text: Bytes, done: Bytes, all: seq<Entity>, n: nat, cursor: nat)
    requires InRunes(text, all) && Chained(all) && Reached(text, done, all, n, cursor) && n < |all| && all[n].start < cursor
    ensures Reached(text, done, all, n + 1, cursor)
  {
    assert all[n] in all;
    Advance(all, n, cursor);
  }

  lemma CoverNext(text: Bytes, done: Bytes, all: seq<Entity>, n: nat, cursor: nat)
    requires Valid(text, 0, |text|) && InRunes(text, all) && Chained(all) && Reached(text, done, all, n, cursor)
    requires n < |all| && all[n].start >= cursor
    ensures all[n] in all && all[n].start <= all[n].end <= |text|
    ensures Reached(text, done + text[cursor..all[n].start] + Filled(text, all[n].start, all[n].end), all, n + 1, all[n].end)
  {
    var e := all[n];
    assert e in all;
    Advance(all, n, cursor);
    forall p | cursor <= p < e.start ensures !Covered(all, p) {
      NotCovered(all, n, cursor, e.start, p);
    }
    CopyKeeps(text, done, all, cursor, e.start);
    FillKeeps(text, done + text[cursor..e.start], all, e.start, e.end);
  }

  lemma CopyRest(text: Bytes, done: Bytes, all: seq<Entity>, cursor: nat)
    requires Valid(text, 0, |text|) && Chained(all) && Reached(text, done, all, |all|, cursor)
    ensures MaskedTo(text, done + text[cursor..], all, |text|)
  {
    EndIsBoundary(text, 0, |text|);
    forall p | cursor <= p < |text| ensures !Covered(all, p) {
      NotCovered(all, |all|, cursor, |text|, p);
    }
    CopyKeeps(text, done, all, cursor, |text|);
    assert text[cursor..|text|] == text[cursor..];
  }

  lemma MaskedUnfolds(text: Bytes, done: Bytes, all: seq<Entity>, n: nat, cursor: nat)
    requires n < |all| && cursor <= |text| && 0 <= all[n].start <= all[n].end <= |text| && forall e :: e in all[n..] ==> e.start <= e.end
    ensures forall e :: e in all[n + 1..] ==> e.start <= e.end
    ensures all[n].start < cursor ==> MaskedFrom(text, all[n..], cursor) == MaskedFrom(text, all[n + 1..], cursor)
    ensures all[n].start >= cursor ==>
              done + MaskedFrom(text, all[n..], cursor) ==
              done + text[cursor..all[n].start] + Filled(text, all[n].start, all[n].end) + MaskedFrom(text, all[n + 1..], all[n].end)
  {
    var e, rest := all[n], all[n + 1..];
    assert all[n..][0] == e && all[n..][1..] == rest;
    forall x | x in rest ensures x.start <= x.end {
      assert x in all[n..];
    }
    if e.start >= cursor {
      var a, b, c := text[cursor..e.start], Filled(text, e.start, e.end), MaskedFrom(text, rest, e.end);
      assert done + (a + b + c) == done + a + b + c;
    }
  }

  lemma InText(text: Bytes, all: seq<Entity>, n: nat)
    requires InRunes(text, all) && n < |all|
    ensures 0 <= all[n].start <= all[n].end <= |text|
  {
    assert all[n] in all;
  }

  lemma {:induction false} MaskKeeps(text: Bytes, done: Bytes, all: seq<Entity>, n: nat, cursor: nat)
    requires Valid(text, 0, |text|) && InRunes(text, all) && Chained(all) && Reached(text, done, all, n, cursor)
    requires forall e :: e in all[n..] ==> e.start <= e.end
    ensures MaskedTo(text, done + MaskedFrom(text, all[n..], cursor), all, |text|)
    decreases |all| - n
  {
    if n == |all| {
      CopyRest(text, done, all, cursor);
    } else {
      InText(text, all, n);
      MaskedUnfolds(text, done, all, n, cursor);
      if all[n].start < cursor {
        PassOver(text, done, all, n, cursor);
        MaskKeeps(text, done, all, n + 1, cursor);
      } else {
        CoverNext(text, done, all, n, cursor);
        MaskKeeps(text, done + text[cursor..all[n].start] + Filled(text, all[n].start, all[n].end), all, n + 1, all[n].end);
      }
    }
  }

  lemma NotCovered(all: seq<Entity>, n: nat, cursor: int, hi: int, p: int)
    requires Chained(all) && n <= |all| && cursor <= p < hi
    requires forall e :: e in all[..n] ==> e.end <= cursor || e.start >= e.end
    requires n < |all| ==> hi <= all[n].start
    ensures !Covered(all, p)
  {
    forall i | 0 <= i < |all| ensures !(all[i].start <= p < all[i].end) {
      if i < n {
        assert all[..n][i] == all[i] && all[i] in all[..n];
      } else if i > n {
        assert all[n].start <= all[i].start;
      }
    }
  }

  lemma Advance(all: seq<Entity>, n: nat, cursor: int)
    requires Chained(all) && n < |all| && Ahead(all[n..], cursor) && all[n].start <= all[n].end
    requires forall e :: e in all[..n] ==> e.end <= cursor || e.start >= e.end
    ensures all[n].start < cursor ==> all[n].start == all[n].end && Ahead(all[n + 1..], cursor)
    ensures all[n].start >= cursor ==> Ahead(all[n + 1..], all[n].end)
    ensures forall e :: e in all[..n + 1] ==> e.end <= (if all[n].start < cursor then cursor else all[n].end) || e.start >= e.end
  {
    var e := all[n];
    assert all[n..][0] == e && e in all[n..];
    forall x | x in all[n + 1..] && x.start < x.end ensures cursor <= x.start && e.end <= x.start {
      var j :| n + 1 <= j < |all| && all[j] == x;
      assert all[n..][j - n] == x && x in all[n..];
    }
    assert forall x :: x in all[..n + 1] ==> x in all[..n] || x == e;
  }

  /** Masking spans that lie between code points keeps every byte outside them, the length, and every boundary. */
  lemma MaskTheorem(text: Bytes, spans: seq<Entity>)
    requires Valid(text, 0, |text|) && InRunes(text, spans) && Chained(spans)
    ensures var masked := MaskedFrom(text, spans, 0);
            && |masked| == |text| && Valid(masked, 0, |masked|) && MaskedTo(text, masked, spans, |text|)
            && (forall q: nat :: Boundary(masked, 0, |masked|, q) <==> Boundary(text, 0, |text|, q))
            && (forall p :: 0 <= p < |text| && !Covered(spans, p) ==> masked[p] == text[p])
  {
    var masked := MaskedFrom(text, spans, 0);
    assert spans[0..] == spans && [] + masked == masked;
    MaskKeeps(text, [], spans, 0, 0);
    SameBoundaries(text, masked, spans, 0);
    forall p: nat | p < |text| && !Covered(spans, p) ensures masked[p] == text[p] {
      var q := RuneAround(text, 0, p);
      SameByte(text, masked, spans, q, p);
    }
  }

  /** What stands at a boundary is as wide as before. */
  lemma SameWidth(text: Bytes, masked: Bytes, spans: seq<Entity>, p: nat)
    requires MaskedTo(text, masked, spans, |text|) && p < |text| && Boundary(text, 0, |text|, p)
    ensures var r := Decode(text, p, |text|);
            && Decode(masked, p, |text|).valid && Decode(masked, p, |text|).size == r.size
            && p + r.size <= |text| && Boundary(text, 0, |text|, p + r.size)
  {
    var r := Decode(text, p, |text|);
    assert Copied(text, masked, p, Covered(spans, p));
    DecodeEncoded(masked, p, |text|, if Covered(spans, p) then FillerFor(r.code) else r.code);
    BoundaryTail(text, 0, |text|, p, p + r.size);
  }

  /** Equal widths from a boundary on give equal boundaries. */
  lemma {:induction false} SameBoundaries(text: Bytes, masked: Bytes, spans: seq<Entity>, p: nat)
    requires MaskedTo(text, masked, spans, |text|) && p <= |text| && Boundary(text, 0, |text|, p)
    ensures |masked| == |text| && Valid(masked, p, |text|)
    ensures forall q: nat :: Boundary(masked, p, |text|, q) <==> Boundary(text, p, |text|, q)
    ensures Offsets(masked, p) == Offsets(text, p)
    decreases |text| - p
  {
    if p < |text| {
      SameWidth(text, masked, spans, p);
      var next := p + Decode(text, p, |text|).size;
      SameBoundaries(text, masked, spans, next);
      AlikeBefore(text, masked, p, next);
    }
  }

  /** From one code point before on, two texts have equal boundaries, if they do after it. */
  lemma AlikeBefore(text: Bytes, masked: Bytes, p: nat, next: nat)
    requires |masked| == |text| && p < next <= |text| && Decode(masked, p, |text|).valid && Valid(masked, next, |text|)
    requires next == p + Decode(text, p, |text|).size == p + Decode(masked, p, |text|).size
    requires forall q: nat :: Boundary(masked, next, |text|, q) <==> Boundary(text, next, |text|, q)
    requires Offsets(masked, next) == Offsets(text, next)
    ensures Valid(masked, p, |text|) && Offsets(masked, p) == Offsets(text, p)
    ensures forall q: nat :: Boundary(masked, p, |text|, q) <==> Boundary(text, p, |text|, q)
  {
    OffsetsNext(masked, p, next);
    OffsetsNext(text, p, next);
    forall q: nat ensures Boundary(masked, p, |text|, q) <==> Boundary(text, p, |text|, q) {
      BoundaryNext(masked, p, next, q);
      BoundaryNext(text, p, next, q);
    }
  }

  lemma BoundaryNext(s: Bytes, p: nat, next: nat, q: nat)
    requires p < next <= |s| && next == p + Decode(s, p, |s|).size
    ensures Boundary(s, p, |s|, q) <==> q == p || Boundary(s, next, |s|, q)
  {
  }

  lemma OffsetsNext(s: Bytes, p: nat, next: nat)
    requires p < next <= |s| && next == p + Decode(s, p, |s|).size
    ensures Offsets(s, p) == [p] + Offsets(s, next)
    ensures Valid(s, p, |s|) <==> Decode(s, p, |s|).valid && Valid(s, next, |s|)
  {
  }

  /** The boundary at which the code point around a position begins. */
  lemma {:induction false} RuneAround(text: Bytes, from: nat, p: nat) returns (q: nat)
    requires from <= p < |text| && Boundary(text, 0, |text|, from)
    ensures Boundary(text, 0, |text|, q) && q <= p < q + Decode(text, q, |text|).size
    decreases |text| - from
  {
    var next := from + Decode(text, from, |text|).size;
    if p < next {
      q := from;
    } else {
      BoundaryTail(text, 0, |text|, from, next);
      q := RuneAround(text, next, p);
    }
  }

  lemma SameByte(text: Bytes, masked: Bytes, spans: seq<Entity>, q: nat, p: nat)
    requires Valid(text, 0, |text|) && InRunes(text, spans) && MaskedTo(text, masked, spans, |text|) && !Covered(spans, p)
    requires p < |text| && Boundary(text, 0, |text|, q) && q <= p < q + Decode(text, q, |text|).size
    ensures masked[p] == text[p]
  {
    var r := Decode(text, q, |text|);
    if Covered(spans, q) {
      var e :| e in spans && e.start <= q < e.end;
      EndsBefore(text, q, e.end);
    }
    assert Copied(text, masked, q, false);
    DecodedStands(text, q, |text|);
    assert masked[q..q + r.size][p - q] == text[q..q + r.size][p - q];
  }

  // ---------------------------------------------------------------------------------------------
  // What masking hides.
  // ---------------------------------------------------------------------------------------------

  /** A filler tells the width of what it covers, and nothing else. */
  lemma FillerByWidth(c: int, d: int)
    requires IsScalar(c) && IsScalar(d) && Width(c) == Width(d)
    ensures FillerFor(c) == FillerFor(d)
  {
  }

  /** Fillers are signs of the blocks of punctuation and of geometric shapes: none is a letter or a digit. */
  lemma FillersAreSigns(c: int)
    requires IsScalar(c)
    ensures var f := FillerFor(c);
            0x21 <= f <= 0x2F || 0xA1 <= f <= 0xA9 || 0x25A0 <= f <= 0x25FF || 0x1_F780 <= f <= 0x1_F7FF
  {
  }

  /** The same code points, but for those that are covered: the texts have equal boundaries and differ only under the spans. */
  ghost predicate DifferUnder(text: Bytes, other: Bytes, spans: seq<Entity>) {
    && |text| == |other| && Valid(text, 0, |text|) && Valid(other, 0, |other|)
    && (forall q: nat :: Boundary(text, 0, |text|, q) <==> Boundary(other, 0, |other|, q))
    && (forall p: int {:trigger Covered(spans, p)} :: 0 <= p < |text| && !Covered(spans, p) ==> text[p] == other[p])
  }

  lemma SameSizes(text: Bytes, other: Bytes, spans: seq<Entity>, q: nat)
    requires DifferUnder(text, other, spans) && q < |text| && Boundary(text, 0, |text|, q)
    ensures Decode(text, q, |text|).size == Decode(other, q, |other|).size
  {
    var a, b := q + Decode(text, q, |text|).size, q + Decode(other, q, |other|).size;
    BoundaryTail(text, 0, |text|, q, a);
    BoundaryTail(other, 0, |other|, q, b);
    EndsBefore(text, q, b);
    EndsBefore(other, q, a);
  }

  /** A code point of which one byte is covered is covered at its beginning. */
  lemma CoveredFromStart(text: Bytes, spans: seq<Entity>, q: nat, p: nat)
    requires InRunes(text, spans) && Boundary(text, 0, |text|, q) && Covered(spans, p)
    requires p < |text| && q <= p < q + Decode(text, q, |text|).size
    ensures Covered(spans, q)
  {
    var e :| e in spans && e.start <= p < e.end;
    if q < e.start {
      EndsBefore(text, q, e.start);
    }
  }

  lemma FillerStands(text: Bytes, masked: Bytes, spans: seq<Entity>, q: nat)
    requires MaskedTo(text, masked, spans, |text|) && q < |text| && Boundary(text, 0, |text|, q) && Covered(spans, q)
    ensures var r := Decode(text, q, |text|);
            IsScalar(r.code) && Width(r.code) == r.size && Stands(masked, q, FillerFor(r.code))
  {
    assert Copied(text, masked, q, true);
    DecodedStands(text, q, |text|);
    DecodeEncoded(text, q, |text|, Decode(text, q, |text|).code);
  }

  /** The masked text says nothing about what is covered: texts that differ only there are masked alike. */
  lemma MaskingHides(text: Bytes, other: Bytes, spans: seq<Entity>)
    requires DifferUnder(text, other, spans) && InRunes(text, spans) && Chained(spans)
    ensures MaskedFrom(text, spans, 0) == MaskedFrom(other, spans, 0)
  {
    var m, n := MaskedFrom(text, spans, 0), MaskedFrom(other, spans, 0);
    assert InRunes(other, spans);
    MaskTheorem(text, spans);
    MaskTheorem(other, spans);
    forall p: nat | p < |text| ensures m[p] == n[p] {
      if Covered(spans, p) {
        CoveredByte(text, other, m, n, spans, p);
      } else {
        assert m[p] == text[p] == other[p] == n[p];
      }
    }
  }

  lemma CoveredByte(text: Bytes, other: Bytes, m: Bytes, n: Bytes, spans: seq<Entity>, p: nat)
    requires DifferUnder(text, other, spans) && InRunes(text, spans) && p < |text| && Covered(spans, p)
    requires MaskedTo(text, m, spans, |text|) && MaskedTo(other, n, spans, |other|)
    ensures m[p] == n[p]
  {
    var q := RuneAround(text, 0, p);
    CoveredFromStart(text, spans, q, p);
    SameSizes(text, other, spans, q);
    FillerStands(text, m, spans, q);
    FillerStands(other, n, spans, q);
    FillerByWidth(Decode(text, q, |text|).code, Decode(other, q, |other|).code);
    SameStands(m, n, q, FillerFor(Decode(text, q, |text|).code), p);
  }

  lemma SameStands(m: Bytes, n: Bytes, q: nat, c: int, p: nat)
    requires Stands(m, q, c) && Stands(n, q, c) && q <= p < q + Width(c)
    ensures m[p] == n[p]
  {
    assert m[q..q + Width(c)][p - q] == n[q..q + Width(c)][p - q];
  }

  // ---------------------------------------------------------------------------------------------
  // Offsets.
  // ---------------------------------------------------------------------------------------------

  /** The offset of each code point, and the length at the end. */
  function Offsets(s: Bytes, p: nat): (r: seq<nat>)
    requires p <= |s|
    ensures r != []
    decreases |s| - p
  {
    if p == |s| then [p] else [p] + Offsets(s, p + Decode(s, p, |s|).size)
  }

  lemma {:induction false} OffsetsAreBoundaries(s: Bytes, p: nat, q: nat)
    requires p <= |s|
    ensures q in Offsets(s, p) <==> Boundary(s, p, |s|, q)
    decreases |s| - p
  {
    if p < |s| {
      OffsetsAreBoundaries(s, p + Decode(s, p, |s|).size, q);
    }
  }

  lemma {:induction false} OffsetsRise(s: Bytes, p: nat)
    requires p <= |s|
    ensures forall i, j :: 0 <= i < j < |Offsets(s, p)| ==> Offsets(s, p)[i] < Offsets(s, p)[j]
    ensures forall i :: 0 <= i < |Offsets(s, p)| ==> p <= Offsets(s, p)[i] <= |s|
    decreases |s| - p
  {
    if p < |s| {
      OffsetsRise(s, p + Decode(s, p, |s|).size);
    }
  }

  /** What the resolver keeps is a chain, whatever arrangement by start comes out. */
  lemma ResolvedIsChained(spans: seq<Entity>, ordered: seq<Entity>)
    requires multiset(ordered) == multiset(SimpleGreedy(spans)) && SortedBy(ByStart, ordered)
    ensures Chained(ordered) && forall e :: e in ordered ==> e in spans
  {
    KeptDisjoint(spans);
    SameContents(ordered, SimpleGreedy(spans));
    PermutationFree(OVERLAP, SimpleGreedy(spans), ordered);
    forall i, j | 0 <= i < j < |ordered|
      ensures ordered[i].start <= ordered[j].start
      ensures ordered[i].start < ordered[i].end && ordered[j].start < ordered[j].end ==> ordered[i].end <= ordered[j].start
    {
      assert ByStart(ordered[i], ordered[j]) && !OVERLAP(ordered[j], ordered[i]);
    }
  }

  /** Covers the spans that the resolver keeps. */
  method MaskSpans(text: Bytes, spans: seq<Entity>) returns (masked: Bytes, ghost ordered: seq<Entity>)
    requires forall e :: e in spans ==> e.start <= e.end
    ensures multiset(ordered) == multiset(SimpleGreedy(spans)) && SortedBy(ByStart, ordered) && forall e :: e in ordered ==> e in spans
    ensures masked == MaskedFrom(text, ordered, 0)
    ensures Valid(text, 0, |text|) && InRunes(text, spans) ==>
              && |masked| == |text| && Valid(masked, 0, |masked|) && MaskedTo(text, masked, SimpleGreedy(spans), |text|)
              && (forall q: nat :: Boundary(masked, 0, |masked|, q) <==> Boundary(text, 0, |text|, q))
              && (forall p :: 0 <= p < |text| && !Covered(SimpleGreedy(spans), p) ==> masked[p] == text[p])
              && forall other {:trigger DifferUnder(text, other, ordered)} ::
                   DifferUnder(text, other, ordered) ==> masked == MaskedFrom(other, ordered, 0)
  {
    var resolved := ResolveOverlaps(spans);
    ordered := resolved;
    ResolvedIsChained(spans, ordered);
    masked := CoverAll(text, resolved);
    if Valid(text, 0, |text|) && InRunes(text, spans) {
      MaskTheorem(text, ordered);
      OrderIsNothing(text, masked, ordered, SimpleGreedy(spans));
      forall other | DifferUnder(text, other, ordered) ensures masked == MaskedFrom(other, ordered, 0) {
        MaskingHides(text, other, ordered);
      }
    }
  }

  /** What is masked depends on which spans there are, not on how they are arranged. */
  lemma OrderIsNothing(text: Bytes, masked: Bytes, spans: seq<Entity>, same: seq<Entity>)
    requires multiset(spans) == multiset(same)
    ensures forall p: int :: Covered(spans, p) <==> Covered(same, p)
    ensures MaskedTo(text, masked, spans, |text|) ==> MaskedTo(text, masked, same, |text|)
  {
    SameContents(spans, same);
    forall p: int ensures Covered(spans, p) <==> Covered(same, p) {
      assert forall e :: e in spans <==> e in same;
    }
  }

  method CoverAll(text: Bytes, spans: seq<Entity>) returns (masked: Bytes)
    requires forall e :: e in spans ==> e.start <= e.end
    ensures masked == MaskedFrom(text, spans, 0)
  {
    masked := [];
    var cursor: nat := 0;
    ghost var whole := MaskedFrom(text, spans, 0);
    assert spans[0..] == spans && [] + whole == whole;
    for i := 0 to |spans|
      invariant cursor <= |text| && (forall e :: e in spans[i..] ==> e.start <= e.end)
      invariant masked + MaskedFrom(text, spans[i..], cursor) == whole
    {
      var e := spans[i];
      assert e in spans && spans[i..][0] == e && spans[i..][1..] == spans[i + 1..];
      if e.start >= cursor && e.end <= |text| {
        var fill := Fill(text, e.start, e.end);
        Regroup(masked, text[cursor..e.start], fill, MaskedFrom(text, spans[i + 1..], e.end));
        masked := masked + text[cursor..e.start] + fill;
        cursor := e.end;
      }
    }
    masked := masked + text[cursor..];
  }

  lemma Regroup(a: Bytes, b: Bytes, c: Bytes, d: Bytes)
    ensures a + (b + c + d) == a + b + c + d
  {
  }

  lemma Associate(a: Bytes, b: Bytes, c: Bytes)
    ensures a + (b + c) == a + b + c
  {
  }

  method FillRune(text: Bytes, p: nat, end: nat) returns (f: Bytes, next: nat)
    requires p < end <= |text|
    ensures p < next <= end && Filled(text, p, end) == f + Filled(text, next, end)
  {
    var r := Decode(text, p, end);
    f, next := Encode(FillerFor(r.code)), p + r.size;
  }

  method Fill(text: Bytes, start: nat, end: nat) returns (fill: Bytes)
    requires start <= end <= |text|
    ensures fill == Filled(text, start, end)
  {
    fill := [];
    var p: nat := start;
    while p < end
      invariant start <= p <= end && fill + Filled(text, p, end) == Filled(text, start, end)
    {
      var f, next := FillRune(text, p, end);
      Associate(fill, f, Filled(text, next, end));
      fill := fill + f;
      p := next;
    }
  }

  // ---------------------------------------------------------------------------------------------
  // The bridge.
  // ---------------------------------------------------------------------------------------------

  datatype Found = Found(start: int, end: int, value: Bytes)

  datatype BridgeError = RuneCountChanged | NotOnBoundary

  /** The index of an offset in a table. */
  function IndexOf(table: seq<nat>, offset: int): (r: Option<nat>)
    ensures r.Some? ==> r.value < |table| && table[r.value] == offset
    ensures r.None? ==> offset !in table
  {
    if table == [] then None
    else if table[0] == offset then Some(0)
    else match IndexOf(table[1..], offset) case None => None case Some(i) => Some(i + 1)
  }

  method RuneOffsets(text: Bytes) returns (out: seq<nat>)
    ensures out == Offsets(text, 0)
  {
    out := [];
    var p := 0;
    while p < |text|
      invariant p <= |text| && out + Offsets(text, p) == Offsets(text, 0)
    {
      assert out + ([p] + Offsets(text, p + Decode(text, p, |text|).size)) == out + [p] + Offsets(text, p + Decode(text, p, |text|).size);
      out := out + [p];
      p := p + Decode(text, p, |text|).size;
    }
    out := out + [|text|];
  }

  /** Moves offsets in the masked text to the original. On equal tables nothing moves, and it fails exactly for an
      offset that is not between code points. */
  method Bridge(original: Bytes, masked: Bytes, entities: seq<Found>) returns (r: Result<seq<Found>, BridgeError>)
    requires forall e :: e in entities ==> e.start <= e.end
    ensures entities == [] ==> r == Success([])
    ensures entities != [] && |Offsets(original, 0)| != |Offsets(masked, 0)| ==> r == Failure(RuneCountChanged)
    ensures Offsets(original, 0) == Offsets(masked, 0) ==>
              && (r.Success? <==> forall e :: e in entities ==> e.start in Offsets(masked, 0) && e.end in Offsets(masked, 0))
              && (r.Failure? ==> r == Failure(NotOnBoundary))
              && (r.Success? ==> |r.value| == |entities| && forall i :: 0 <= i < |entities| ==>
                    && 0 <= entities[i].start <= entities[i].end <= |original|
                    && r.value[i] == Found(entities[i].start, entities[i].end, original[entities[i].start..entities[i].end]))
  {
    if entities == [] {
      return Success([]);
    }
    var orig := RuneOffsets(original);
    var mask := RuneOffsets(masked);
    if |orig| != |mask| {
      return Failure(RuneCountChanged);
    }
    OffsetsRise(original, 0);
    OffsetsRise(masked, 0);
    var out: seq<Found> := [];
    for i := 0 to |entities|
      invariant |out| == i
      invariant orig == mask ==> forall j :: 0 <= j < i ==>
                  && entities[j].start in mask && entities[j].end in mask && 0 <= entities[j].start <= entities[j].end <= |original|
                  && out[j] == Found(entities[j].start, entities[j].end, original[entities[j].start..entities[j].end])
    {
      var e := entities[i];
      assert e in entities;
      var s, t := IndexOf(mask, e.start), IndexOf(mask, e.end);
      if s.None? || t.None? {
        return Failure(NotOnBoundary);
      }
      SameOrder(mask, orig, s.value, t.value);
      out := out + [Found(orig[s.value], orig[t.value], original[orig[s.value]..orig[t.value]])];
    }
    r := Success(out);
  }

  lemma SameOrder(mask: seq<nat>, orig: seq<nat>, s: nat, t: nat)
    requires |mask| == |orig| && s < |mask| && t < |mask| && mask[s] <= mask[t]
    requires forall i, j :: 0 <= i < j < |mask| ==> mask[i] < mask[j]
    requires forall i, j :: 0 <= i < j < |orig| ==> orig[i] < orig[j]
    ensures orig[s] <= orig[t]
  {
  }

  /** On a masked text the bridge moves nothing and refuses exactly offsets that are not boundaries of the text. */
  lemma BridgeOnMasked(text: Bytes, masked: Bytes, ordered: seq<Entity>, q: nat)
    requires MaskedTo(text, masked, ordered, |text|)
    ensures Offsets(masked, 0) == Offsets(text, 0)
    ensures q in Offsets(masked, 0) <==> Boundary(text, 0, |text|, q)
  {
    SameBoundaries(text, masked, ordered, 0);
    OffsetsAreBoundaries(text, 0, q);
  }

  // ---------------------------------------------------------------------------------------------
  // Settled entities against those of the model.
  // ---------------------------------------------------------------------------------------------

  predicate OverlapsAny(e: Entity, settled: seq<Entity>) { exists s :: s in settled && e.Overlaps(s) }

  function FreeOf(settled: seq<Entity>): Entity -> bool { (e: Entity) => !OverlapsAny(e, settled) }

  function AmongThem(settled: seq<Entity>): Entity -> bool { (e: Entity) => e in settled }

  /** The findings at these places were kept, in their order: exactly those that lie on the one or the other side of every
      settled span. */
  ghost predicate AsideOf(slow: seq<Entity>, settled: seq<Entity>, kept: seq<Entity>, picks: seq<nat>) {
    && |picks| == |kept| && (forall i, j :: 0 <= i < j < |picks| ==> picks[i] < picks[j])
    && (forall k {:trigger kept[k]} {:trigger picks[k]} :: 0 <= k < |kept| ==> picks[k] < |slow| && kept[k] == slow[picks[k]])
    && (forall i: nat {:trigger slow[i]} :: i < |slow| ==>
          (i in picks <==> forall s :: s in settled ==> slow[i].end <= s.start || s.end <= slow[i].start))
  }

  lemma FreePicks(slow: seq<Entity>, settled: seq<Entity>) returns (picks: seq<nat>)
    ensures AsideOf(slow, settled, Filter(FreeOf(settled), slow), picks)
  {
    picks := FilterPicks(FreeOf(settled), slow);
    forall i: nat | i < |slow|
      ensures i in picks <==> forall s :: s in settled ==> slow[i].end <= s.start || s.end <= slow[i].start
    {
      assert i in picks <==> !OverlapsAny(slow[i], settled);
      assert forall s :: s in settled ==> (slow[i].Overlaps(s) <==> !(slow[i].end <= s.start || s.end <= slow[i].start));
    }
  }

  /** Drops what the model found on settled spans. */
  method DiscardSettled(slow: seq<Entity>, settled: seq<Entity>) returns (kept: seq<Entity>)
    ensures kept == Filter(FreeOf(settled), slow) && exists picks :: AsideOf(slow, settled, kept, picks)
  {
    ghost var picks := FreePicks(slow, settled);
    kept := [];
    assert Filter(FreeOf(settled), slow[..0]) == [];
    for i := 0 to |slow|
      invariant kept == Filter(FreeOf(settled), slow[..i])
    {
      FilterLast(FreeOf(settled), slow[..i], slow[i]);
      assert slow[..i + 1] == slow[..i] + [slow[i]];
      if !OverlapsAny(slow[i], settled) {
        kept := kept + [slow[i]];
      }
    }
    assert slow[..|slow|] == slow;
  }

  /** Resolving both together keeps of the settled entities exactly what resolving them alone keeps: nothing that the
      model found takes the place of one. */
  lemma SettledWins(settled: seq<Entity>, slow: seq<Entity>)
    requires forall e :: e in slow ==> e.start < e.end
    ensures Filter(AmongThem(settled), SimpleGreedy(settled + Filter(FreeOf(settled), slow))) == SimpleGreedy(settled)
  {
    var kept, keep := Filter(FreeOf(settled), slow), AmongThem(settled);
    forall e | e in kept ensures !keep(e) && forall s :: s in settled ==> !e.Overlaps(s) {
      assert e in slow && !OverlapsAny(e, settled);
      assert e in settled ==> e.Overlaps(e);
    }
    FilterAppend(keep, settled, kept);
    FilterAll(keep, settled);
    FilterNone(keep, kept);
    assert settled + [] == settled;
    OrdersAreTotal();
    FilterSort(ByRank, keep, settled + kept);
    var ranked := StableSort(ByRank, settled + kept);
    StableSortOk(ByRank, settled + kept);
    forall x, y | x in ranked && y in ranked && keep(x) != keep(y) ensures !OVERLAP(x, y) {
      assert (x in settled && y in kept) || (x in kept && y in settled);
      assert y in kept ==> !y.Overlaps(x);
    }
    GreedyOfPart(OVERLAP, keep, ranked);
  }

  // ---------------------------------------------------------------------------------------------
  // Code points to bytes.
  // ---------------------------------------------------------------------------------------------

  function EncodeAll(cs: seq<int>): Bytes
    requires forall c :: c in cs ==> IsScalar(c)
  {
    if cs == [] then [] else assert cs[0] in cs; Encode(cs[0]) + EncodeAll(cs[1..])
  }

  datatype SpanError = BadSpan | OutOfRange | Mismatch

  /** Converts a span of code points to bytes, and checks what stands there. */
  function ToBytes(text: Bytes, runeToByte: seq<nat>, startRune: int, endRune: int, want: Bytes): Result<(nat, nat), SpanError>
    requires runeToByte == Offsets(text, 0)
  {
    OffsetsRise(text, 0);
    if startRune < 0 || endRune < startRune then Failure(BadSpan)
    else if endRune > |runeToByte| - 1 then Failure(OutOfRange)
    else
      var s, t := runeToByte[startRune], runeToByte[endRune];
      if text[s..t] != want then Failure(Mismatch) else Success((s, t))
  }

  lemma {:induction false} EncodeAllAppend(a: seq<int>, b: seq<int>)
    requires (forall c :: c in a ==> IsScalar(c)) && forall c :: c in b ==> IsScalar(c)
    ensures (forall c :: c in a + b ==> IsScalar(c)) && EncodeAll(a + b) == EncodeAll(a) + EncodeAll(b)
  {
    if a == [] {
      assert a + b == b;
    } else {
      assert a[0] in a;
      EncodeAllAppend(a[1..], b);
      assert (a + b)[0] == a[0] && (a + b)[1..] == a[1..] + b;
      Associate(Encode(a[0]), EncodeAll(a[1..]), EncodeAll(b));
    }
  }

  lemma EncodeAllSplit(cs: seq<int>, k: nat)
    requires k <= |cs| && forall c :: c in cs ==> IsScalar(c)
    ensures (forall c :: c in cs[..k] ==> IsScalar(c)) && (forall c :: c in cs[k..] ==> IsScalar(c))
    ensures EncodeAll(cs) == EncodeAll(cs[..k]) + EncodeAll(cs[k..])
  {
    EncodeAllAppend(cs[..k], cs[k..]);
    assert cs[..k] + cs[k..] == cs;
  }

  lemma EncodedNext(text: Bytes, p: nat, cs: seq<int>)
    requires cs != [] && (forall c :: c in cs ==> IsScalar(c)) && p <= |text| && text[p..] == EncodeAll(cs)
    ensures IsScalar(cs[0]) && p + Width(cs[0]) <= |text| && text[p + Width(cs[0])..] == EncodeAll(cs[1..])
    ensures Offsets(text, p) == [p] + Offsets(text, p + Width(cs[0]))
  {
    assert cs[0] in cs;
    FirstStands(text, p, cs[0], EncodeAll(cs[1..]));
    OffsetsNext(text, p, p + Width(cs[0]));
  }

  lemma FirstStands(text: Bytes, p: nat, c: int, rest: Bytes)
    requires IsScalar(c) && p <= |text| && text[p..] == Encode(c) + rest
    ensures p + Width(c) <= |text| && text[p + Width(c)..] == rest
    ensures Decode(text, p, |text|) == Rune(c, Width(c), true)
  {
    PrefixOf(text, p, Encode(c), rest);
    DecodeEncoded(text, p, |text|, c);
  }

  lemma PrefixOf(text: Bytes, p: nat, a: Bytes, b: Bytes)
    requires p <= |text| && text[p..] == a + b
    ensures p + |a| <= |text| && text[p..p + |a|] == a && text[p + |a|..] == b
  {
    assert text[p..p + |a|] == text[p..][..|a|] && text[p + |a|..] == text[p..][|a|..];
  }

  lemma EncodedLength(cs: seq<int>, k: nat)
    requires 0 < k <= |cs| && forall c :: c in cs ==> IsScalar(c)
    ensures forall c :: c in cs[..k] || c in cs[1..][..k - 1] ==> IsScalar(c)
    ensures IsScalar(cs[0]) && |EncodeAll(cs[..k])| == Width(cs[0]) + |EncodeAll(cs[1..][..k - 1])|
  {
    assert cs[..k][1..] == cs[1..][..k - 1] && cs[..k][0] == cs[0];
    assert cs[0] in cs;
  }

  /** The offset of code point k is the encoded length of the code points before it. */
  lemma {:induction false} OffsetsOfEncoded(text: Bytes, p: nat, cs: seq<int>, k: nat)
    requires k <= |cs| && (forall c :: c in cs ==> IsScalar(c)) && p <= |text| && text[p..] == EncodeAll(cs)
    ensures forall c :: c in cs[..k] ==> IsScalar(c)
    ensures |Offsets(text, p)| == |cs| + 1 && Offsets(text, p)[k] == p + |EncodeAll(cs[..k])|
    decreases |cs|
  {
    if cs != [] {
      EncodedNext(text, p, cs);
      if k > 0 {
        EncodedLength(cs, k);
      }
      OffsetsOfEncoded(text, p + Width(cs[0]), cs[1..], if k > 0 then k - 1 else 0);
    }
  }

  lemma EncodeAllParts(cs: seq<int>, s: nat, t: nat)
    requires s <= t <= |cs| && forall c :: c in cs ==> IsScalar(c)
    ensures forall c :: c in cs[..s] || c in cs[s..t] || c in cs[..t] || c in cs[t..] ==> IsScalar(c)
    ensures EncodeAll(cs) == EncodeAll(cs[..s]) + EncodeAll(cs[s..t]) + EncodeAll(cs[t..])
    ensures |EncodeAll(cs[..t])| == |EncodeAll(cs[..s])| + |EncodeAll(cs[s..t])|
  {
    EncodeAllSplit(cs, t);
    EncodeAllSplit(cs[..t], s);
    assert cs[..t][..s] == cs[..s] && cs[..t][s..] == cs[s..t];
  }

  lemma MiddleOf(text: Bytes, a: Bytes, b: Bytes, c: Bytes)
    requires text == a + b + c
    ensures text[|a|..|a| + |b|] == b
  {
  }

  /** A span of code points of a text is converted exactly if it says what stands there, to the bytes where it stands. */
  lemma ToBytesIs(cs: seq<int>, s: nat, t: nat, want: Bytes)
    requires s <= t <= |cs| && forall c :: c in cs ==> IsScalar(c)
    ensures forall c :: c in cs[..s] || c in cs[s..t] ==> IsScalar(c)
    ensures var text := EncodeAll(cs);
            var lo, piece := |EncodeAll(cs[..s])|, EncodeAll(cs[s..t]);
            ToBytes(text, Offsets(text, 0), s, t, want) == if want == piece then Success((lo, lo + |piece|)) else Failure(Mismatch)
  {
    var text := EncodeAll(cs);
    OffsetsAt(text, cs, s);
    OffsetsAt(text, cs, t);
    EncodeAllParts(cs, s, t);
    ToBytesAt(text, Offsets(text, 0), s, t, want, EncodeAll(cs[..s]), EncodeAll(cs[s..t]), EncodeAll(cs[t..]));
  }

  lemma OffsetsAt(text: Bytes, cs: seq<int>, k: nat)
    requires k <= |cs| && (forall c :: c in cs ==> IsScalar(c)) && text == EncodeAll(cs)
    ensures forall c :: c in cs[..k] ==> IsScalar(c)
    ensures |Offsets(text, 0)| == |cs| + 1 && Offsets(text, 0)[k] == |EncodeAll(cs[..k])|
  {
    assert text[0..] == text;
    OffsetsOfEncoded(text, 0, cs, k);
  }

  lemma ToBytesAt(text: Bytes, offsets: seq<nat>, s: nat, t: nat, want: Bytes, a: Bytes, piece: Bytes, b: Bytes)
    requires text == a + piece + b && offsets == Offsets(text, 0) && s <= t < |offsets|
    requires offsets[s] == |a| && offsets[t] == |a| + |piece|
    ensures ToBytes(text, offsets, s, t, want) == if want == piece then Success((|a|, |a| + |piece|)) else Failure(Mismatch)
  {
    MiddleOf(text, a, piece, b);
  }

  /** Any other span is refused. */
  lemma ToBytesRefuses(cs: seq<int>, s: int, t: int, want: Bytes)
    requires !(0 <= s <= t <= |cs|) && forall c :: c in cs ==> IsScalar(c)
    ensures var text := EncodeAll(cs);
            ToBytes(text, Offsets(text, 0), s, t, want) == if s < 0 || t < s then Failure(BadSpan) else Failure(OutOfRange)
  {
    var text := EncodeAll(cs);
    assert text[0..] == text;
    OffsetsOfEncoded(text, 0, cs, 0);
  }
}
