/** Overlap resolution of pii/detect/detector.go: entities are cut into runs that cannot touch one another
    and a longest-first greedy runs inside each. */
module Overlaps {
  import opened Sequences
  import opened Sorting

  datatype Entity = Entity(kind: string, value: string, start: int, end: int, confidence: real, detector: string)
  {
    function Len(): int { end - start }

    predicate Overlaps(other: Entity) {
      start < other.end && other.start < end
    }
  }

  predicate ByStart(x: Entity, y: Entity) { x.start <= y.start }

  /** x is tried no later than y: longer first, then more confident, then further left. */
  predicate ByRank(x: Entity, y: Entity) {
    if x.Len() != y.Len() then x.Len() > y.Len()
    else if x.confidence != y.confidence then x.confidence > y.confidence
    else x.start <= y.start
  }

  lemma OrdersAreTotal()
    ensures TotalPreorder(ByStart) && TotalPreorder(ByRank)
  {
  }

  // ---------------------------------------------------------------------------------------------
  // The greedy choice, for any conflict relation: take each element in turn unless it conflicts with
  // one already taken.
  // ---------------------------------------------------------------------------------------------

  predicate Conflicts<T(==)>(clash: (T, T) -> bool, x: T, kept: seq<T>) {
    exists k :: k in kept && clash(x, k)
  }

  function Greedy<T(==)>(clash: (T, T) -> bool, ranked: seq<T>): seq<T> {
    if ranked == [] then []
    else
      var x, before := ranked[|ranked| - 1], Greedy(clash, ranked[..|ranked| - 1]);
      if Conflicts(clash, x, before) then before else before + [x]
  }

  lemma {:induction false} GreedyIn<T>(clash: (T, T) -> bool, ranked: seq<T>)
    ensures forall x :: x in Greedy(clash, ranked) ==> x in ranked
  {
    if ranked != [] {
      GreedyIn(clash, ranked[..|ranked| - 1]);
    }
  }

  ghost predicate PairwiseFree<T(!new)>(clash: (T, T) -> bool, s: seq<T>) {
    forall i, j :: 0 <= i < j < |s| ==> !clash(s[j], s[i])
  }

  lemma {:induction false} GreedyFree<T(!new)>(clash: (T, T) -> bool, ranked: seq<T>)
    ensures PairwiseFree(clash, Greedy(clash, ranked))
  {
    if ranked != [] {
      GreedyFree(clash, ranked[..|ranked| - 1]);
    }
  }

  /** Maximality: whatever is left out conflicts with something kept that was tried before it. */
  lemma {:induction false} GreedyMaximal<T(!new)>(clash: (T, T) -> bool, le: (T, T) -> bool, ranked: seq<T>, x: T)
    requires SortedBy(le, ranked) && x in ranked && x !in Greedy(clash, ranked)
    ensures exists k :: k in Greedy(clash, ranked) && clash(x, k) && le(k, x)
  {
    var n := |ranked| - 1;
    var before := Greedy(clash, ranked[..n]);
    if x in ranked[..n] {
      GreedyMaximal(clash, le, ranked[..n], x);
      var k :| k in before && clash(x, k) && le(k, x);
      assert k in Greedy(clash, ranked);
    } else {
      assert x == ranked[n];
      assert Conflicts(clash, x, before);
      var k :| k in before && clash(x, k);
      GreedyIn(clash, ranked[..n]);
      assert k in Greedy(clash, ranked);
    }
  }

  /** What conflicts with itself, as a non-empty span does, is kept at most once. */
  lemma {:induction false} KeptOnce<T(!new)>(clash: (T, T) -> bool, kept: seq<T>, x: T)
    requires PairwiseFree(clash, kept) && clash(x, x)
    ensures multiset(kept)[x] <= 1
  {
    if kept != [] {
      assert PairwiseFree(clash, kept[1..]);
      KeptOnce(clash, kept[1..], x);
      assert kept == [kept[0]] + kept[1..];
      forall j | 0 <= j < |kept| - 1 ensures kept[0] == x ==> kept[1..][j] != x {
        assert !clash(kept[j + 1], kept[0]);
      }
    }
  }

  /** What is free of a symmetric conflict is free of it in any other order. */
  lemma PermutationFree<T(!new)>(clash: (T, T) -> bool, s: seq<T>, t: seq<T>)
    requires multiset(s) == multiset(t) && PairwiseFree(clash, s) && forall x, y :: clash(x, y) ==> clash(y, x)
    ensures PairwiseFree(clash, t)
  {
    SameContents(s, t);
    forall i, j | 0 <= i < j < |t| ensures !clash(t[j], t[i]) {
      if t[i] == t[j] {
        CountOfRepeated(t, i, j);
        if clash(t[i], t[i]) {
          KeptOnce(clash, s, t[i]);
        }
      } else {
        assert t[i] in s && t[j] in s;
        var a :| 0 <= a < |s| && s[a] == t[i];
        var b :| 0 <= b < |s| && s[b] == t[j];
        assert !clash(s[if a < b then b else a], s[if a < b then a else b]);
      }
    }
  }

  ghost predicate Separates<T(!new)>(clash: (T, T) -> bool, keep: T -> bool, s: seq<T>) {
    forall x, y :: x in s && y in s && keep(x) != keep(y) ==> !clash(x, y)
  }

  lemma GreedyAppend<T>(clash: (T, T) -> bool, rest: seq<T>, x: T)
    ensures Greedy(clash, rest + [x]) == var before := Greedy(clash, rest);
                                         if Conflicts(clash, x, before) then before else before + [x]
  {
    assert (rest + [x])[..|rest|] == rest;
  }

  lemma FilterLast<T>(keep: T -> bool, rest: seq<T>, x: T)
    ensures Filter(keep, rest + [x]) == if keep(x) then Filter(keep, rest) + [x] else Filter(keep, rest)
  {
    FilterAppend(keep, rest, [x]);
    assert Filter(keep, [x]) == if keep(x) then [x] + Filter(keep, []) else Filter(keep, []);
  }

  /** A part of the input that conflicts with nothing outside it can be resolved on its own. */
  lemma {:induction false} GreedyOfPart<T(!new)>(clash: (T, T) -> bool, keep: T -> bool, ranked: seq<T>)
    requires Separates(clash, keep, ranked)
    ensures Greedy(clash, Filter(keep, ranked)) == Filter(keep, Greedy(clash, ranked))
  {
    if ranked != [] {
      var n := |ranked| - 1;
      var x, rest := ranked[n], ranked[..n];
      var before := Greedy(clash, rest);
      GreedyOfPart(clash, keep, rest);
      GreedyIn(clash, rest);
      assert ranked == rest + [x];
      GreedyAppend(clash, rest, x);
      FilterLast(keep, rest, x);
      FilterLast(keep, before, x);
      if keep(x) {
        FilterKeeps(keep, before);
        assert Conflicts(clash, x, Filter(keep, before)) <==> Conflicts(clash, x, before);
        GreedyAppend(clash, Filter(keep, rest), x);
      }
    }
  }

  // ---------------------------------------------------------------------------------------------
  // The code: components of the start order, each resolved by the ranked greedy.
  // ---------------------------------------------------------------------------------------------

  const OVERLAP := (x: Entity, y: Entity) => x.Overlaps(y)

  /** One greedy over all the entities at once. */
  function SimpleGreedy(entities: seq<Entity>): seq<Entity> {
    Greedy(OVERLAP, StableSort(ByRank, entities))
  }

  /** Longest-wins greedy inside one group, with its fast path for a single entity. */
  method ResolveComponent(component: seq<Entity>) returns (kept: seq<Entity>)
    ensures kept == SimpleGreedy(component)
  {
    if |component| == 1 {
      SingleEntity(component);
      return component;
    }
    var ranked := StableSort(ByRank, component);
    kept := [];
    assert ranked[..0] == [];
    for i := 0 to |ranked|
      invariant kept == Greedy(OVERLAP, ranked[..i])
    {
      GreedyAppend(OVERLAP, ranked[..i], ranked[i]);
      assert ranked[..i + 1] == ranked[..i] + [ranked[i]];
      var conflict := false;
      ghost var clash := 0;
      for j := 0 to |kept|
        invariant !conflict && forall k :: 0 <= k < j ==> !ranked[i].Overlaps(kept[k])
      {
        if ranked[i].Overlaps(kept[j]) {
          conflict, clash := true, j;
          break;
        }
      }
      assert conflict <==> Conflicts(OVERLAP, ranked[i], kept) by {
        if conflict {
          assert OVERLAP(ranked[i], kept[clash]);
        }
      }
      if !conflict {
        kept := kept + [ranked[i]];
      }
    }
    assert ranked[..|ranked|] == ranked;
  }

  // ---------------------------------------------------------------------------------------------
  // Components as positions. An entity is tagged with its position in the start order, so that equal
  // entities in different components stay apart.
  // ---------------------------------------------------------------------------------------------

  datatype Tagged = Tagged(entity: Entity, position: nat)

  const UNTAG := (t: Tagged) => t.entity
  const TAGGED_RANK := (t: Tagged, u: Tagged) => ByRank(t.entity, u.entity)
  const TAGGED_OVERLAP := (t: Tagged, u: Tagged) => t.entity.Overlaps(u.entity)

  function Tag(s: seq<Entity>): seq<Tagged> {
    seq(|s|, i requires 0 <= i < |s| => Tagged(s[i], i))
  }

  function Within(lo: nat, hi: nat): Tagged -> bool {
    (t: Tagged) => lo <= t.position < hi
  }

  function TaggedGreedy(s: seq<Tagged>): seq<Tagged> {
    Greedy(TAGGED_OVERLAP, StableSort(TAGGED_RANK, s))
  }

  lemma MapConflicts<S(!new), T>(f: S -> T, clash: (T, T) -> bool, clashS: (S, S) -> bool, x: S, kept: seq<S>)
    requires forall y, z :: clashS(y, z) == clash(f(y), f(z))
    ensures Conflicts(clashS, x, kept) <==> Conflicts(clash, f(x), Map(f, kept))
  {
    forall k | k in kept ensures f(k) in Map(f, kept) {
      var i :| 0 <= i < |kept| && kept[i] == k;
      assert Map(f, kept)[i] == f(k);
    }
  }

  lemma {:induction false} MapGreedy<S(!new), T>(f: S -> T, clash: (T, T) -> bool, clashS: (S, S) -> bool, s: seq<S>)
    requires forall y, z :: clashS(y, z) == clash(f(y), f(z))
    ensures Map(f, Greedy(clashS, s)) == Greedy(clash, Map(f, s))
  {
    if s != [] {
      var n := |s| - 1;
      var rest, x := s[..n], s[n];
      MapGreedy(f, clash, clashS, rest);
      assert s == rest + [x];
      assert Map(f, [x]) == [f(x)];
      MapAppend(f, rest, [x]);
      MapAppend(f, Greedy(clashS, rest), [x]);
      GreedyAppend(clash, Map(f, rest), f(x));
      MapConflicts(f, clash, clashS, x, Greedy(clashS, rest));
    }
  }

  lemma TaggedGreedyOk(s: seq<Tagged>)
    ensures Map(UNTAG, TaggedGreedy(s)) == SimpleGreedy(Map(UNTAG, s))
  {
    MapSort(UNTAG, ByRank, TAGGED_RANK, s);
    MapGreedy(UNTAG, OVERLAP, TAGGED_OVERLAP, StableSort(TAGGED_RANK, s));
  }

  /** Every entity before the cut position ends where the entities from the cut position on begin, or earlier. */
  ghost predicate Cut(ordered: seq<Entity>, cut: nat) {
    forall i, j :: 0 <= i < cut <= j < |ordered| ==> ordered[i].end <= ordered[j].start
  }

  /** Positions on different sides of a cut do not overlap. */
  lemma CutSeparates(ordered: seq<Entity>, lo: nat, hi: nat)
    requires lo <= hi <= |ordered| && Cut(ordered, lo) && Cut(ordered, hi)
    ensures Separates(TAGGED_OVERLAP, Within(lo, hi), StableSort(TAGGED_RANK, Tag(ordered)))
  {
    var tagged := Tag(ordered);
    OrdersAreTotal();
    StableSortOk(TAGGED_RANK, tagged);
    forall x, y | x in tagged && y in tagged && Within(lo, hi)(x) != Within(lo, hi)(y) ensures !TAGGED_OVERLAP(x, y) {
      assert ordered[x.position] == x.entity && ordered[y.position] == y.entity;
    }
  }

  /** Between two cuts, resolving the component alone keeps exactly what the greedy over everything keeps there. */
  lemma ComponentOfGreedy(ordered: seq<Entity>, lo: nat, hi: nat)
    requires lo <= hi <= |ordered| && Cut(ordered, lo) && Cut(ordered, hi)
    ensures SimpleGreedy(ordered[lo..hi]) == Map(UNTAG, Filter(Within(lo, hi), TaggedGreedy(Tag(ordered))))
  {
    var tagged := Tag(ordered);
    FilterTagged(ordered, lo, hi);
    assert Map(UNTAG, tagged[lo..hi]) == ordered[lo..hi];
    TaggedGreedyOk(tagged[lo..hi]);
    FilterSort(TAGGED_RANK, Within(lo, hi), tagged);
    CutSeparates(ordered, lo, hi);
    GreedyOfPart(TAGGED_OVERLAP, Within(lo, hi), StableSort(TAGGED_RANK, tagged));
  }

  lemma ThreeParts<T>(s: seq<T>, lo: nat, hi: nat)
    requires lo <= hi <= |s|
    ensures s == s[..lo] + s[lo..hi] + s[hi..]
  {
  }

  lemma FilterTagged(ordered: seq<Entity>, lo: nat, hi: nat)
    requires lo <= hi <= |ordered|
    ensures Filter(Within(lo, hi), Tag(ordered)) == Tag(ordered)[lo..hi]
  {
    var t, keep := Tag(ordered), Within(lo, hi);
    ThreeParts(t, lo, hi);
    FilterAppend(keep, t[..lo] + t[lo..hi], t[hi..]);
    FilterAppend(keep, t[..lo], t[lo..hi]);
    FilterNone(keep, t[..lo]);
    FilterAll(keep, t[lo..hi]);
    FilterNone(keep, t[hi..]);
  }

  /** The components up to a position, taken together. */
  ghost function KeptBefore(ordered: seq<Entity>, cut: nat): multiset<Entity> {
    multiset(Map(UNTAG, Filter(Within(0, cut), TaggedGreedy(Tag(ordered)))))
  }

  lemma KeptGrows(ordered: seq<Entity>, lo: nat, hi: nat)
    requires lo <= hi <= |ordered| && Cut(ordered, lo) && Cut(ordered, hi)
    ensures KeptBefore(ordered, hi) == KeptBefore(ordered, lo) + multiset(SimpleGreedy(ordered[lo..hi]))
  {
    ComponentOfGreedy(ordered, lo, hi);
    FilterSplit(UNTAG, Within(0, hi), Within(0, lo), Within(lo, hi), TaggedGreedy(Tag(ordered)));
  }

  lemma KeptInTheEnd(entities: seq<Entity>)
    ensures var ordered := StableSort(ByStart, entities);
            KeptBefore(ordered, |ordered|) == multiset(SimpleGreedy(entities)) && KeptBefore(ordered, 0) == multiset{}
  {
    var ordered := StableSort(ByStart, entities);
    OrdersAreTotal();
    SortAfterSort(ByRank, ByStart, entities);
    assert Map(UNTAG, Tag(ordered)) == ordered;
    TaggedGreedyOk(Tag(ordered));
    var all := TaggedGreedy(Tag(ordered));
    StableSortOk(TAGGED_RANK, Tag(ordered));
    GreedyIn(TAGGED_OVERLAP, StableSort(TAGGED_RANK, Tag(ordered)));
    FilterAll(Within(0, |ordered|), all);
    FilterNone(Within(0, 0), all);
  }

  lemma NextCut(ordered: seq<Entity>, start: nat, i: nat, maxEnd: int)
    requires SortedBy(ByStart, ordered) && start <= i < |ordered| && Cut(ordered, start)
    requires forall k :: start <= k < i ==> ordered[k].end <= maxEnd
    requires ordered[i].start >= maxEnd
    ensures Cut(ordered, i)
  {
    forall a, b | 0 <= a < i <= b < |ordered| ensures ordered[a].end <= ordered[b].start {
      assert b == i || ByStart(ordered[i], ordered[b]);
    }
  }

  /** Resolves one component and appends what survives. */
  method Flush(accepted: seq<Entity>, component: seq<Entity>, ghost ordered: seq<Entity>, ghost lo: nat, ghost hi: nat)
    returns (r: seq<Entity>)
    requires lo <= hi <= |ordered| && component == ordered[lo..hi] && Cut(ordered, lo) && Cut(ordered, hi)
    requires multiset(accepted) == KeptBefore(ordered, lo)
    ensures multiset(r) == KeptBefore(ordered, hi)
  {
    KeptGrows(ordered, lo, hi);
    var kept := ResolveComponent(component);
    r := accepted + kept;
  }

  /** Cuts the start order into components and resolves each on its own. */
  method ResolveComponents(ordered: seq<Entity>) returns (accepted: seq<Entity>)
    requires SortedBy(ByStart, ordered) && ordered != [] && KeptBefore(ordered, 0) == multiset{}
    ensures multiset(accepted) == KeptBefore(ordered, |ordered|)
  {
    accepted := [];
    var start := 0;
    var maxEnd := ordered[0].end;
    for i := 1 to |ordered|
      invariant 0 <= start < i && Cut(ordered, start)
      invariant forall k :: start <= k < i ==> ordered[k].end <= maxEnd
      invariant multiset(accepted) == KeptBefore(ordered, start)
    {
      if ordered[i].start >= maxEnd {
        NextCut(ordered, start, i, maxEnd);
        accepted := Flush(accepted, ordered[start..i], ordered, start, i);
        start := i;
        maxEnd := ordered[i].end;
      } else if ordered[i].end > maxEnd {
        maxEnd := ordered[i].end;
      }
    }
    accepted := Flush(accepted, ordered[start..], ordered, start, |ordered|);
  }

  /** Component by component, the entities that survive are those of one greedy over all of them, in start order. */
  method ResolveOverlaps(entities: seq<Entity>) returns (accepted: seq<Entity>)
    ensures multiset(accepted) == multiset(SimpleGreedy(entities))
    ensures SortedBy(ByStart, accepted)
    ensures (forall e :: e in entities ==> e.start < e.end) ==> accepted == StableSort(ByStart, SimpleGreedy(entities))
  {
    if |entities| < 2 {
      SingleEntity(entities);
      accepted := entities;
    } else {
      OrdersAreTotal();
      StableSortOk(ByStart, entities);
      KeptInTheEnd(entities);
      accepted := ResolveComponents(StableSort(ByStart, entities));
      accepted := Sort(ByStart, accepted);
    }
    if forall e :: e in entities ==> e.start < e.end {
      InStartOrder(entities, accepted);
    }
  }

  /** Disjoint non-empty spans have different starts, so there is only one way to put them in start order. */
  lemma InStartOrder(entities: seq<Entity>, accepted: seq<Entity>)
    requires multiset(accepted) == multiset(SimpleGreedy(entities)) && SortedBy(ByStart, accepted)
    requires forall e :: e in entities ==> e.start < e.end
    ensures accepted == StableSort(ByStart, SimpleGreedy(entities))
    ensures forall i, j :: 0 <= i < j < |accepted| ==> accepted[i].end <= accepted[j].start
  {
    var kept := SimpleGreedy(entities);
    KeptDisjoint(entities);
    OrdersAreTotal();
    StableSortOk(ByStart, kept);
    SameContents(accepted, kept);
    PermutationFree(OVERLAP, kept, accepted);
    forall i, j | 0 <= i < j < |accepted| ensures accepted[i].end <= accepted[j].start && !ByStart(accepted[j], accepted[i]) {
      assert ByStart(accepted[i], accepted[j]);
      assert !OVERLAP(accepted[i], accepted[j]);
    }
    SortedUnique(ByStart, accepted, StableSort(ByStart, kept));
  }

  /** The entities kept come from the input, do not overlap, and no candidate is lost without cause: one that
      was left out overlaps an entity that was kept and ranks at least as high. */
  lemma KeptDisjoint(entities: seq<Entity>)
    ensures PairwiseFree(OVERLAP, SimpleGreedy(entities))
    ensures forall e :: e in SimpleGreedy(entities) ==> e in entities
    ensures forall e :: e in entities && e !in SimpleGreedy(entities) ==>
              exists k :: k in SimpleGreedy(entities) && e.Overlaps(k) && ByRank(k, e) && NoWorse(k, e)
  {
    var ranked := StableSort(ByRank, entities);
    OrdersAreTotal();
    StableSortOk(ByRank, entities);
    GreedyFree(OVERLAP, ranked);
    GreedyIn(OVERLAP, ranked);
    forall e | e in entities && e !in SimpleGreedy(entities)
      ensures exists k :: k in SimpleGreedy(entities) && e.Overlaps(k) && ByRank(k, e) && NoWorse(k, e)
    {
      GreedyMaximal(OVERLAP, ByRank, ranked, e);
      var k :| k in SimpleGreedy(entities) && OVERLAP(e, k) && ByRank(k, e);
      assert e.Overlaps(k) && NoWorse(k, e);
    }
  }

  /** At least as long; if as long, at least as sure; if as sure, no further right. */
  ghost predicate NoWorse(k: Entity, e: Entity) {
    && k.end - k.start >= e.end - e.start
    && (k.end - k.start == e.end - e.start ==> k.confidence >= e.confidence && (k.confidence == e.confidence ==> k.start <= e.start))
  }

  /** The longest entity is always kept. */
  lemma LongestIsKept(entities: seq<Entity>, e: Entity)
    requires e in entities && forall x :: x in entities && x != e ==> x.end - x.start < e.end - e.start
    ensures e in SimpleGreedy(entities)
  {
    KeptDisjoint(entities);
  }

  lemma SingleEntity(entities: seq<Entity>)
    requires |entities| < 2
    ensures SimpleGreedy(entities) == entities
  {
    if |entities| == 1 {
      assert StableSort(ByRank, entities[1..]) == [] && StableSort(ByRank, entities) == entities;
      assert Greedy(OVERLAP, entities[..0]) == [];
    }
  }
}
