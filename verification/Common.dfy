/** Outcomes of operations that can fail, in place of the source's (value, error) and (value, bool) pairs. */
module Wrappers {

  datatype Option<+T> = None | Some(value: T)

  datatype Result<+R, +E> = Success(value: R) | Failure(error: E)

  /** A count that is not let below zero. */
  function AtLeastZero(n: int): int { if n < 0 then 0 else n }
}

/** Facts about sequences that the algorithm modules share. */
module Sequences {

  ghost predicate Distinct<T(!new)>(s: seq<T>) {
    forall i, j :: 0 <= i < j < |s| ==> s[i] != s[j]
  }

  ghost predicate IsSuffix<T>(s: seq<T>, t: seq<T>) {
    |s| <= |t| && t[|t| - |s|..] == s
  }

  function Filter<T>(keep: T -> bool, s: seq<T>): (r: seq<T>)
    ensures forall x :: x in r ==> x in s && keep(x)
  {
    if s == [] then [] else if keep(s[0]) then [s[0]] + Filter(keep, s[1..]) else Filter(keep, s[1..])
  }

  lemma {:induction false} FilterAppend<T>(keep: T -> bool, s: seq<T>, t: seq<T>)
    ensures Filter(keep, s + t) == Filter(keep, s) + Filter(keep, t)
  {
    if s == [] {
      assert s + t == t;
    } else {
      FilterAppend(keep, s[1..], t);
      assert (s + t)[1..] == s[1..] + t;
    }
  }

  /** What stands at these places came out, in their order; the places are those that were to be kept. */
  ghost predicate Picked<T(!new)>(keep: T -> bool, s: seq<T>, out: seq<T>, picks: seq<nat>) {
    && |picks| == |out| && (forall i, j :: 0 <= i < j < |picks| ==> picks[i] < picks[j])
    && (forall k {:trigger out[k]} {:trigger picks[k]} :: 0 <= k < |out| ==> picks[k] < |s| && out[k] == s[picks[k]])
    && (forall i: nat {:trigger s[i]} :: i < |s| ==> (i in picks <==> keep(s[i])))
  }

  lemma {:induction false} FilterPicks<T(!new)>(keep: T -> bool, s: seq<T>) returns (picks: seq<nat>)
    ensures Picked(keep, s, Filter(keep, s), picks)
    decreases |s|
  {
    picks := [];
    if s != [] {
      var rest, x := s[..|s| - 1], s[|s| - 1];
      assert s == rest + [x];
      var before := FilterPicks(keep, rest);
      FilterAppend(keep, rest, [x]);
      picks := PickOne(keep, rest, x, Filter(keep, rest), before, Filter(keep, s));
    }
  }

  lemma PickOne<T(!new)>(keep: T -> bool, s: seq<T>, x: T, out: seq<T>, before: seq<nat>, all: seq<T>) returns (picks: seq<nat>)
    requires Picked(keep, s, out, before) && all == out + if keep(x) then [x] else []
    ensures Picked(keep, s + [x], all, picks)
  {
    var n := |s|;
    picks := if keep(x) then before + [n] else before;
    assert n !in before;
    forall i: nat | i < n + 1 ensures i in picks <==> keep((s + [x])[i]) {
      assert i < n ==> (s + [x])[i] == s[i];
      assert i in before + [n] <==> i in before || i == n;
    }
  }

  lemma {:induction false} FilterNone<T>(keep: T -> bool, s: seq<T>)
    requires forall x :: x in s ==> !keep(x)
    ensures Filter(keep, s) == []
  {
    if s != [] {
      FilterNone(keep, s[1..]);
    }
  }

  lemma {:induction false} FilterAll<T>(keep: T -> bool, s: seq<T>)
    requires forall x :: x in s ==> keep(x)
    ensures Filter(keep, s) == s
  {
    if s != [] {
      FilterAll(keep, s[1..]);
    }
  }

  lemma {:induction false} FilterKeeps<T>(keep: T -> bool, s: seq<T>)
    ensures forall x :: x in s && keep(x) ==> x in Filter(keep, s)
  {
    if s != [] {
      FilterKeeps(keep, s[1..]);
    }
  }

  function Map<S, T>(f: S -> T, s: seq<S>): seq<T> {
    seq(|s|, i requires 0 <= i < |s| => f(s[i]))
  }

  lemma MapCons<S, T>(f: S -> T, x: S, s: seq<S>)
    ensures Map(f, [x] + s) == [f(x)] + Map(f, s)
  {
  }

  lemma MapAppend<S, T>(f: S -> T, s: seq<S>, t: seq<S>)
    ensures Map(f, s + t) == Map(f, s) + Map(f, t)
  {
  }

  /** A filter whose condition splits in two keeps exactly what the two halves keep, with multiplicity. */
  lemma {:induction false} FilterSplit<S, T>(f: S -> T, whole: S -> bool, left: S -> bool, right: S -> bool, s: seq<S>)
    requires forall x :: x in s ==> (whole(x) <==> left(x) || right(x)) && !(left(x) && right(x))
    ensures multiset(Map(f, Filter(whole, s))) == multiset(Map(f, Filter(left, s))) + multiset(Map(f, Filter(right, s)))
  {
    if s != [] {
      FilterSplit(f, whole, left, right, s[1..]);
      MapAppend(f, [s[0]], Filter(whole, s[1..]));
      MapAppend(f, [s[0]], Filter(left, s[1..]));
      MapAppend(f, [s[0]], Filter(right, s[1..]));
    }
  }

  /** In a permutation of a sequence without repeats no two positions hold the same element. */
  lemma PermutationOfDistinct<T(!new)>(s: seq<T>, t: seq<T>)
    requires Distinct(s) && multiset(s) == multiset(t)
    ensures Distinct(t)
  {
    forall i, j | 0 <= i < j < |t| ensures t[i] != t[j] {
      CountOfDistinct(s, t[i]);
      CountOfRepeated(t, i, j);
    }
  }

  lemma CountOfRepeated<T(!new)>(t: seq<T>, i: nat, j: nat)
    requires i < j < |t|
    ensures t[i] == t[j] ==> multiset(t)[t[i]] >= 2
  {
    assert t == t[..j] + t[j..];
    assert t[i] in t[..j] && t[j] in t[j..];
    assert multiset(t)[t[i]] == multiset(t[..j])[t[i]] + multiset(t[j..])[t[i]];
  }

  lemma {:induction false} CountOfDistinct<T(!new)>(s: seq<T>, x: T)
    requires Distinct(s)
    ensures multiset(s)[x] <= 1
  {
    if s != [] {
      CountOfDistinct(s[1..], x);
      assert s == [s[0]] + s[1..];
      if x == s[0] {
        assert x !in s[1..];
      }
    }
  }
}

/** Sorting by a total preorder. StableSort stands for the library's stable sort: elements that tie keep
    their order. Sort stands for the plain one, of which only order and contents are known. */
module Sorting {
  import opened Sequences

  ghost predicate TotalPreorder<T(!new)>(le: (T, T) -> bool) {
    && (forall x, y :: le(x, y) || le(y, x))
    && (forall x, y, z :: le(x, y) && le(y, z) ==> le(x, z))
  }

  ghost predicate SortedBy<T(!new)>(le: (T, T) -> bool, s: seq<T>) {
    forall i, j :: 0 <= i < j < |s| ==> le(s[i], s[j])
  }

  function Insert<T>(le: (T, T) -> bool, x: T, s: seq<T>): seq<T> {
    if s == [] then [x] else if le(x, s[0]) then [x] + s else [s[0]] + Insert(le, x, s[1..])
  }

  function StableSort<T>(le: (T, T) -> bool, s: seq<T>): seq<T> {
    if s == [] then [] else Insert(le, s[0], StableSort(le, s[1..]))
  }

  lemma {:induction false} InsertContents<T>(le: (T, T) -> bool, x: T, s: seq<T>)
    ensures multiset(Insert(le, x, s)) == multiset{x} + multiset(s)
    ensures Insert(le, x, s) != []
    ensures Insert(le, x, s)[0] == x || (s != [] && Insert(le, x, s)[0] == s[0])
  {
    if s != [] && !le(x, s[0]) {
      InsertContents(le, x, s[1..]);
      assert s == [s[0]] + s[1..];
    }
  }

  lemma {:induction false} InsertSorted<T(!new)>(le: (T, T) -> bool, x: T, s: seq<T>)
    requires TotalPreorder(le) && SortedBy(le, s)
    ensures SortedBy(le, Insert(le, x, s))
  {
    if s != [] && !le(x, s[0]) {
      InsertSorted(le, x, s[1..]);
      var r := Insert(le, x, s[1..]);
      InsertContents(le, x, s[1..]);
      forall j | 0 <= j < |r| ensures le(s[0], r[j]) {
        assert r[j] in multiset(r);
        assert r[j] == x || r[j] in s[1..];
      }
    }
  }

  lemma {:induction false} StableSortOk<T(!new)>(le: (T, T) -> bool, s: seq<T>)
    requires TotalPreorder(le)
    ensures multiset(StableSort(le, s)) == multiset(s)
    ensures SortedBy(le, StableSort(le, s))
    ensures |StableSort(le, s)| == |s|
    ensures forall x :: x in StableSort(le, s) <==> x in s
  {
    if s != [] {
      StableSortOk(le, s[1..]);
      InsertContents(le, s[0], StableSort(le, s[1..]));
      InsertSorted(le, s[0], StableSort(le, s[1..]));
      assert s == [s[0]] + s[1..];
    }
    SameContents(StableSort(le, s), s);
  }

  lemma SameContents<T>(s: seq<T>, t: seq<T>)
    requires multiset(s) == multiset(t)
    ensures |s| == |t|
    ensures forall x :: x in s <==> x in t
  {
    assert |s| == |multiset(s)| == |multiset(t)| == |t|;
    forall x ensures x in s <==> x in t {
      assert x in s <==> x in multiset(s);
      assert x in t <==> x in multiset(t);
    }
  }

  method Sort<T(!new)>(le: (T, T) -> bool, s: seq<T>) returns (r: seq<T>)
    requires TotalPreorder(le)
    ensures multiset(r) == multiset(s) && SortedBy(le, r)
    ensures |r| == |s| && forall x :: x in r <==> x in s
  {
    StableSortOk(le, s);
    r := StableSort(le, s);
  }

  // ---------------------------------------------------------------------------------------------
  // How the stable sort interacts with filtering and with another sort before it.
  // ---------------------------------------------------------------------------------------------

  /** Two elements that do not tie can be inserted in either order. */
  lemma {:induction false} InsertCommutes<T(!new)>(le: (T, T) -> bool, x: T, y: T, s: seq<T>)
    requires TotalPreorder(le) && !(le(x, y) && le(y, x))
    ensures Insert(le, x, Insert(le, y, s)) == Insert(le, y, Insert(le, x, s))
  {
    if s != [] && !le(x, s[0]) && !le(y, s[0]) {
      InsertCommutes(le, x, y, s[1..]);
    }
  }

  lemma {:induction false} InsertFirst<T(!new)>(le: (T, T) -> bool, x: T, s: seq<T>)
    requires forall y :: y in s ==> le(x, y)
    ensures Insert(le, x, s) == [x] + s
  {
  }

  lemma {:induction false} FilterInsert<T(!new)>(le: (T, T) -> bool, keep: T -> bool, x: T, s: seq<T>)
    requires TotalPreorder(le) && SortedBy(le, s)
    ensures Filter(keep, Insert(le, x, s)) == if keep(x) then Insert(le, x, Filter(keep, s)) else Filter(keep, s)
  {
    if s == [] {
      assert Filter(keep, [x]) == if keep(x) then [x] + Filter(keep, []) else Filter(keep, []);
    } else if le(x, s[0]) {
      assert ([x] + s)[1..] == s;
      forall y | y in s ensures le(x, y) {
        assert le(s[0], y);
      }
      InsertFirst(le, x, Filter(keep, s));
    } else {
      var t := Insert(le, x, s[1..]);
      assert ([s[0]] + t)[1..] == t;
      FilterInsert(le, keep, x, s[1..]);
      if keep(s[0]) {
        assert ([s[0]] + Filter(keep, s[1..]))[1..] == Filter(keep, s[1..]);
      }
    }
  }

  /** Filtering a sorted sequence and sorting a filtered one are the same. */
  lemma {:induction false} FilterSort<T(!new)>(le: (T, T) -> bool, keep: T -> bool, s: seq<T>)
    requires TotalPreorder(le)
    ensures Filter(keep, StableSort(le, s)) == StableSort(le, Filter(keep, s))
  {
    if s != [] {
      StableSortOk(le, s[1..]);
      FilterInsert(le, keep, s[0], StableSort(le, s[1..]));
      FilterSort(le, keep, s[1..]);
      if keep(s[0]) {
        assert ([s[0]] + Filter(keep, s[1..]))[1..] == Filter(keep, s[1..]);
      }
    }
  }

  /** If elements that tie under le also tie under pre, sorting by pre first changes nothing. */
  lemma {:induction false} SortAfterSort<T(!new)>(le: (T, T) -> bool, pre: (T, T) -> bool, s: seq<T>)
    requires TotalPreorder(le) && TotalPreorder(pre)
    requires forall x, y :: le(x, y) && le(y, x) ==> pre(x, y)
    ensures StableSort(le, StableSort(pre, s)) == StableSort(le, s)
  {
    if s != [] {
      SortAfterSort(le, pre, s[1..]);
      SortOfInsert(le, pre, s[0], StableSort(pre, s[1..]));
    }
  }

  lemma {:induction false} SortOfInsert<T(!new)>(le: (T, T) -> bool, pre: (T, T) -> bool, x: T, s: seq<T>)
    requires TotalPreorder(le) && TotalPreorder(pre)
    requires forall x, y :: le(x, y) && le(y, x) ==> pre(x, y)
    ensures StableSort(le, Insert(pre, x, s)) == Insert(le, x, StableSort(le, s))
  {
    if s == [] {
      assert StableSort(le, [x]) == Insert(le, x, StableSort(le, []));
    } else if pre(x, s[0]) {
      assert ([x] + s)[1..] == s;
    } else {
      var t := Insert(pre, x, s[1..]);
      assert ([s[0]] + t)[1..] == t;
      SortOfInsert(le, pre, x, s[1..]);
      InsertCommutes(le, x, s[0], StableSort(le, s[1..]));
    }
  }

  /** Sorting commutes with a mapping that the order looks through. */
  lemma {:induction false} MapInsert<S(!new), T>(f: S -> T, le: (T, T) -> bool, leS: (S, S) -> bool, x: S, s: seq<S>)
    requires forall y, z :: leS(y, z) == le(f(y), f(z))
    ensures Map(f, Insert(leS, x, s)) == Insert(le, f(x), Map(f, s))
  {
    MapCons(f, x, s);
    if s != [] && !leS(x, s[0]) {
      MapInsert(f, le, leS, x, s[1..]);
      MapCons(f, s[0], Insert(leS, x, s[1..]));
      assert Map(f, s)[1..] == Map(f, s[1..]);
    }
  }

  lemma {:induction false} MapSort<S(!new), T>(f: S -> T, le: (T, T) -> bool, leS: (S, S) -> bool, s: seq<S>)
    requires forall y, z :: leS(y, z) == le(f(y), f(z))
    ensures Map(f, StableSort(leS, s)) == StableSort(le, Map(f, s))
  {
    if s != [] {
      MapSort(f, le, leS, s[1..]);
      MapInsert(f, le, leS, s[0], StableSort(leS, s[1..]));
      assert Map(f, s)[1..] == Map(f, s[1..]);
    }
  }

  /** A sequence that is strictly ordered is the only sorted arrangement of its contents. */
  lemma {:induction false} SortedUnique<T(!new)>(le: (T, T) -> bool, s: seq<T>, t: seq<T>)
    requires TotalPreorder(le) && multiset(s) == multiset(t) && SortedBy(le, s) && SortedBy(le, t)
    requires forall i, j :: 0 <= i < j < |s| ==> !le(s[j], s[i])
    ensures s == t
  {
    SameContents(s, t);
    if s != [] {
      SameFirst(le, s, t);
      TailContents(s);
      TailContents(t);
      SortedUnique(le, s[1..], t[1..]);
    }
  }

  lemma SameFirst<T(!new)>(le: (T, T) -> bool, s: seq<T>, t: seq<T>)
    requires s != [] && t != [] && (forall x :: x in s <==> x in t) && SortedBy(le, t)
    requires forall i, j :: 0 <= i < j < |s| ==> !le(s[j], s[i])
    ensures s[0] == t[0]
  {
    assert s[0] in t && t[0] in s;
    var i :| 0 <= i < |s| && s[i] == t[0];
    var j :| 0 <= j < |t| && t[j] == s[0];
    assert j > 0 ==> le(t[0], t[j]);
  }

  lemma TailContents<T>(s: seq<T>)
    requires s != []
    ensures multiset(s[1..]) == multiset(s) - multiset{s[0]}
  {
    assert s == [s[0]] + s[1..];
  }
}

/** Joining pieces of text by a separator, and splitting them again. */
module Splitting {

  predicate HasPrefix(s: string, prefix: string) { |prefix| <= |s| && s[..|prefix|] == prefix }

  function Join(parts: seq<string>, sep: char): string
    requires parts != []
  {
    if |parts| == 1 then parts[0] else parts[0] + [sep] + Join(parts[1..], sep)
  }

  /** The pieces between separators; part is what has been read of the first one. */
  function SplitFrom(s: string, sep: char, part: string): (r: seq<string>)
    ensures r != []
  {
    if s == "" then [part]
    else if s[0] == sep then [part] + SplitFrom(s[1..], sep, "")
    else SplitFrom(s[1..], sep, part + [s[0]])
  }

  function Split(s: string, sep: char): seq<string> { SplitFrom(s, sep, "") }

  lemma {:induction false} SplitPart(s: string, rest: string, sep: char, part: string)
    requires sep !in s
    ensures SplitFrom(s + [sep] + rest, sep, part) == [part + s] + Split(rest, sep)
    ensures SplitFrom(s, sep, part) == [part + s]
  {
    if s == "" {
      assert ([sep] + rest)[1..] == rest && s + [sep] + rest == [sep] + rest && part + s == part;
    } else {
      SplitPart(s[1..], rest, sep, part + [s[0]]);
      assert (s + [sep] + rest)[1..] == s[1..] + [sep] + rest && part + [s[0]] + s[1..] == part + s;
    }
  }

  /** Splitting undoes joining when no part contains the separator. */
  lemma {:induction false} SplitJoin(parts: seq<string>, sep: char)
    requires parts != [] && forall i :: 0 <= i < |parts| ==> sep !in parts[i]
    ensures Split(Join(parts, sep), sep) == parts
  {
    assert "" + parts[0] == parts[0];
    if |parts| == 1 {
      SplitPart(parts[0], "", sep, "");
    } else {
      SplitPart(parts[0], Join(parts[1..], sep), sep, "");
      SplitJoin(parts[1..], sep);
    }
  }

  lemma JoinCons(a: string, tail: seq<string>, sep: char)
    requires tail != []
    ensures Join([a] + tail, sep) == a + [sep] + Join(tail, sep)
  {
    assert ([a] + tail)[1..] == tail;
  }

  /** The pieces do not contain the separator, and joining them gives the text back. */
  lemma {:induction false} JoinSplit(s: string, sep: char, part: string)
    requires sep !in part
    ensures Join(SplitFrom(s, sep, part), sep) == part + s
    ensures forall i :: 0 <= i < |SplitFrom(s, sep, part)| ==> sep !in SplitFrom(s, sep, part)[i]
    ensures (sep !in s) == (|SplitFrom(s, sep, part)| == 1)
    ensures |part| <= |SplitFrom(s, sep, part)[0]|
  {
    if s == "" {
      assert part + s == part;
    } else if s[0] == sep {
      JoinSplit(s[1..], sep, "");
      JoinCons(part, SplitFrom(s[1..], sep, ""), sep);
      assert part + [sep] + s[1..] == part + s && "" + s[1..] == s[1..];
    } else {
      JoinSplit(s[1..], sep, part + [s[0]]);
      assert part + [s[0]] + s[1..] == part + s;
    }
  }
}
