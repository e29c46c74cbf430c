/** Tier fallback (internal/routing/policy.go): chains without cycles, the walk down a chain, and the order of rules. */
module Fallback {
  import opened Wrappers
  import opened Sequences
  import opened Sorting

  datatype Tier = Tier(level: int)

  type Chain = map<Tier, Tier>

  // ---------------------------------------------------------------------------------------------
  // Chains.
  // ---------------------------------------------------------------------------------------------

  /** The tier n steps down the chain. */
  function Follow(chain: Chain, t: Tier, n: nat): Option<Tier> {
    if n == 0 then Some(t)
    else
      match Follow(chain, t, n - 1)
      case None => None
      case Some(u) => if u in chain then Some(chain[u]) else None
  }

  /** Some tier leads back to itself. */
  ghost predicate Cyclic(chain: Chain) {
    exists t, n: nat :: Returns(chain, t, n)
  }

  ghost predicate Returns(chain: Chain, t: Tier, n: nat) { n > 0 && Follow(chain, t, n) == Some(t) }

  lemma {:induction false} FollowOn(chain: Chain, t: Tier, u: Tier, n: nat, m: nat)
    requires Follow(chain, t, n) == Some(u)
    ensures Follow(chain, t, n + m) == Follow(chain, u, m)
  {
    if m > 0 {
      FollowOn(chain, t, u, n, m - 1);
    }
  }

  lemma {:induction false} FollowBack(chain: Chain, t: Tier, n: nat, m: nat)
    requires m <= n && Follow(chain, t, n).Some?
    ensures Follow(chain, t, m).Some?
    decreases n - m
  {
    if m < n {
      FollowBack(chain, t, n, m + 1);
    }
  }

  /** From a tier on a cycle the walk never ends. */
  lemma {:induction false} NeverEnds(chain: Chain, t: Tier, n: nat, m: nat)
    requires Returns(chain, t, n)
    ensures Follow(chain, t, m).Some?
    decreases m
  {
    if m <= n {
      FollowBack(chain, t, n, m);
    } else {
      FollowOn(chain, t, t, n, m - n);
      NeverEnds(chain, t, n, m - n);
    }
  }

  /** Two tiers of one walk that are the same lie on a cycle. */
  lemma RepeatIsCycle(chain: Chain, t: Tier, i: nat, j: nat)
    requires i < j && Follow(chain, t, i).Some? && Follow(chain, t, i) == Follow(chain, t, j)
    ensures Cyclic(chain)
  {
    var u := Follow(chain, t, i).value;
    FollowOn(chain, t, u, i, j - i);
    assert Returns(chain, u, j - i);
  }

  /** The tiers of a walk so far, all different. */
  ghost predicate Walked(chain: Chain, start: Tier, k: nat, tier: Tier, visited: set<Tier>) {
    && Follow(chain, start, k) == Some(tier) && |visited| == k + 1
    && (forall u {:trigger u in visited} :: u in visited ==> exists i: nat :: i <= k && Follow(chain, start, i) == Some(u))
    && visited <= {start} + chain.Values
  }

  lemma WalkBounded(chain: Chain, start: Tier, k: nat, tier: Tier, visited: set<Tier>)
    requires Walked(chain, start, k, tier, visited)
    ensures k + 1 <= |{start} + chain.Values|
  {
    var all := {start} + chain.Values;
    assert all == visited + (all - visited);
  }

  lemma WalkNext(chain: Chain, start: Tier, k: nat, tier: Tier, visited: set<Tier>)
    requires Walked(chain, start, k, tier, visited) && tier in chain
    ensures chain[tier] in visited ==> Cyclic(chain)
    ensures chain[tier] !in visited ==> Walked(chain, start, k + 1, chain[tier], visited + {chain[tier]})
  {
    var next := chain[tier];
    if next in visited {
      var i: nat :| i <= k && Follow(chain, start, i) == Some(next);
      RepeatIsCycle(chain, start, i, k + 1);
    } else {
      forall u | u in visited + {next} ensures exists i: nat :: i <= k + 1 && Follow(chain, start, i) == Some(u) {
        if u == next {
          assert Follow(chain, start, k + 1) == Some(next);
        } else {
          var i: nat :| i <= k && Follow(chain, start, i) == Some(u);
          assert i <= k + 1;
        }
      }
    }
  }

  /** Accepts a chain if and only if it has no cycle, of whatever length. It ends on every map. */
  method ValidateFallbackChain(chain: Chain) returns (ok: bool)
    ensures ok <==> !Cyclic(chain)
  {
    var starts := chain.Keys;
    while starts != {}
      invariant starts <= chain.Keys
      invariant forall t, n: nat {:trigger Returns(chain, t, n)} :: t in chain && t !in starts ==> !Returns(chain, t, n)
      decreases starts
    {
      var start :| start in starts;
      var ends := WalkEnds(chain, start);
      if !ends {
        return false;
      }
      starts := starts - {start};
    }
    forall t, n: nat ensures !Returns(chain, t, n) {
      if Returns(chain, t, n) {
        ReturnsInside(chain, t, n);
      }
    }
    return true;
  }

  lemma ReturnsInside(chain: Chain, t: Tier, n: nat)
    requires Returns(chain, t, n)
    ensures t in chain
  {
    FollowBack(chain, t, n, 1);
    assert Follow(chain, t, 0) == Some(t);
  }

  /** Walks from one tier until the chain ends or comes back to a tier already passed. */
  method WalkEnds(chain: Chain, start: Tier) returns (ends: bool)
    ensures ends ==> forall n: nat {:trigger Returns(chain, start, n)} :: !Returns(chain, start, n)
    ensures !ends ==> Cyclic(chain)
  {
    var visited, tier := {start}, start;
    ghost var k: nat := 0;
    while tier in chain
      invariant Walked(chain, start, k, tier, visited)
      decreases |{start} + chain.Values| - k
    {
      WalkNext(chain, start, k, tier, visited);
      WalkBounded(chain, start, k, tier, visited);
      if chain[tier] in visited {
        return false;
      }
      tier := chain[tier];
      visited := visited + {tier};
      k := k + 1;
      WalkBounded(chain, start, k, tier, visited);
    }
    forall n: nat ensures !Returns(chain, start, n) {
      if Returns(chain, start, n) {
        NeverEnds(chain, start, n, k + 1);
      }
    }
    return true;
  }

  // ---------------------------------------------------------------------------------------------
  // The budget gate.
  // ---------------------------------------------------------------------------------------------

  /** What a tier has spent, and where it stops; no limit when that is not positive. */
  datatype Budget = Budget(hardLimit: real, spent: real)
  {
    predicate Exhausted() { hardLimit > 0.0 && spent >= hardLimit }
  }

  type Budgets = map<Tier, Budget>

  predicate IsExhausted(budgets: Budgets, t: Tier) { t in budgets && budgets[t].Exhausted() }

  /** The walk stops here: there is budget, or there is nowhere to go. */
  predicate Stops(chain: Chain, budgets: Budgets, t: Tier) { !IsExhausted(budgets, t) || t !in chain }

  /** The first tier down the chain at which the walk stops. */
  ghost predicate FirstStop(chain: Chain, budgets: Budgets, t: Tier, n: nat, u: Tier) {
    && Follow(chain, t, n) == Some(u) && Stops(chain, budgets, u)
    && NoStopBefore(chain, budgets, t, n)
  }

  ghost predicate NoStopBefore(chain: Chain, budgets: Budgets, t: Tier, n: nat) {
    forall i: nat :: i < n ==> Follow(chain, t, i).Some? && !Stops(chain, budgets, Follow(chain, t, i).value)
  }

  lemma NoStopNext(chain: Chain, budgets: Budgets, t: Tier, n: nat, tier: Tier)
    requires NoStopBefore(chain, budgets, t, n) && Follow(chain, t, n) == Some(tier) && !Stops(chain, budgets, tier)
    ensures NoStopBefore(chain, budgets, t, n + 1) && tier in chain && Follow(chain, t, n + 1) == Some(chain[tier])
  {
  }

  /** Every tier that the walk goes past has a limit and has spent it. */
  lemma OnlySpentPassed(chain: Chain, budgets: Budgets, t: Tier, n: nat, i: nat, u: Tier)
    requires NoStopBefore(chain, budgets, t, n) && i < n && Follow(chain, t, i) == Some(u)
    ensures u in chain && u in budgets && 0.0 < budgets[u].hardLimit <= budgets[u].spent
  {
  }

  datatype Decision = Decision(tier: Tier, reason: string, downgradedFrom: Tier)

  /** After n steps at a tier, with those before it visited: it is a new one, or it has been met before. */
  ghost predicate Passing(chain: Chain, start: Tier, n: nat, tier: Tier, visited: set<Tier>) {
    if tier in visited then Cyclic(chain) else Walked(chain, start, n, tier, visited + {tier})
  }

  lemma PassFirst(chain: Chain, start: Tier)
    ensures Passing(chain, start, 0, start, {})
  {
    assert {} + {start} == {start};
  }

  lemma PassBounded(chain: Chain, start: Tier, n: nat, tier: Tier, visited: set<Tier>)
    requires Passing(chain, start, n, tier, visited) && tier !in visited
    ensures n + 1 <= |{start} + chain.Values|
  {
    WalkBounded(chain, start, n, tier, visited + {tier});
  }

  lemma PassNext(chain: Chain, start: Tier, n: nat, tier: Tier, visited: set<Tier>)
    requires Passing(chain, start, n, tier, visited) && tier !in visited && tier in chain
    ensures Passing(chain, start, n + 1, chain[tier], visited + {tier})
    ensures chain[tier] !in visited + {tier} ==> n + 2 <= |{start} + chain.Values|
  {
    WalkNext(chain, start, n, tier, visited + {tier});
    if chain[tier] !in visited + {tier} {
      PassBounded(chain, start, n + 1, chain[tier], visited + {tier});
    }
  }

  /** Goes down the chain while budgets are exhausted. On a chain that was accepted it ends at the first tier that stops it,
      and the guard against tiers already visited is never what ends it. */
  method ApplyBudget(chain: Chain, budgets: Budgets, d: Decision) returns (r: Decision, ghost n: nat, ghost guarded: bool)
    ensures guarded ==> Cyclic(chain)
    ensures !Cyclic(chain) ==> FirstStop(chain, budgets, d.tier, n, r.tier)
    ensures !Cyclic(chain) && r.tier in chain && r.tier in budgets ==>
              budgets[r.tier].hardLimit <= 0.0 || budgets[r.tier].spent < budgets[r.tier].hardLimit
    ensures r == if r.tier == d.tier then d else Decision(r.tier, d.reason + "+budget_downgrade", d.tier)
  {
    var visited: set<Tier>, tier, done := {}, d.tier, false;
    n, guarded := 0, false;
    PassFirst(chain, d.tier);
    while tier !in visited && !done
      invariant Follow(chain, d.tier, n) == Some(tier) && NoStopBefore(chain, budgets, d.tier, n)
      invariant if done then Stops(chain, budgets, tier) else Passing(chain, d.tier, n, tier, visited)
      decreases if tier in visited || done then 0 else 1, |{d.tier} + chain.Values| - n
    {
      PassBounded(chain, d.tier, n, tier, visited);
      if Stops(chain, budgets, tier) {
        visited := visited + {tier};
        done := true;
      } else {
        NoStopNext(chain, budgets, d.tier, n, tier);
        PassNext(chain, d.tier, n, tier, visited);
        visited := visited + {tier};
        tier := chain[tier];
        n := n + 1;
      }
    }
    guarded := !done;
    r := if tier == d.tier then d else Decision(tier, d.reason + "+budget_downgrade", d.tier);
  }

  // ---------------------------------------------------------------------------------------------
  // The order of rules.
  // ---------------------------------------------------------------------------------------------

  datatype Rule = Rule(name: string, priority: int)

  predicate ByPriority(x: Rule, y: Rule) { x.priority <= y.priority }

  function HasPriority(p: int): Rule -> bool { (r: Rule) => r.priority == p }

  /** The same rules of every priority, in the same order among themselves. */
  ghost predicate SameWithin(s: seq<Rule>, t: seq<Rule>) {
    forall p {:trigger Filter(HasPriority(p), s)} {:trigger Filter(HasPriority(p), t)} :: Filter(HasPriority(p), s) == Filter(HasPriority(p), t)
  }

  lemma SwapKeeps(s: seq<Rule>, j: nat)
    requires 0 < j < |s| && s[j].priority != s[j - 1].priority
    ensures SameWithin(s, s[j := s[j - 1]][j - 1 := s[j]])
  {
    var t := s[j := s[j - 1]][j - 1 := s[j]];
    forall p ensures Filter(HasPriority(p), s) == Filter(HasPriority(p), t) {
      var keep := HasPriority(p);
      assert s == s[..j - 1] + ([s[j - 1]] + ([s[j]] + s[j + 1..]));
      assert t == s[..j - 1] + ([s[j]] + ([s[j - 1]] + s[j + 1..]));
      FilterAppend(keep, s[..j - 1], [s[j - 1]] + ([s[j]] + s[j + 1..]));
      FilterAppend(keep, s[..j - 1], [s[j]] + ([s[j - 1]] + s[j + 1..]));
      FilterCons(keep, s[j - 1], [s[j]] + s[j + 1..]);
      FilterCons(keep, s[j], s[j + 1..]);
      FilterCons(keep, s[j], [s[j - 1]] + s[j + 1..]);
      FilterCons(keep, s[j - 1], s[j + 1..]);
    }
  }

  lemma FilterCons<T>(keep: T -> bool, x: T, s: seq<T>)
    ensures Filter(keep, [x] + s) == (if keep(x) then [x] else []) + Filter(keep, s)
  {
    assert ([x] + s)[1..] == s;
  }

  /** Sorted up to i, the element at j not yet compared with those before it. */
  ghost predicate SortedBut(s: seq<Rule>, i: nat, j: nat) {
    && j <= i < |s|
    && forall k, l :: 0 <= k < l <= i && l != j ==> s[k].priority <= s[l].priority
  }

  ghost predicate SortedTo(s: seq<Rule>, n: nat) {
    n <= |s| && forall k, l :: 0 <= k < l < n ==> s[k].priority <= s[l].priority
  }

  lemma SwapSinks(s: seq<Rule>, i: nat, j: nat)
    requires SortedBut(s, i, j) && 0 < j && s[j].priority < s[j - 1].priority
    ensures SortedBut(s[j := s[j - 1]][j - 1 := s[j]], i, j - 1)
  {
  }

  method SwapAt(rules: array<Rule>, j: nat)
    requires 0 < j < rules.Length
    modifies rules
    ensures rules[..] == old(rules[..])[j := old(rules[j - 1])][j - 1 := old(rules[j])]
  {
    rules[j], rules[j - 1] := rules[j - 1], rules[j];
  }

  /** Moves the rule at i down past those of lower rank. */
  method Sink(rules: array<Rule>, i: nat)
    requires i < rules.Length && SortedTo(rules[..], i)
    modifies rules
    ensures SortedTo(rules[..], i + 1) && SameWithin(old(rules[..]), rules[..])
  {
    var j := i;
    while j > 0 && rules[j].priority < rules[j - 1].priority
      invariant 0 <= j <= i && SortedBut(rules[..], i, j) && SameWithin(old(rules[..]), rules[..])
    {
      SwapKeeps(rules[..], j);
      SwapSinks(rules[..], i, j);
      SwapAt(rules, j);
      j := j - 1;
    }
  }

  function Least(a: nat, b: nat): nat { if a < b then a else b }

  /** Sorts the rules by priority in place; rules of equal priority stay in order. */
  method StableSortRules(rules: array<Rule>)
    modifies rules
    ensures SortedBy(ByPriority, rules[..]) && SameWithin(old(rules[..]), rules[..])
  {
    var i := 1;
    while i < rules.Length
      invariant 1 <= i && SortedTo(rules[..], Least(i, rules.Length))
      invariant SameWithin(old(rules[..]), rules[..])
    {
      Sink(rules, i);
      i := i + 1;
    }
  }

  lemma Cancel<T>(a: seq<T>, s: seq<T>, t: seq<T>)
    requires a + s == a + t
    ensures s == t
  {
    assert (a + s)[|a|..] == s && (a + t)[|a|..] == t;
  }

  lemma NothingLeft(t: seq<Rule>)
    requires SameWithin([], t)
    ensures t == []
  {
    forall i | 0 <= i < |t| ensures Filter(HasPriority(t[i].priority), t) != [] {
      FilterKeeps(HasPriority(t[i].priority), t);
      assert t[i] in Filter(HasPriority(t[i].priority), t);
    }
    assert t != [] ==> Filter(HasPriority(t[0].priority), []) == [];
  }

  /** Order and stability leave one result. */
  lemma {:induction false} StableOrderUnique(s: seq<Rule>, t: seq<Rule>)
    requires SortedBy(ByPriority, s) && SortedBy(ByPriority, t) && SameWithin(s, t)
    ensures s == t
  {
    if s == [] {
      NothingLeft(t);
    } else {
      SameFirst(s, t);
      forall p ensures Filter(HasPriority(p), s[1..]) == Filter(HasPriority(p), t[1..]) {
        assert s == [s[0]] + s[1..] && t == [t[0]] + t[1..];
        FilterCons(HasPriority(p), s[0], s[1..]);
        FilterCons(HasPriority(p), t[0], t[1..]);
        assert Filter(HasPriority(p), s) == Filter(HasPriority(p), t);
        Cancel(if HasPriority(p)(s[0]) then [s[0]] else [], Filter(HasPriority(p), s[1..]), Filter(HasPriority(p), t[1..]));
      }
      StableOrderUnique(s[1..], t[1..]);
    }
  }

  /** What comes first in one comes first in the other. */
  lemma SameFirst(s: seq<Rule>, t: seq<Rule>)
    requires SortedBy(ByPriority, s) && SortedBy(ByPriority, t) && SameWithin(s, t) && s != []
    ensures t != [] && s[0] == t[0]
  {
    var p := s[0].priority;
    assert Filter(HasPriority(p), s) == Filter(HasPriority(p), t);
    FirstOfFilter(s, p);
    assert s[0] in Filter(HasPriority(p), t);
    var q := t[0].priority;
    assert Filter(HasPriority(q), s) == Filter(HasPriority(q), t);
    FirstOfFilter(t, q);
    assert t[0] in Filter(HasPriority(q), s);
    assert t[0] in s && s[0] in t;
    var i :| 0 <= i < |s| && s[i] == t[0];
    var j :| 0 <= j < |t| && t[j] == s[0];
    assert (i > 0 ==> ByPriority(s[0], s[i])) && (j > 0 ==> ByPriority(t[0], t[j]));
    assert p == q;
  }

  lemma FirstOfFilter(s: seq<Rule>, p: int)
    requires s != [] && s[0].priority == p
    ensures Filter(HasPriority(p), s) != [] && Filter(HasPriority(p), s)[0] == s[0]
  {
  }
}
