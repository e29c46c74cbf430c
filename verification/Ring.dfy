/** Consistent hashing with bounded loads (internal/affinity/prefix.go). The hash of a virtual node is a parameter. */
module Ring {
  import opened Wrappers
  import opened Sequences
  import opened Sorting

  const VIRTUAL_NODES := 128

  datatype Node = Node(hash: int, member: string)

  predicate ByHash(x: Node, y: Node) { x.hash <= y.hash }

  lemma HashIsTotal()
    ensures TotalPreorder(ByHash)
  {
  }

  type Loads = map<string, int>

  // ---------------------------------------------------------------------------------------------
  // Going round.
  // ---------------------------------------------------------------------------------------------

  function Members(nodes: seq<Node>): set<string> { set n | n in nodes :: n.member }

  /** The nodes clockwise from a position. */
  function Rotated(nodes: seq<Node>, start: nat): seq<Node>
    requires start <= |nodes|
  {
    nodes[start..] + nodes[..start]
  }

  method NodeAt(nodes: seq<Node>, start: nat, i: nat) returns (n: Node)
    requires start <= |nodes| && i < |nodes|
    ensures n == Rotated(nodes, start)[i]
  {
    Modulo(start + i, |nodes|);
    n := nodes[(start + i) % |nodes|];
  }

  lemma Modulo(a: nat, n: nat)
    requires 0 < n && a < 2 * n
    ensures a % n == if a < n then a else a - n
  {
    if a >= n {
      assert a == 1 * n + (a - n);
    }
  }

  predicate IsEligible(eligible: Option<set<string>>, member: string) { eligible.None? || member in eligible.value }

  function EligibleMembers(eligible: Option<set<string>>, members: seq<string>): seq<string> {
    Filter((m: string) => IsEligible(eligible, m), members)
  }

  /** The load below which a member may take more. */
  function Capacity(total: int, count: nat, factor: real): int
    requires count > 0
  {
    (total as real / count as real * factor).Floor + 1
  }

  predicate IsFree(node: Node, eligible: Option<set<string>>, loads: Loads, capacity: int) {
    IsEligible(eligible, node.member) && node.member in loads && loads[node.member] < capacity
  }

  /** Position t holds the first node whose member is eligible and below capacity. */
  predicate FirstFree(round: seq<Node>, t: nat, eligible: Option<set<string>>, loads: Loads, capacity: int) {
    t < |round| && IsFree(round[t], eligible, loads, capacity) && forall i :: 0 <= i < t ==> !IsFree(round[i], eligible, loads, capacity)
  }

  /** The search gives up here: an eligible member is met for the first time and cannot take more, and as many members
      have been met by then as are eligible. */
  predicate GivesUp(round: seq<Node>, j: nat, eligible: Option<set<string>>, loads: Loads, capacity: int, count: nat) {
    && j < |round| && IsEligible(eligible, round[j].member) && !IsFree(round[j], eligible, loads, capacity)
    && round[j].member !in Members(round[..j]) && |Members(round[..j + 1])| >= count
  }

  /** Nothing found up to a position, and no reason to give up. */
  ghost predicate Searched(round: seq<Node>, i: nat, eligible: Option<set<string>>, loads: Loads, capacity: int, count: nat) {
    && i <= |round| && (forall j :: 0 <= j < i ==> !IsFree(round[j], eligible, loads, capacity))
    && (forall j: nat {:trigger GivesUp(round, j, eligible, loads, capacity, count)} :: j < i ==> !GivesUp(round, j, eligible, loads, capacity, count))
  }

  lemma NextIsFree(round: seq<Node>, i: nat, eligible: Option<set<string>>, loads: Loads, capacity: int, count: nat)
    requires Searched(round, i, eligible, loads, capacity, count) && i < |round| && IsFree(round[i], eligible, loads, capacity)
    ensures Reaches(round, i, eligible, loads, capacity, count)
  {
  }

  lemma NextGivesUp(round: seq<Node>, i: nat, eligible: Option<set<string>>, loads: Loads, capacity: int, count: nat)
    requires Searched(round, i, eligible, loads, capacity, count) && GivesUp(round, i, eligible, loads, capacity, count)
    ensures forall u: nat :: !Reaches(round, u, eligible, loads, capacity, count)
  {
  }

  lemma NextPasses(round: seq<Node>, i: nat, eligible: Option<set<string>>, loads: Loads, capacity: int, count: nat)
    requires Searched(round, i, eligible, loads, capacity, count) && i < |round|
    requires round[i].member in Members(round[..i]) || !IsEligible(eligible, round[i].member)
             || (!IsFree(round[i], eligible, loads, capacity) && |Members(round[..i + 1])| < count)
    ensures Searched(round, i + 1, eligible, loads, capacity, count)
  {
    if round[i].member in Members(round[..i]) {
      SeenBefore(round, i, eligible, loads, capacity);
    }
    assert !GivesUp(round, i, eligible, loads, capacity, count);
  }

  /** The first search comes to position t. */
  ghost predicate Reaches(round: seq<Node>, t: nat, eligible: Option<set<string>>, loads: Loads, capacity: int, count: nat) {
    FirstFree(round, t, eligible, loads, capacity) && forall j: nat {:trigger GivesUp(round, j, eligible, loads, capacity, count)} :: j < t ==> !GivesUp(round, j, eligible, loads, capacity, count)
  }

  /** What Pick chooses. */
  ghost predicate Chosen(round: seq<Node>, t: nat, eligible: Option<set<string>>, loads: Loads, capacity: int, count: nat) {
    if exists u: nat :: Reaches(round, u, eligible, loads, capacity, count) then Reaches(round, t, eligible, loads, capacity, count)
    else FirstEligible(round, t, eligible)
  }

  ghost predicate StartsAt(nodes: seq<Node>, key: int, start: nat) {
    && start <= |nodes| && (forall i :: 0 <= i < start ==> nodes[i].hash < key)
    && forall i :: start <= i < |nodes| ==> nodes[i].hash >= key
  }

  predicate FirstEligible(round: seq<Node>, t: nat, eligible: Option<set<string>>) {
    t < |round| && IsEligible(eligible, round[t].member) && forall i :: 0 <= i < t ==> !IsEligible(eligible, round[i].member)
  }

  // ---------------------------------------------------------------------------------------------
  // Sums of loads.
  // ---------------------------------------------------------------------------------------------

  function SumOf(members: seq<string>, loads: Loads): int
    requires forall m :: m in members ==> m in loads
  {
    if members == [] then 0 else loads[members[0]] + SumOf(members[1..], loads)
  }

  lemma {:induction false} SumAtLeast(members: seq<string>, loads: Loads, low: int)
    requires forall m :: m in members ==> m in loads && loads[m] >= low
    ensures SumOf(members, loads) >= |members| * low
  {
    if members != [] {
      SumAtLeast(members[1..], loads, low);
    }
  }

  lemma {:induction false} SumChange(members: seq<string>, loads: Loads, m: string, change: int)
    requires Distinct(members) && (forall x :: x in members ==> x in loads) && m in loads
    ensures SumOf(members, loads[m := loads[m] + change]) == SumOf(members, loads) + if m in members then change else 0
  {
    if members != [] {
      SumChange(members[1..], loads, m, change);
      assert members[0] !in members[1..];
    }
  }

  /** With a factor of at least one, and a total that counts every load, someone is below capacity. */
  lemma SomeoneIsFree(members: seq<string>, loads: Loads, total: int, factor: real)
    requires members != [] && (forall m :: m in members ==> m in loads)
    requires 0 <= total && SumOf(members, loads) <= total && factor >= 1.0
    ensures exists m :: m in members && loads[m] < Capacity(total, |members|, factor)
  {
    var n, cap := |members|, Capacity(total, |members|, factor);
    var x := total as real / n as real * factor;
    assert cap as real > x;
    CapacityExceeds(total, n, factor, cap);
    if forall m :: m in members ==> loads[m] >= cap {
      SumAtLeast(members, loads, cap);
    }
  }

  lemma CapacityExceeds(total: int, n: nat, factor: real, cap: int)
    requires n > 0 && total >= 0 && factor >= 1.0 && cap as real > total as real / n as real * factor
    ensures n * cap > total
  {
    var t, k, x := total as real, n as real, total as real / n as real;
    assert x * k == t;
    MulReal(x, factor);
    assert cap as real > x;
    MulLess(x, cap as real, k);
    assert (n * cap) as real == k * cap as real;
  }

  lemma MulReal(x: real, factor: real)
    requires x >= 0.0 && factor >= 1.0
    ensures x * factor >= x
  {
    assert x * (factor - 1.0) >= 0.0;
  }

  lemma MulLess(x: real, y: real, k: real)
    requires x < y && k > 0.0
    ensures x * k < k * y
  {
    assert (y - x) * k > 0.0;
  }

  /** The members of a list, each once. */
  ghost function Unique(members: seq<string>): seq<string> {
    if members == [] then [] else if members[0] in members[1..] then Unique(members[1..]) else [members[0]] + Unique(members[1..])
  }

  lemma {:induction false} UniqueOnce(members: seq<string>)
    ensures Distinct(Unique(members)) && forall m :: m in Unique(members) <==> m in members
    ensures Distinct(members) ==> Unique(members) == members
  {
    if members != [] {
      UniqueOnce(members[1..]);
      assert forall m :: m in members <==> m == members[0] || m in members[1..];
      if Distinct(members) {
        assert members[0] !in members[1..];
      }
    }
  }

  /** What is under way at the members of a list, at one listed twice counted once. */
  ghost function AllLoads(members: seq<string>, loads: Loads): int
    requires forall m :: m in members ==> m in loads
  {
    UniqueOnce(members);
    SumOf(Unique(members), loads)
  }

  lemma LoadsChange(members: seq<string>, loads: Loads, m: string, change: int)
    requires (forall x :: x in members ==> x in loads && loads[x] >= 0) && m in members
    ensures AllLoads(members, loads[m := loads[m] + change]) == AllLoads(members, loads) + change
    ensures 0 <= loads[m] <= AllLoads(members, loads)
  {
    UniqueOnce(members);
    SumChange(Unique(members), loads, m, change);
    SumPositive(Unique(members), loads);
  }

  ghost predicate CountsAll(members: seq<string>, loads: Loads, total: int) {
    (forall m :: m in members ==> m in loads) && AllLoads(members, loads) <= total
  }

  lemma OneMore(members: seq<string>, loads: Loads, m: string, total: int, more: Loads)
    requires LoadsFit(members, loads) && m in loads && more == loads[m := loads[m] + 1]
    ensures LoadsFit(members, more)
    ensures CountsAll(members, loads, total) ==> CountsAll(members, more, total + 1)
  {
    LoadsChange(members, loads, m, 1);
  }

  lemma OneLess(members: seq<string>, loads: Loads, m: string, total: int)
    requires LoadsFit(members, loads) && m in loads
    ensures CountsAll(members, loads, total) && loads[m] > 0 ==>
              CountsAll(members, loads[m := AtLeastZero(loads[m] - 1)], AtLeastZero(total - 1))
  {
    LoadsChange(members, loads, m, AtLeastZero(loads[m] - 1) - loads[m]);
  }

  /** The members have loads, none of them negative. */
  ghost predicate LoadsFit(members: seq<string>, loads: Loads) {
    (forall m :: m in members <==> m in loads) && forall m :: m in loads ==> loads[m] >= 0
  }

  lemma MoreIsSound(members: seq<string>, loads: Loads, m: string, change: int)
    requires LoadsFit(members, loads) && m in loads && loads[m] + change >= 0
    ensures LoadsFit(members, loads[m := loads[m] + change])
  {
  }

  lemma NoLoads(members: seq<string>, loads: Loads)
    requires forall m :: m in members ==> m in loads && loads[m] == 0
    ensures AllLoads(members, loads) == 0
  {
    UniqueOnce(members);
    SumZero(Unique(members), loads);
  }

  lemma LoadsKept(before: seq<string>, loads: Loads, after: seq<string>, kept: Loads)
    requires (forall m :: m in before ==> m in loads && loads[m] >= 0) && forall m :: m in after ==> m in kept
    requires forall m :: m in after ==> kept[m] == if m in before then loads[m] else 0
    ensures AllLoads(after, kept) <= AllLoads(before, loads)
  {
    UniqueOnce(before);
    UniqueOnce(after);
    SumKept(Unique(before), loads, Unique(after), kept);
  }

  // ---------------------------------------------------------------------------------------------
  // The ring.
  // ---------------------------------------------------------------------------------------------

  function NodesOf(hash: (string, nat) -> int, m: string, n: nat): seq<Node> {
    seq(n, i requires 0 <= i < n => Node(hash(m, i), m))
  }

  function AllNodes(hash: (string, nat) -> int, members: seq<string>): seq<Node> {
    if members == [] then [] else AllNodes(hash, members[..|members| - 1]) + NodesOf(hash, members[|members| - 1], VIRTUAL_NODES)
  }

  lemma {:induction false} AllNodesMembers(hash: (string, nat) -> int, members: seq<string>)
    ensures forall m :: m in members <==> m in Members(AllNodes(hash, members))
    ensures members != [] ==> AllNodes(hash, members) != []
  {
    if members != [] {
      var n := |members| - 1;
      AllNodesMembers(hash, members[..n]);
      var own := NodesOf(hash, members[n], VIRTUAL_NODES);
      assert own[0].member == members[n];
      assert forall x :: x in own ==> x.member == members[n];
      assert members == members[..n] + [members[n]];
      forall m ensures m in members <==> m in Members(AllNodes(hash, members)) {
        assert m in Members(own) <==> m == members[n] by {
          assert own[0] in own;
        }
        assert m in Members(AllNodes(hash, members)) <==> m in Members(AllNodes(hash, members[..n])) || m in Members(own);
      }
    }
  }

  class HashRing {
    const hash: (string, nat) -> int
    const loadFactor: real
    var nodes: seq<Node>
    var members: seq<string>
    var loads: Loads
    var total: int

    /** The nodes are those of the members in hash order. */
    ghost predicate Valid()
      reads this
    {
      && loadFactor >= 1.0
      && multiset(nodes) == multiset(AllNodes(hash, members)) && SortedBy(ByHash, nodes)
      && LoadsFit(members, loads) && total >= 0
    }

    /** No request is under way. */
    ghost predicate Idle()
      reads this
    {
      total == 0 && forall m :: m in loads ==> loads[m] == 0
    }

    /** The total counts every load, that of a member listed twice once. */
    ghost predicate Counted()
      requires Valid()
      reads this
    {
      CountsAll(members, loads, total)
    }

    constructor (hash: (string, nat) -> int, members: seq<string>, loadFactor: real)
      ensures Valid() && Counted() && this.members == members && total == 0 && forall m :: m in members ==> loads[m] == 0
      ensures this.hash == hash && this.loadFactor == if loadFactor < 1.0 then 1.25 else loadFactor
    {
      this.hash := hash;
      this.loadFactor := if loadFactor < 1.0 then 1.25 else loadFactor;
      nodes, this.members, loads, total := [], [], map[], 0;
      new;
      Rebuild(members);
      NoLoads(members, loads);
    }

    /** Members come and go. Who stays keeps the load; the total keeps what those who left still had. */
    method Rebuild(members: seq<string>)
      requires Valid()
      modifies this
      ensures Valid() && this.members == members && (old(Counted()) ==> Counted())
      ensures forall m :: m in members ==> loads[m] == if m in old(loads) then old(loads)[m] else 0
      ensures total == old(total)
    {
      var all: seq<Node> := [];
      var kept: Loads := map[];
      for i := 0 to |members|
        invariant all == AllNodes(hash, members[..i])
        invariant forall m :: m in kept <==> m in members[..i]
        invariant forall m :: m in kept ==> kept[m] == if m in loads then loads[m] else 0
      {
        assert members[..i + 1] == members[..i] + [members[i]] && members[..i + 1][..i] == members[..i];
        all := all + NodesOf(hash, members[i], VIRTUAL_NODES);
        kept := kept[members[i] := if members[i] in loads then loads[members[i]] else 0];
      }
      assert members[..|members|] == members;
      HashIsTotal();
      LoadsKept(this.members, loads, members, kept);
      nodes := Sort(ByHash, all);
      this.members, loads := members, kept;
    }

    /** The position of the first node at or after a key. */
    method Search(key: int) returns (start: nat)
      requires SortedBy(ByHash, nodes)
      ensures StartsAt(nodes, key, start)
    {
      start := 0;
      var end := |nodes|;
      while start < end
        invariant 0 <= start <= end <= |nodes|
        invariant (forall i :: 0 <= i < start ==> nodes[i].hash < key) && forall i :: end <= i < |nodes| ==> nodes[i].hash >= key
      {
        var mid := (start + end) / 2;
        assert forall i :: 0 <= i < mid ==> ByHash(nodes[i], nodes[mid]);
        assert forall i :: mid < i < |nodes| ==> ByHash(nodes[mid], nodes[i]);
        if nodes[mid].hash >= key {
          end := mid;
        } else {
          start := mid + 1;
        }
      }
    }

    /** The first search, for an eligible member below capacity; none if it gives up or comes round. */
    method FindFree(first: nat, eligible: Option<set<string>>, capacity: int, count: nat) returns (found: Option<nat>)
      requires first <= |nodes| && nodes != []
      ensures var round := Rotated(nodes, first);
              match found
              case Some(t) => Reaches(round, t, eligible, loads, capacity, count)
              case None => forall u: nat :: !Reaches(round, u, eligible, loads, capacity, count)
    {
      ghost var round := Rotated(nodes, first);
      var seen: set<string> := {};
      for i := 0 to |nodes|
        invariant seen == Members(round[..i]) && Searched(round, i, eligible, loads, capacity, count)
      {
        var node := NodeAt(nodes, first, i);
        MembersNext(round, i);
        if node.member !in seen {
          if IsEligible(eligible, node.member) {
            if node.member in loads && loads[node.member] < capacity {
              NextIsFree(round, i, eligible, loads, capacity, count);
              return Some(i);
            }
            if |seen + {node.member}| >= count {
              NextGivesUp(round, i, eligible, loads, capacity, count);
              return None;
            }
          }
        }
        seen := seen + {node.member};
        NextPasses(round, i, eligible, loads, capacity, count);
      }
      return None;
    }

    /** The fallback, the first eligible member. */
    method FindEligible(first: nat, eligible: Option<set<string>>) returns (k: nat)
      requires first <= |nodes| && nodes != []
      requires exists i :: 0 <= i < |Rotated(nodes, first)| && IsEligible(eligible, Rotated(nodes, first)[i].member)
      ensures FirstEligible(Rotated(nodes, first), k, eligible)
    {
      ghost var round := Rotated(nodes, first);
      k := 0;
      var node := NodeAt(nodes, first, 0);
      while !IsEligible(eligible, node.member)
        invariant k < |nodes| && node == round[k] && forall j :: 0 <= j < k ==> !IsEligible(eligible, round[j].member)
        decreases |nodes| - k
      {
        k := k + 1;
        node := NodeAt(nodes, first, k);
      }
    }

    /** The outcome of a search that began at one position and ended t nodes on. */
    ghost predicate Picked(key: int, eligible: Option<set<string>>, r: Option<string>, start: nat, t: nat)
      reads this
    {
      && StartsAt(nodes, key, start)
      && var count := |EligibleMembers(eligible, members)|;
         if count == 0 then r == None
         else var round := Rotated(nodes, start);
              r.Some? && t < |round| && r.value == round[t].member
              && Chosen(round, t, eligible, loads, Capacity(total, count, loadFactor), count)
    }

    /** Chooses a member for a key: clockwise from the key the first that is eligible and below capacity, unless the search
        gives up before it; then the first that is eligible. */
    method Pick(key: int, eligible: Option<set<string>>) returns (r: Option<string>, ghost start: nat, ghost t: nat)
      requires Valid()
      ensures Picked(key, eligible, r, start, t)
    {
      var first := Search(key);
      start, t := first, 0;
      var count := |EligibleMembers(eligible, members)|;
      if |nodes| == 0 || count == 0 {
        NoNodes(hash, members, nodes);
        return None, start, 0;
      }
      var found := FindFree(first, eligible, Capacity(total, count, loadFactor), count);
      if found.Some? {
        t := found.value;
        var free := NodeAt(nodes, first, found.value);
        return Some(free.member), start, t;
      }
      SomeEligible(hash, members, nodes, start, eligible);
      var k := FindEligible(first, eligible);
      t := k;
      var fallback := NodeAt(nodes, first, k);
      r := Some(fallback.member);
    }

    /** A request goes to a member. */
    method Acquire(member: string)
      requires Valid()
      modifies this`loads, this`total
      ensures Valid() && (old(Counted()) ==> Counted())
      ensures member in old(loads) ==> loads == old(loads)[member := old(loads)[member] + 1] && total == old(total) + 1
      ensures member !in old(loads) ==> loads == old(loads) && total == old(total)
    {
      if member in loads {
        var more := loads[member := loads[member] + 1];
        OneMore(members, loads, member, total, more);
        loads, total := more, total + 1;
      }
    }

    /** A request leaves a member. The total still counts every load if the request had been counted there. */
    method Release(member: string)
      requires Valid()
      modifies this`loads, this`total
      ensures Valid() && (old(Counted()) && (member in old(loads) ==> old(loads)[member] > 0) ==> Counted())
      ensures member in old(loads) ==>
                loads == old(loads)[member := AtLeastZero(old(loads)[member] - 1)] && total == AtLeastZero(old(total) - 1)
      ensures member !in old(loads) ==> loads == old(loads) && total == old(total)
    {
      if member in loads {
        MoreIsSound(members, loads, member, AtLeastZero(loads[member] - 1) - loads[member]);
        OneLess(members, loads, member, total);
        loads := loads[member := AtLeastZero(loads[member] - 1)];
        total := AtLeastZero(total - 1);
      }
    }
  }

  lemma {:induction false} SumZero(members: seq<string>, loads: Loads)
    requires forall m :: m in members ==> m in loads && loads[m] == 0
    ensures SumOf(members, loads) == 0
  {
    if members != [] {
      SumZero(members[1..], loads);
    }
  }

  lemma {:induction false} SumPositive(members: seq<string>, loads: Loads)
    requires forall m :: m in members ==> m in loads && loads[m] >= 0
    ensures SumOf(members, loads) >= 0 && forall m :: m in members ==> loads[m] <= SumOf(members, loads)
  {
    if members != [] {
      SumPositive(members[1..], loads);
    }
  }

  lemma {:induction false} SumRemove(members: seq<string>, loads: Loads, k: nat)
    requires k < |members| && forall m :: m in members ==> m in loads
    ensures SumOf(members, loads) == loads[members[k]] + SumOf(members[..k] + members[k + 1..], loads)
  {
    if k == 0 {
      assert members[..0] + members[1..] == members[1..];
    } else {
      SumRemove(members[1..], loads, k - 1);
      var rest := members[..k] + members[k + 1..];
      assert rest[0] == members[0] && rest[1..] == members[1..][..k - 1] + members[1..][k..];
    }
  }

  /** Members that stay or are new carry no more than all members did. */
  lemma {:induction false} SumKept(before: seq<string>, loads: Loads, after: seq<string>, kept: Loads)
    requires Distinct(before) && Distinct(after)
    requires (forall m :: m in before ==> m in loads && loads[m] >= 0) && forall m :: m in after ==> m in kept
    requires forall m :: m in after ==> kept[m] == if m in before then loads[m] else 0
    ensures SumOf(after, kept) <= SumOf(before, loads)
    decreases |after|
  {
    SumPositive(before, loads);
    if after != [] {
      var m := after[0];
      assert m !in after[1..];
      if m in before {
        var k :| 0 <= k < |before| && before[k] == m;
        SumRemove(before, loads, k);
        assert forall x :: x in before[..k] + before[k + 1..] <==> x in before && x != m;
        SumKept(before[..k] + before[k + 1..], loads, after[1..], kept);
      } else {
        SumKept(before, loads, after[1..], kept);
      }
    }
  }

  lemma NoNodes(hash: (string, nat) -> int, members: seq<string>, nodes: seq<Node>)
    requires multiset(nodes) == multiset(AllNodes(hash, members))
    ensures nodes == [] ==> members == []
  {
    AllNodesMembers(hash, members);
    SameContents(nodes, AllNodes(hash, members));
  }

  lemma MembersNext(round: seq<Node>, i: nat)
    requires i < |round|
    ensures Members(round[..i + 1]) == Members(round[..i]) + {round[i].member}
  {
    assert round[..i + 1] == round[..i] + [round[i]];
  }

  lemma SeenBefore(round: seq<Node>, i: nat, eligible: Option<set<string>>, loads: Loads, capacity: int)
    requires i < |round| && round[i].member in Members(round[..i])
    requires forall j :: 0 <= j < i ==> !IsFree(round[j], eligible, loads, capacity)
    ensures !IsFree(round[i], eligible, loads, capacity)
  {
    var n :| n in round[..i] && n.member == round[i].member;
    var j :| 0 <= j < |round[..i]| && round[..i][j] == n;
    assert round[j] == n;
  }

  /** Every member has a node wherever the round begins. */
  lemma EveryoneOnRound(hash: (string, nat) -> int, members: seq<string>, nodes: seq<Node>, start: nat, m: string)
    requires multiset(nodes) == multiset(AllNodes(hash, members)) && start <= |nodes|
    ensures m in Members(Rotated(nodes, start)) <==> m in members
  {
    AllNodesMembers(hash, members);
    SameContents(nodes, AllNodes(hash, members));
    assert nodes == nodes[..start] + nodes[start..];
    assert forall n :: n in Rotated(nodes, start) <==> n in nodes;
  }

  lemma SomeEligible(hash: (string, nat) -> int, members: seq<string>, nodes: seq<Node>, start: nat, eligible: Option<set<string>>)
    requires multiset(nodes) == multiset(AllNodes(hash, members)) && start <= |nodes| && EligibleMembers(eligible, members) != []
    ensures exists i :: 0 <= i < |Rotated(nodes, start)| && IsEligible(eligible, Rotated(nodes, start)[i].member)
  {
    var m := EligibleMembers(eligible, members)[0];
    assert m in EligibleMembers(eligible, members);
    EveryoneOnRound(hash, members, nodes, start, m);
    var n :| n in Rotated(nodes, start) && n.member == m;
  }

  // ---------------------------------------------------------------------------------------------
  // Bounded loads.
  // ---------------------------------------------------------------------------------------------

  /** A member has room exactly if its load is at most the factor times the average, so that after one more request it is at
      most one above. */
  lemma RoomIsAverage(node: Node, eligible: Option<set<string>>, loads: Loads, total: int, count: nat, factor: real)
    requires count > 0 && node.member in loads && IsEligible(eligible, node.member)
    ensures IsFree(node, eligible, loads, Capacity(total, count, factor)) <==>
            loads[node.member] as real <= total as real / count as real * factor
    ensures IsFree(node, eligible, loads, Capacity(total, count, factor)) ==>
            (loads[node.member] + 1) as real <= total as real / count as real * factor + 1.0
  {
    var x := total as real / count as real * factor;
    FloorLe(loads[node.member], x);
  }

  lemma FloorLe(n: int, x: real)
    ensures n < x.Floor + 1 <==> n as real <= x
  {
  }

  /** When every member is eligible the search never gives up before it finds one below capacity, so the fallback is
      never used. */
  lemma BoundedLoad(hash: (string, nat) -> int, members: seq<string>, nodes: seq<Node>, start: nat, t: nat, loads: Loads, total: int, factor: real)
    requires Distinct(members) && members != [] && multiset(nodes) == multiset(AllNodes(hash, members)) && start <= |nodes|
    requires (forall m :: m in members <==> m in loads) && 0 <= total && SumOf(members, loads) <= total && factor >= 1.0
    requires Chosen(Rotated(nodes, start), t, None, loads, Capacity(total, |members|, factor), |members|)
    ensures FirstFree(Rotated(nodes, start), t, None, loads, Capacity(total, |members|, factor))
  {
    var round, capacity, n := Rotated(nodes, start), Capacity(total, |members|, factor), |members|;
    SomeoneIsFree(members, loads, total, factor);
    var m :| m in members && loads[m] < capacity;
    EveryoneOnRound(hash, members, nodes, start, m);
    var x :| x in round && x.member == m;
    var i :| 0 <= i < |round| && round[i] == x;
    var u := FirstOf(round, i, loads, capacity);
    forall j: nat | j < u ensures !GivesUp(round, j, None, loads, capacity, n) {
      OneLeft(hash, members, nodes, start, j, u, loads, capacity);
    }
    assert Reaches(round, u, None, loads, capacity, n);
  }

  /** A member listed twice counts twice in the average: with its one request it has no room, and there is no other. */
  lemma ListedTwice(nodes: seq<Node>, start: nat, t: nat, hash: (string, nat) -> int)
    requires multiset(nodes) == multiset(AllNodes(hash, ["a", "a"])) && start <= |nodes|
    ensures Capacity(1, 2, 1.25) == 1 && AllLoads(["a", "a"], map["a" := 1]) == 1
    ensures !FirstFree(Rotated(nodes, start), t, None, map["a" := 1], 1)
  {
    assert ["a", "a"][1..] == ["a"] && ["a"][1..] == [];
    assert Unique(["a", "a"]) == Unique(["a"]) == ["a"];
    if t < |nodes| {
      assert Rotated(nodes, start)[t] in Rotated(nodes, start);
      EveryoneOnRound(hash, ["a", "a"], nodes, start, Rotated(nodes, start)[t].member);
    }
  }

  lemma {:induction false} FirstOf(round: seq<Node>, i: nat, loads: Loads, capacity: int) returns (u: nat)
    requires i < |round| && IsFree(round[i], None, loads, capacity)
    ensures FirstFree(round, u, None, loads, capacity)
    decreases i
  {
    if j :| 0 <= j < i && IsFree(round[j], None, loads, capacity) {
      u := FirstOf(round, j, loads, capacity);
    } else {
      u := i;
    }
  }

  /** Before the first free member is met, not every member has been. */
  lemma OneLeft(hash: (string, nat) -> int, members: seq<string>, nodes: seq<Node>, start: nat, j: nat, u: nat, loads: Loads, capacity: int)
    requires multiset(nodes) == multiset(AllNodes(hash, members)) && start <= |nodes| && j < u
    requires FirstFree(Rotated(nodes, start), u, None, loads, capacity)
    ensures |Members(Rotated(nodes, start)[..j + 1])| < |members|
  {
    var round := Rotated(nodes, start);
    var met, free := Members(round[..j + 1]), round[u].member;
    forall m | m in met ensures m in members && m != free {
      var n :| n in round[..j + 1] && n.member == m;
      var i :| 0 <= i < |round[..j + 1]| && round[..j + 1][i] == n;
      assert round[i] == n && n in round;
      EveryoneOnRound(hash, members, nodes, start, m);
    }
    assert round[u] in round;
    EveryoneOnRound(hash, members, nodes, start, free);
    SetOfMembers(members);
    assert met + {free} <= set m | m in members;
    CardinalityLe(met + {free}, set m | m in members);
  }

  lemma CardinalityLe(a: set<string>, b: set<string>)
    requires a <= b
    ensures |a| <= |b|
  {
    assert b == a + (b - a);
  }

  lemma {:induction false} SetOfMembers(members: seq<string>)
    ensures |set m | m in members| <= |members|
  {
    if members != [] {
      SetOfMembers(members[1..]);
      assert (set m | m in members) == (set m | m in members[1..]) + {members[0]};
    }
  }

  // ---------------------------------------------------------------------------------------------
  // Rings with distinct hashes.
  // ---------------------------------------------------------------------------------------------

  ghost predicate DistinctHashes(hash: (string, nat) -> int, members: seq<string>) {
    forall x, y, i: nat, j: nat :: x in members && y in members && i < VIRTUAL_NODES && j < VIRTUAL_NODES && hash(x, i) == hash(y, j) ==> x == y && i == j
  }

  ghost predicate Rising(nodes: seq<Node>) { forall i, j :: 0 <= i < j < |nodes| ==> nodes[i].hash < nodes[j].hash }

  ghost predicate IsNode(hash: (string, nat) -> int, x: Node) {
    exists i: nat :: i < VIRTUAL_NODES && x == NodesOf(hash, x.member, VIRTUAL_NODES)[i]
  }

  lemma {:induction false} AllNodesHas(hash: (string, nat) -> int, members: seq<string>, x: Node)
    ensures x in AllNodes(hash, members) <==> x.member in members && IsNode(hash, x)
  {
    if members != [] {
      var n := |members| - 1;
      AllNodesHas(hash, members[..n], x);
      assert members == members[..n] + [members[n]];
      var own := NodesOf(hash, members[n], VIRTUAL_NODES);
      assert x in own ==> x.member == members[n];
      assert x.member == members[n] ==> (x in own <==> IsNode(hash, x));
    }
  }

  lemma DistinctAppend(s: seq<Node>, t: seq<Node>)
    requires Distinct(s) && Distinct(t) && forall x, y :: x in s && y in t ==> x != y
    ensures Distinct(s + t)
  {
    forall i, j | 0 <= i < j < |s + t| ensures (s + t)[i] != (s + t)[j] {
      if i < |s| <= j {
        assert s[i] in s && t[j - |s|] in t;
      }
    }
  }

  lemma Nonempty<T>(s: seq<T>)
    ensures s != [] ==> s[0] in s
  {
  }

  lemma {:induction false} AllNodesDistinct(hash: (string, nat) -> int, members: seq<string>)
    requires Distinct(members) && DistinctHashes(hash, members)
    ensures Distinct(AllNodes(hash, members))
  {
    if members != [] {
      var n := |members| - 1;
      AllNodesDistinct(hash, members[..n]);
      var rest, own := AllNodes(hash, members[..n]), NodesOf(hash, members[n], VIRTUAL_NODES);
      forall x, y | x in rest && y in own ensures x != y {
        AllNodesHas(hash, members[..n], x);
      }
      assert members[n] in members;
      assert forall i, j :: 0 <= i < j < |own| ==> own[i].hash != own[j].hash;
      DistinctAppend(rest, own);
    }
  }

  /** With distinct hashes the nodes of a ring rise. */
  lemma RingRises(hash: (string, nat) -> int, members: seq<string>, nodes: seq<Node>)
    requires Distinct(members) && DistinctHashes(hash, members)
    requires multiset(nodes) == multiset(AllNodes(hash, members)) && SortedBy(ByHash, nodes)
    ensures Rising(nodes)
  {
    AllNodesDistinct(hash, members);
    PermutationOfDistinct(AllNodes(hash, members), nodes);
    SameContents(nodes, AllNodes(hash, members));
    forall i, j | 0 <= i < j < |nodes| ensures nodes[i].hash < nodes[j].hash {
      assert ByHash(nodes[i], nodes[j]);
      AllNodesHas(hash, members, nodes[i]);
      AllNodesHas(hash, members, nodes[j]);
    }
  }

  lemma {:induction false} RisingUnique(s: seq<Node>, t: seq<Node>)
    requires Rising(s) && Rising(t) && forall x :: x in s <==> x in t
    ensures s == t
  {
    Nonempty(t);
    if s != [] {
      assert s[0] in t && s[0] in s;
      assert t[0] in s;
      assert s[0] == t[0];
      forall x ensures x in s[1..] <==> x in t[1..] {
        assert x in s <==> x == s[0] || x in s[1..];
        assert x in t <==> x == t[0] || x in t[1..];
      }
      RisingUnique(s[1..], t[1..]);
    }
  }

  lemma {:induction false} FilterRises(keep: Node -> bool, s: seq<Node>)
    requires Rising(s)
    ensures Rising(Filter(keep, s))
  {
    if s != [] {
      FilterRises(keep, s[1..]);
      assert forall x :: x in s[1..] ==> s[0].hash < x.hash;
    }
  }

  // ---------------------------------------------------------------------------------------------
  // Giving up.
  // ---------------------------------------------------------------------------------------------

  /** A hash under which the nodes of c come first, then those of a, then those of b. */
  function InTurn(m: string, i: nat): int { i + if m == "c" then 0 else if m == "a" then 1000 else 2000 }

  const THREE := ["a", "b", "c"]

  function TurnNodes(): seq<Node> {
    NodesOf(InTurn, "c", VIRTUAL_NODES) + NodesOf(InTurn, "a", VIRTUAL_NODES) + NodesOf(InTurn, "b", VIRTUAL_NODES)
  }

  lemma TurnIsRing(nodes: seq<Node>)
    requires multiset(nodes) == multiset(AllNodes(InTurn, THREE)) && SortedBy(ByHash, nodes)
    ensures nodes == TurnNodes()
  {
    TurnHashes();
    RingRises(InTurn, THREE, nodes);
    SameContents(nodes, AllNodes(InTurn, THREE));
    forall x ensures x in nodes <==> x in TurnNodes() {
      AllNodesHas(InTurn, THREE, x);
      TurnHas(x);
    }
    TurnRises();
    RisingUnique(nodes, TurnNodes());
  }

  lemma TurnHas(x: Node)
    ensures x in TurnNodes() <==> x.member in THREE && IsNode(InTurn, x)
  {
    NodesHas(InTurn, "a", x);
    NodesHas(InTurn, "b", x);
    NodesHas(InTurn, "c", x);
  }

  lemma NodesHas(hash: (string, nat) -> int, m: string, x: Node)
    ensures x in NodesOf(hash, m, VIRTUAL_NODES) <==> x.member == m && IsNode(hash, x)
  {
  }

  lemma TurnRises()
    ensures Rising(TurnNodes())
  {
    NamesDiffer();
    forall i, j | 0 <= i < j < |TurnNodes()| ensures TurnNodes()[i].hash < TurnNodes()[j].hash {
      TurnAt(i);
      TurnAt(j);
    }
  }

  lemma NamesDiffer()
    ensures "a" != "b" && "b" != "c" && "a" != "c"
  {
    assert "a"[0] == 'a' && "b"[0] == 'b' && "c"[0] == 'c';
  }

  lemma TurnHashes()
    ensures Distinct(THREE) && DistinctHashes(InTurn, THREE)
  {
    NamesDiffer();
  }

  lemma TurnAt(i: nat)
    requires i < 384
    ensures |TurnNodes()| == 384
    ensures TurnNodes()[i] == if i < 128 then Node(i, "c") else if i < 256 then Node(872 + i, "a") else Node(1744 + i, "b")
  {
    NamesDiffer();
    var c, a, b := NodesOf(InTurn, "c", VIRTUAL_NODES), NodesOf(InTurn, "a", VIRTUAL_NODES), NodesOf(InTurn, "b", VIRTUAL_NODES);
    assert TurnNodes() == c + a + b && |c| == |a| == |b| == 128;
    if i < 128 {
      assert c[i] == Node(InTurn("c", i), "c");
    } else if i < 256 {
      assert a[i - 128] == Node(InTurn("a", i - 128), "a");
    } else {
      assert b[i - 256] == Node(InTurn("b", i - 256), "b");
    }
  }

  /** All nodes of c, then all of a, then all of b. */
  ghost predicate InBlocks(round: seq<Node>, a: string, b: string, c: string) {
    |round| == 384 && forall i :: 0 <= i < 384 ==> round[i].member == if i < 128 then c else if i < 256 then a else b
  }

  lemma BlockMembers(round: seq<Node>, a: string, b: string, c: string)
    requires InBlocks(round, a, b, c) && a != c
    ensures Members(round[..128]) == {c} && |Members(round[..129])| == 2
  {
    assert round[0] in round[..128];
    forall n | n in round[..128] ensures n.member == c {
      var i :| 0 <= i < 128 && round[i] == n;
    }
    assert Members(round[..128]) == {c};
    MembersNext(round, 128);
    assert |{c, a}| == 2;
  }

  /** With c not eligible and a without room the choice is a, though b further on is idle. */
  lemma PassedOver(round: seq<Node>, t: nat, a: string, b: string, c: string, loads: Loads)
    requires InBlocks(round, a, b, c) && a != b && b != c && a != c
    requires a in loads && b in loads && loads[a] >= 1 && loads[b] == 0
    requires Chosen(round, t, Some({a, b}), loads, 1, 2)
    ensures t == 128 && FirstFree(round, 256, Some({a, b}), loads, 1)
  {
    BlockMembers(round, a, b, c);
    assert GivesUp(round, 128, Some({a, b}), loads, 1, 2);
    FirstIsPicked(round, t, 128, Some({a, b}), loads, 1, 2);
  }

  lemma TurnBlocks()
    ensures InBlocks(TurnNodes(), "a", "b", "c")
  {
    TurnAt(0);
    forall i: nat | i < 384 ensures TurnNodes()[i].member == (if i < 128 then "c" else if i < 256 then "a" else "b") {
      TurnAt(i);
    }
  }

  lemma CapacityOne()
    ensures Capacity(1, 2, 1.25) == 1
  {
  }

  lemma TurnStart(nodes: seq<Node>, start: nat)
    requires nodes == TurnNodes() && StartsAt(nodes, 0, start)
    ensures start == 0 && Rotated(nodes, 0) == nodes
  {
    TurnAt(0);
  }

  /** With some members not eligible the search may give up too soon, for those met on the way count against the eligible
      ones: here b is idle and eligible, and the request goes to a, which has no room. */
  lemma GivesUpTooSoon(nodes: seq<Node>, start: nat, t: nat, loads: Loads)
    requires multiset(nodes) == multiset(AllNodes(InTurn, THREE)) && SortedBy(ByHash, nodes) && StartsAt(nodes, 0, start)
    requires loads == map["a" := 1, "b" := 0, "c" := 0]
    requires Chosen(Rotated(nodes, start), t, Some({"a", "b"}), loads, Capacity(1, 2, 1.25), 2)
    ensures t < |nodes| && Rotated(nodes, start)[t].member == "a" && Capacity(1, 2, 1.25) == 1
    ensures FirstFree(Rotated(nodes, start), 256, Some({"a", "b"}), loads, 1)
  {
    NamesDiffer();
    TurnIsRing(nodes);
    TurnStart(nodes, start);
    TurnBlocks();
    CapacityOne();
    PassedOver(nodes, t, "a", "b", "c", loads);
  }

  /** Where the search gives up, and nothing before was eligible, the choice is made. */
  lemma FirstIsPicked(round: seq<Node>, t: nat, k: nat, eligible: Option<set<string>>, loads: Loads, capacity: int, count: nat)
    requires GivesUp(round, k, eligible, loads, capacity, count) && Chosen(round, t, eligible, loads, capacity, count)
    requires forall i :: 0 <= i < k ==> !IsEligible(eligible, round[i].member)
    ensures t == k
  {
    forall u: nat ensures !Reaches(round, u, eligible, loads, capacity, count) {
    }
  }

  lemma BusyLoads(loads: Loads)
    requires (forall m :: m in THREE <==> m in loads) && loads["a"] == 1 && loads["b"] == 0 && loads["c"] == 0
    ensures loads == map["a" := 1, "b" := 0, "c" := 0]
  {
    assert forall m :: m in THREE <==> m == "a" || m == "b" || m == "c";
  }

  lemma BusyPick(ring: HashRing, r: Option<string>, start: nat, t: nat)
    requires ring.Valid() && ring.hash == InTurn && ring.members == THREE && ring.loads == map["a" := 1, "b" := 0, "c" := 0]
    requires ring.total == 1 && ring.loadFactor == 1.25 && ring.Picked(0, Some({"a", "b"}), r, start, t)
    ensures r == Some("a")
  {
    TwoEligible();
    GivesUpTooSoon(ring.nodes, start, t, ring.loads);
  }

  /** The same on a new ring with one request under way. */
  method PickBusy() returns (ring: HashRing, r: Option<string>)
    ensures ring.members == THREE && ring.loads == map["a" := 1, "b" := 0, "c" := 0] && r == Some("a")
  {
    NamesDiffer();
    ring := new HashRing(InTurn, THREE, 1.25);
    assert "a" in THREE && "b" in THREE && "c" in THREE;
    ring.Acquire("a");
    BusyLoads(ring.loads);
    ghost var start, t;
    r, start, t := ring.Pick(0, Some({"a", "b"}));
    BusyPick(ring, r, start, t);
  }

  lemma TwoEligible()
    ensures EligibleMembers(Some({"a", "b"}), THREE) == ["a", "b"]
  {
    NamesDiffer();
    assert THREE[1..] == ["b", "c"] && ["b", "c"][1..] == ["c"] && ["c"][1..] == [];
    var keep := (m: string) => IsEligible(Some({"a", "b"}), m);
    assert Filter(keep, ["c"]) == [] && Filter(keep, ["b", "c"]) == ["b"] + Filter(keep, ["c"]);
  }

  // ---------------------------------------------------------------------------------------------
  // Removing a member.
  // ---------------------------------------------------------------------------------------------

  /** At no load the first node clockwise owns the key. */
  lemma NoLoadOwner(round: seq<Node>, t: nat, loads: Loads, factor: real, count: nat)
    requires count > 0 && round != [] && (forall n :: n in round ==> n.member in loads && loads[n.member] == 0)
    requires Chosen(round, t, None, loads, Capacity(0, count, factor), count)
    ensures t == 0
  {
    assert round[0] in round;
    assert 0.0 / count as real == 0.0;
    assert Capacity(0, count, factor) == 1;
    assert Reaches(round, 0, None, loads, 1, count);
  }

  function Owner(nodes: seq<Node>, start: nat): string
    requires start <= |nodes| && nodes != []
  {
    Rotated(nodes, start)[0].member
  }

  function Other(m: string): Node -> bool { (n: Node) => n.member != m }

  /** Without a member's nodes only the keys that it owned have another owner. */
  lemma {:induction false} RemapsOnlyOwn(nodes: seq<Node>, m: string, key: int, start: nat, start': nat)
    requires Rising(nodes) && nodes != []
    requires StartsAt(nodes, key, start) && StartsAt(Filter(Other(m), nodes), key, start') && Owner(nodes, start) != m
    ensures Filter(Other(m), nodes) != [] && Owner(Filter(Other(m), nodes), start') == Owner(nodes, start)
  {
    var before, after := nodes[..start], nodes[start..];
    assert nodes == before + after;
    FilterAppend(Other(m), before, after);
    var b, a := Filter(Other(m), before), Filter(Other(m), after);
    var left := Filter(Other(m), nodes);
    assert left == b + a;
    CutIsStart(b, a, key, start');
    if after != [] {
      assert a[0] == after[0];
    } else {
      assert before[0] == nodes[0] && b[0] == before[0] && a == [];
    }
  }

  /** The position of a key splits the nodes before it from those after. */
  lemma CutIsStart(b: seq<Node>, a: seq<Node>, key: int, start: nat)
    requires (forall n :: n in b ==> n.hash < key) && (forall n :: n in a ==> n.hash >= key) && StartsAt(b + a, key, start)
    ensures start == |b|
  {
    var s := b + a;
    forall i | 0 <= i < |s| ensures if i < |b| then s[i].hash < key else s[i].hash >= key {
      assert if i < |b| then s[i] == b[i] && b[i] in b else s[i] == a[i - |b|] && a[i - |b|] in a;
    }
    assert start < |s| ==> s[start].hash >= key;
    assert |b| < |s| ==> s[|b|].hash >= key;
  }

  /** A ring built without a member has the nodes of the ring with it, except its own. */
  lemma RebuiltWithout(hash: (string, nat) -> int, members: seq<string>, nodes: seq<Node>, rest: seq<string>, left: seq<Node>, m: string)
    requires Distinct(members) && Distinct(rest) && DistinctHashes(hash, members)
    requires forall x :: x in rest <==> x in members && x != m
    requires multiset(nodes) == multiset(AllNodes(hash, members)) && SortedBy(ByHash, nodes)
    requires multiset(left) == multiset(AllNodes(hash, rest)) && SortedBy(ByHash, left)
    ensures left == Filter(Other(m), nodes) && Rising(nodes)
  {
    RingRises(hash, members, nodes);
    RingRises(hash, rest, left);
    FilterRises(Other(m), nodes);
    FilterKeeps(Other(m), nodes);
    SameContents(nodes, AllNodes(hash, members));
    SameContents(left, AllNodes(hash, rest));
    forall x ensures x in left <==> x in Filter(Other(m), nodes) {
      AllNodesHas(hash, members, x);
      AllNodesHas(hash, rest, x);
    }
    RisingUnique(left, Filter(Other(m), nodes));
  }

  /** An idle ring picks the owner of the key. */
  lemma IdlePicksOwner(ring: HashRing, key: int, r: Option<string>, start: nat, t: nat)
    requires ring.Valid() && ring.Idle() && ring.Picked(key, None, r, start, t) && ring.members != []
    ensures ring.nodes != [] && start <= |ring.nodes| && r == Some(Owner(ring.nodes, start))
  {
    FilterAll((x: string) => IsEligible(None, x), ring.members);
    NoNodes(ring.hash, ring.members, ring.nodes);
    var round := Rotated(ring.nodes, start);
    forall n | n in round ensures n.member in ring.loads {
      EveryoneOnRound(ring.hash, ring.members, ring.nodes, start, n.member);
    }
    NoLoadOwner(round, t, ring.loads, ring.loadFactor, |ring.members|);
  }

  /** When a member leaves an idle ring, every key that was not its own goes where it went before. */
  lemma KeysStay(before: HashRing, after: HashRing, m: string, key: int, r: Option<string>, start: nat, t: nat,
                 r': Option<string>, start': nat, t': nat)
    requires before.Valid() && after.Valid() && before.Idle() && after.Idle() && before.hash == after.hash
    requires DistinctHashes(before.hash, before.members) && Distinct(before.members) && Distinct(after.members)
    requires forall x :: x in after.members <==> x in before.members && x != m
    requires before.Picked(key, None, r, start, t) && after.Picked(key, None, r', start', t')
    ensures r != Some(m) ==> r' == r
  {
    if before.members == [] {
      Nonempty(after.members);
      FilterAll((x: string) => IsEligible(None, x), before.members);
      FilterAll((x: string) => IsEligible(None, x), after.members);
    } else {
      IdlePicksOwner(before, key, r, start, t);
      RebuiltWithout(before.hash, before.members, before.nodes, after.members, after.nodes, m);
      if r != Some(m) {
        RemapsOnlyOwn(before.nodes, m, key, start, start');
        NoMembers(after);
        IdlePicksOwner(after, key, r', start', t');
      }
    }
  }

  lemma NoMembers(ring: HashRing)
    requires ring.Valid()
    ensures ring.members == [] ==> ring.nodes == []
  {
    assert multiset(ring.nodes) == multiset([]) ==> ring.nodes == [] by {
      if multiset(ring.nodes) == multiset([]) {
        SameContents(ring.nodes, []);
      }
    }
  }
}
