/** The multi-pattern matcher of pii/detect/ahocorasick.go: a byte trie with failure links, suffix links
    and a dense root table, and the single pass that reports every occurrence of every pattern. */
module AhoCorasick {
  import opened Wrappers
  import opened Sequences
  import opened Sorting

  type Byte = b: int | 0 <= b < 256

  type Bytes = seq<Byte>

  datatype Node = Node(children: map<Byte, nat>, fail: nat, output: int, suffixLink: int)

  datatype Match = Match(start: nat, end: nat, pattern: nat)

  datatype BuildError = NoPatterns | EmptyPattern(index: nat) | DuplicatePattern(previous: nat, index: nat)

  const FRESH_NODE := Node(map[], 0, -1, -1)

  // ---------------------------------------------------------------------------------------------
  // What the node table means: words[i] is the byte string spelled on the path from the root to i.
  // ---------------------------------------------------------------------------------------------

  ghost predicate IsChild(nodes: seq<Node>, i: nat, b: Byte, j: nat) {
    i < |nodes| && b in nodes[i].children && nodes[i].children[b] == j
  }

  ghost predicate HasParent(nodes: seq<Node>, words: seq<Bytes>, j: nat)
    requires |nodes| == |words| && j < |words|
  {
    words[j] != [] && exists i: nat :: i < |nodes| && words[j] == words[i] + [words[j][|words[j]| - 1]]
                                       && IsChild(nodes, i, words[j][|words[j]| - 1], j)
  }

  ghost predicate Trie(nodes: seq<Node>, words: seq<Bytes>) {
    && |nodes| == |words| > 0
    && words[0] == []
    && Distinct(words)
    && (forall i: nat, b: Byte, j: nat :: IsChild(nodes, i, b, j) ==> 0 < j < |nodes| && words[j] == words[i] + [b])
    && (forall j: nat :: 0 < j < |nodes| ==> HasParent(nodes, words, j))
  }

  /** n is the node spelling the longest suffix of t that the trie contains. */
  ghost predicate Longest(words: seq<Bytes>, t: Bytes, n: nat) {
    && n < |words|
    && IsSuffix(words[n], t)
    && forall k: nat :: k < |words| && IsSuffix(words[k], t) ==> |words[k]| <= |words[n]|
  }

  /** A node's failure link spells the longest proper suffix of its word that the trie contains. */
  ghost predicate FailOk(nodes: seq<Node>, words: seq<Bytes>, i: nat)
    requires |nodes| == |words| && i < |nodes|
  {
    if words[i] == [] then nodes[i].fail == 0 else Longest(words, words[i][1..], nodes[i].fail)
  }

  /** Node k ends a pattern that is a suffix of t. */
  ghost predicate Reports(nodes: seq<Node>, words: seq<Bytes>, t: Bytes, k: nat) {
    k < |nodes| == |words| && nodes[k].output >= 0 && IsSuffix(words[k], t)
  }

  /** A node's suffix link is the node of the longest pattern that is a proper suffix of its word, or -1. */
  ghost predicate SuffixOk(nodes: seq<Node>, words: seq<Bytes>, i: nat)
    requires |nodes| == |words| && i < |nodes|
  {
    var s := nodes[i].suffixLink;
    var t := if words[i] == [] then [] else words[i][1..];
    && -1 <= s < |nodes|
    && (s >= 0 ==> Reports(nodes, words, t, s))
    && forall k: nat :: Reports(nodes, words, t, k) ==> s >= 0 && |words[k]| <= |words[s]|
  }

  ghost predicate Linked(nodes: seq<Node>, words: seq<Bytes>) {
    Trie(nodes, words) && forall i: nat :: i < |nodes| ==> FailOk(nodes, words, i) && SuffixOk(nodes, words, i)
  }

  /** Outputs and patterns name each other: a node ends pattern k exactly when it spells it. */
  ghost predicate Outputs(nodes: seq<Node>, words: seq<Bytes>, patterns: seq<Bytes>) {
    && |nodes| == |words|
    && (forall i: nat :: i < |nodes| ==> -1 <= nodes[i].output < |patterns|)
    && (forall i: nat :: i < |nodes| && nodes[i].output >= 0 ==> words[i] == patterns[nodes[i].output])
    && (forall k: nat :: k < |patterns| ==> PatternHasNode(nodes, words, patterns[k], k))
  }

  ghost predicate PatternHasNode(nodes: seq<Node>, words: seq<Bytes>, pattern: Bytes, k: nat) {
    exists i: nat :: i < |nodes| == |words| && words[i] == pattern && nodes[i].output == k
  }

  /** The specification of a scan: pattern m.pattern stands in the text at [m.start, m.end). */
  ghost predicate Occurs(patterns: seq<Bytes>, text: Bytes, m: Match) {
    && m.pattern < |patterns|
    && m.start <= m.end <= |text|
    && text[m.start..m.end] == patterns[m.pattern]
  }

  predicate NotAfter(m: Match, n: Match) {
    m.start < n.start || (m.start == n.start && m.end <= n.end)
  }

  // ---------------------------------------------------------------------------------------------
  // The trie as a set of words.
  // ---------------------------------------------------------------------------------------------

  /** A node has an edge for b exactly when the trie spells its word extended by b. */
  lemma ChildIffWord(nodes: seq<Node>, words: seq<Bytes>, i: nat, b: Byte, j: nat)
    requires Trie(nodes, words) && i < |nodes| && j < |nodes|
    ensures IsChild(nodes, i, b, j) <==> words[j] == words[i] + [b]
  {
    if words[j] == words[i] + [b] {
      assert j != 0;
      assert HasParent(nodes, words, j);
      var p: nat :| p < |nodes| && words[j] == words[p] + [words[j][|words[j]| - 1]]
                    && IsChild(nodes, p, words[j][|words[j]| - 1], j);
      assert words[j][|words[j]| - 1] == b;
      assert words[p] == words[j][..|words[j]| - 1] == words[i];
      assert p == i;
    }
  }

  lemma SuffixChain(r: Bytes, s: Bytes, t: Bytes)
    requires IsSuffix(s, t) && IsSuffix(r, t) && |r| <= |s|
    ensures IsSuffix(r, s)
    ensures |r| == |s| ==> r == s
  {
    assert t[|t| - |r|..] == t[|t| - |s|..][|s| - |r|..];
  }

  lemma SuffixTrans(r: Bytes, s: Bytes, t: Bytes)
    requires IsSuffix(s, t) && IsSuffix(r, s)
    ensures IsSuffix(r, t)
  {
    assert t[|t| - |r|..] == t[|t| - |s|..][|s| - |r|..];
  }

  lemma SuffixOfTail(r: Bytes, s: Bytes)
    requires s != []
    ensures IsSuffix(r, s[1..]) <==> IsSuffix(r, s) && |r| < |s|
  {
    if |r| < |s| {
      assert s[1..][|s[1..]| - |r|..] == s[|s| - |r|..];
    }
  }

  lemma SuffixExtend(r: Bytes, t: Bytes, b: Byte)
    ensures IsSuffix(r + [b], t + [b]) <==> IsSuffix(r, t)
  {
    if |r| <= |t| {
      assert (t + [b])[|t + [b]| - |r + [b]|..] == t[|t| - |r|..] + [b];
      if t[|t| - |r|..] + [b] == r + [b] {
        assert t[|t| - |r|..] == (t[|t| - |r|..] + [b])[..|r|] == (r + [b])[..|r|] == r;
      }
    }
  }

  // ---------------------------------------------------------------------------------------------
  // Following failure links. While the loop is at node f, every node that spells a suffix of t and
  // has an edge for b is no deeper than f.
  // ---------------------------------------------------------------------------------------------

  ghost predicate Candidate(nodes: seq<Node>, words: seq<Bytes>, t: Bytes, b: Byte, f: nat) {
    && f < |nodes| == |words|
    && IsSuffix(words[f], t)
    && forall k: nat :: k < |nodes| && IsSuffix(words[k], t) && b in nodes[k].children ==> |words[k]| <= |words[f]|
  }

  /** An edge for b at a candidate leads to the longest suffix of t + [b]. */
  lemma CandidateFound(nodes: seq<Node>, words: seq<Bytes>, t: Bytes, b: Byte, f: nat)
    requires Trie(nodes, words) && Candidate(nodes, words, t, b, f) && b in nodes[f].children
    ensures Longest(words, t + [b], nodes[f].children[b])
  {
    var n := nodes[f].children[b];
    assert IsChild(nodes, f, b, n);
    SuffixExtend(words[f], t, b);
    forall k: nat | k < |words| && IsSuffix(words[k], t + [b]) ensures |words[k]| <= |words[n]| {
      CandidateBound(nodes, words, t, b, f, k);
    }
  }

  /** Any word that is a suffix of t + [b] is at most one byte longer than a candidate. */
  lemma CandidateBound(nodes: seq<Node>, words: seq<Bytes>, t: Bytes, b: Byte, f: nat, k: nat)
    requires Trie(nodes, words) && Candidate(nodes, words, t, b, f)
    requires k < |words| && IsSuffix(words[k], t + [b])
    ensures |words[k]| <= |words[f]| + 1
    ensures words[k] != [] ==> exists p: nat :: p < |nodes| && IsSuffix(words[p], t) && IsChild(nodes, p, b, k)
  {
    if words[k] != [] {
      assert HasParent(nodes, words, k);
      var p: nat :| p < |nodes| && words[k] == words[p] + [words[k][|words[k]| - 1]]
                    && IsChild(nodes, p, words[k][|words[k]| - 1], k);
      assert words[k][|words[k]| - 1] == b by {
        assert words[k] == (t + [b])[|t| + 1 - |words[k]|..];
      }
      SuffixExtend(words[p], t, b);
    }
  }

  /** With no edge for b, the failure link is the next candidate, and it is strictly shallower. */
  lemma CandidateFails(nodes: seq<Node>, words: seq<Bytes>, t: Bytes, b: Byte, f: nat)
    requires Trie(nodes, words) && Candidate(nodes, words, t, b, f) && b !in nodes[f].children
    requires f != 0 && FailOk(nodes, words, f)
    ensures Candidate(nodes, words, t, b, nodes[f].fail)
    ensures |words[nodes[f].fail]| < |words[f]|
  {
    var g := nodes[f].fail;
    assert words[f] != [];
    SuffixOfTail(words[g], words[f]);
    SuffixTrans(words[g], words[f], t);
    forall k: nat | k < |nodes| && IsSuffix(words[k], t) && b in nodes[k].children ensures |words[k]| <= |words[g]| {
      SuffixChain(words[k], words[f], t);
      SuffixOfTail(words[k], words[f]);
    }
  }

  /** With no edge for b at the root, no non-empty suffix of t + [b] is in the trie. */
  lemma CandidateAtRoot(nodes: seq<Node>, words: seq<Bytes>, t: Bytes, b: Byte)
    requires Trie(nodes, words) && Candidate(nodes, words, t, b, 0) && b !in nodes[0].children
    ensures Longest(words, t + [b], 0)
  {
    forall p: nat | p < |nodes| && IsSuffix(words[p], t) ensures b !in nodes[p].children {
      assert |words[p]| == 0 ==> words[p] == words[0];
    }
    forall k: nat | k < |words| && IsSuffix(words[k], t + [b]) ensures |words[k]| <= |words[0]| {
      CandidateBound(nodes, words, t, b, 0, k);
    }
  }

  // ---------------------------------------------------------------------------------------------
  // Growing the trie.
  // ---------------------------------------------------------------------------------------------

  ghost predicate NoLinks(nodes: seq<Node>) {
    forall i: nat :: i < |nodes| ==> nodes[i].fail == 0 && nodes[i].suffixLink == -1
  }

  /** The node table with a fresh child of cur for byte b. */
  function Grown(nodes: seq<Node>, cur: nat, b: Byte): seq<Node>
    requires cur < |nodes|
  {
    nodes[cur := nodes[cur].(children := nodes[cur].children[b := |nodes|])] + [FRESH_NODE]
  }

  lemma GrowTrie(nodes: seq<Node>, words: seq<Bytes>, cur: nat, b: Byte)
    requires Trie(nodes, words) && cur < |nodes| && b !in nodes[cur].children
    ensures Trie(Grown(nodes, cur, b), words + [words[cur] + [b]])
  {
    var nodes', words' := Grown(nodes, cur, b), words + [words[cur] + [b]];
    forall j: nat | j < |nodes| ensures words[j] != words[cur] + [b] {
      ChildIffWord(nodes, words, cur, b, j);
    }
    assert Distinct(words');
    forall i: nat, c: Byte, j: nat | IsChild(nodes', i, c, j)
      ensures 0 < j < |nodes'| && words'[j] == words'[i] + [c]
    {
      assert i < |nodes| && (IsChild(nodes, i, c, j) || (i == cur && c == b && j == |nodes|));
    }
    forall j: nat | 0 < j < |nodes'| ensures HasParent(nodes', words', j) {
      if j < |nodes| {
        assert HasParent(nodes, words, j);
        var p: nat :| p < |nodes| && words[j] == words[p] + [words[j][|words[j]| - 1]]
                      && IsChild(nodes, p, words[j][|words[j]| - 1], j);
        assert IsChild(nodes', p, words[j][|words[j]| - 1], j);
      } else {
        assert IsChild(nodes', cur, b, j);
      }
    }
  }

  lemma GrowOutputs(nodes: seq<Node>, words: seq<Bytes>, patterns: seq<Bytes>, cur: nat, b: Byte, w: Bytes)
    requires Outputs(nodes, words, patterns) && cur < |nodes|
    ensures Outputs(Grown(nodes, cur, b), words + [w], patterns)
  {
    var nodes', words' := Grown(nodes, cur, b), words + [w];
    forall k: nat | k < |patterns| ensures PatternHasNode(nodes', words', patterns[k], k) {
      assert PatternHasNode(nodes, words, patterns[k], k);
      var i: nat :| i < |nodes| && words[i] == patterns[k] && nodes[i].output == k;
      assert words'[i] == patterns[k] && nodes'[i].output == k;
    }
  }

  /** Ending a new pattern at the node that spells it extends the output table by that pattern. */
  lemma EndPattern(nodes: seq<Node>, words: seq<Bytes>, patterns: seq<Bytes>, cur: nat, pattern: Bytes)
    requires Outputs(nodes, words, patterns) && cur < |nodes| && words[cur] == pattern && pattern !in patterns
    ensures Outputs(nodes[cur := nodes[cur].(output := |patterns|)], words, patterns + [pattern])
  {
    var nodes', patterns' := nodes[cur := nodes[cur].(output := |patterns|)], patterns + [pattern];
    forall k: nat | k < |patterns'| ensures PatternHasNode(nodes', words, patterns'[k], k) {
      if k < |patterns| {
        assert PatternHasNode(nodes, words, patterns[k], k);
        var i: nat :| i < |nodes| && words[i] == patterns[k] && nodes[i].output == k;
        assert words[i] == patterns'[k] && nodes'[i].output == k;
      } else {
        assert words[cur] == patterns'[k] && nodes'[cur].output == k;
      }
    }
  }

  /** The words are those there were before, in their places, and the prefixes of the pattern up to a length. */
  ghost predicate Gained(before: seq<Bytes>, words: seq<Bytes>, pattern: Bytes, most: nat) {
    before <= words && forall w {:trigger w in words} :: w in words <==> w in before || (w <= pattern && |w| <= most)
  }

  ghost predicate SameOutputs(before: seq<Node>, nodes: seq<Node>) {
    |before| <= |nodes| && forall i: nat :: i < |before| ==> nodes[i].output == before[i].output
  }

  lemma GainedStart(words: seq<Bytes>, pattern: Bytes)
    requires [] in words
    ensures Gained(words, words, pattern, 0)
  {
  }

  lemma GainedNext(before: seq<Bytes>, words: seq<Bytes>, pattern: Bytes, i: nat, words': seq<Bytes>)
    requires Gained(before, words, pattern, i) && i < |pattern| && pattern[..i + 1] in words'
    requires words' == words || words' == words + [pattern[..i + 1]]
    ensures Gained(before, words', pattern, i + 1)
  {
    forall w ensures w in words' <==> w in before || (w <= pattern && |w| <= i + 1) {
      assert w <= pattern && |w| == i + 1 ==> w == pattern[..i + 1];
      assert w in words' <==> w in words || w == pattern[..i + 1];
      assert w in words <==> w in before || (w <= pattern && |w| <= i);
    }
  }

  lemma SameChildrenTrie(nodes: seq<Node>, nodes': seq<Node>, words: seq<Bytes>)
    requires Trie(nodes, words) && |nodes'| == |nodes|
    requires forall i: nat :: i < |nodes| ==> nodes'[i].children == nodes[i].children
    ensures Trie(nodes', words)
  {
    assert forall i: nat, b: Byte, j: nat :: IsChild(nodes', i, b, j) <==> IsChild(nodes, i, b, j);
    forall j: nat | 0 < j < |nodes| ensures HasParent(nodes', words, j) {
      assert HasParent(nodes, words, j);
    }
  }

  // ---------------------------------------------------------------------------------------------
  // Breadth-first linking. Nodes in done have their links; those still in the queue, and cur for the
  // bytes in remaining, have children that are not linked yet.
  // ---------------------------------------------------------------------------------------------

  ghost predicate LinksDone(nodes: seq<Node>, words: seq<Bytes>, done: set<nat>)
    requires |nodes| == |words|
  {
    0 in done && forall i :: i in done ==> i < |nodes| && FailOk(nodes, words, i) && SuffixOk(nodes, words, i)
  }

  /** The queue is sorted by depth and holds nodes at most one level below cur. */
  ghost predicate QueueOrder(words: seq<Bytes>, queue: seq<nat>, cur: nat) {
    && cur < |words| && cur !in queue && Distinct(queue)
    && (forall i :: 0 <= i < |queue| ==> 0 < queue[i] < |words|)
    && (forall i :: 0 <= i < |queue| ==> |words[cur]| <= |words[queue[i]]| <= |words[cur]| + 1)
    && (forall i, j :: 0 <= i < j < |queue| ==> |words[queue[i]]| <= |words[queue[j]]|)
  }

  ghost predicate Expanded(nodes: seq<Node>, done: set<nat>, queue: seq<nat>, cur: nat, remaining: set<Byte>) {
    && cur in done && (forall i :: i in queue ==> i in done)
    && forall i: nat, b: Byte, j: nat :: IsChild(nodes, i, b, j) ==>
         (j in done <==> i in done && i !in queue && !(i == cur && b in remaining))
  }

  ghost predicate Frontier(nodes: seq<Node>, words: seq<Bytes>, done: set<nat>, queue: seq<nat>,
                           cur: nat, remaining: set<Byte>) {
    && Trie(nodes, words)
    && LinksDone(nodes, words, done)
    && QueueOrder(words, queue, cur)
    && Expanded(nodes, done, queue, cur, remaining)
  }

  /** Breadth-first order: every node no deeper than the one being expanded already has its links. */
  lemma {:induction false} ShallowDone(nodes: seq<Node>, words: seq<Bytes>, done: set<nat>, queue: seq<nat>,
                                       cur: nat, remaining: set<Byte>, n: nat)
    requires Frontier(nodes, words, done, queue, cur, remaining)
    requires n < |nodes| && |words[n]| <= |words[cur]|
    ensures n in done
    decreases |words[n]|
  {
    if n != 0 {
      assert HasParent(nodes, words, n);
      var p: nat :| p < |nodes| && words[n] == words[p] + [words[n][|words[n]| - 1]]
                    && IsChild(nodes, p, words[n][|words[n]| - 1], n);
      ShallowDone(nodes, words, done, queue, cur, remaining, p);
    }
  }

  /** The suffix link rule: the failure node if it ends a pattern, otherwise the failure node's own suffix link. */
  lemma SuffixLinkStep(nodes: seq<Node>, words: seq<Bytes>, t: Bytes, g: nat, s: int)
    requires Trie(nodes, words) && Longest(words, t, g) && SuffixOk(nodes, words, g) && nodes[0].output == -1
    requires s == if nodes[g].output >= 0 then g else nodes[g].suffixLink
    ensures s >= 0 ==> Reports(nodes, words, t, s)
    ensures forall k: nat :: Reports(nodes, words, t, k) ==> s >= 0 && |words[k]| <= |words[s]|
  {
    if s >= 0 && s != g {
      if words[g] != [] {
        SuffixOfTail(words[s], words[g]);
      }
      SuffixTrans(words[s], words[g], t);
    }
    forall k: nat | Reports(nodes, words, t, k) ensures s >= 0 && |words[k]| <= |words[s]| {
      SuffixChain(words[k], words[g], t);
      if words[g] != [] {
        SuffixOfTail(words[k], words[g]);
        assert k != g ==> |words[k]| < |words[g]|;
      }
    }
  }

  /** The node table after the links of node c have been written. */
  function Relinked(nodes: seq<Node>, c: nat, fail: nat, link: int): seq<Node>
    requires c < |nodes|
  {
    nodes[c := nodes[c].(fail := fail, suffixLink := link)]
  }

  lemma RelinkedNode(nodes: seq<Node>, words: seq<Bytes>, c: nat, fail: nat, link: int)
    requires Trie(nodes, words) && c < |nodes| && c != 0
    requires Longest(words, words[c][1..], fail)
    requires link >= -1 && (link >= 0 ==> Reports(nodes, words, words[c][1..], link))
    requires forall k: nat :: Reports(nodes, words, words[c][1..], k) ==> link >= 0 && |words[k]| <= |words[link]|
    ensures Trie(Relinked(nodes, c, fail, link), words)
    ensures FailOk(Relinked(nodes, c, fail, link), words, c) && SuffixOk(Relinked(nodes, c, fail, link), words, c)
  {
    var nodes' := Relinked(nodes, c, fail, link);
    SameChildrenTrie(nodes, nodes', words);
    assert words[c] != [];
    assert forall k: nat :: Reports(nodes', words, words[c][1..], k) <==> Reports(nodes, words, words[c][1..], k);
  }

  lemma RelinkedOther(nodes: seq<Node>, words: seq<Bytes>, c: nat, fail: nat, link: int, i: nat)
    requires |nodes| == |words| && c < |nodes| && i < |nodes| && i != c
    requires FailOk(nodes, words, i) && SuffixOk(nodes, words, i)
    ensures FailOk(Relinked(nodes, c, fail, link), words, i) && SuffixOk(Relinked(nodes, c, fail, link), words, i)
  {
    var nodes' := Relinked(nodes, c, fail, link);
    var t := if words[i] == [] then [] else words[i][1..];
    assert forall k: nat :: Reports(nodes', words, t, k) <==> Reports(nodes, words, t, k);
  }

  lemma DequeueExpanded(nodes: seq<Node>, done: set<nat>, queue: seq<nat>, cur: nat)
    requires Expanded(nodes, done, queue, cur, {}) && queue != [] && queue[0] !in queue[1..]
    ensures queue[0] < |nodes| ==> Expanded(nodes, done, queue[1..], queue[0], nodes[queue[0]].children.Keys)
  {
    assert forall i :: i in queue <==> i == queue[0] || i in queue[1..];
  }

  /** Dequeuing: the head of the queue becomes the node whose children are to be linked. */
  lemma Dequeue(nodes: seq<Node>, words: seq<Bytes>, done: set<nat>, queue: seq<nat>, cur: nat)
    requires Frontier(nodes, words, done, queue, cur, {}) && queue != []
    ensures 0 < queue[0] < |nodes|
    ensures Frontier(nodes, words, done, queue[1..], queue[0], nodes[queue[0]].children.Keys)
  {
    DequeueExpanded(nodes, done, queue, cur);
  }

  lemma EnqueueDone(nodes: seq<Node>, words: seq<Bytes>, done: set<nat>, c: nat, fail: nat, link: int)
    requires |nodes| == |words| && c < |nodes| && LinksDone(nodes, words, done)
    requires FailOk(Relinked(nodes, c, fail, link), words, c) && SuffixOk(Relinked(nodes, c, fail, link), words, c)
    ensures LinksDone(Relinked(nodes, c, fail, link), words, done + {c})
  {
    var nodes', done' := Relinked(nodes, c, fail, link), done + {c};
    forall i | i in done' ensures i < |nodes| && FailOk(nodes', words, i) && SuffixOk(nodes', words, i) {
      if i != c {
        RelinkedOther(nodes, words, c, fail, link, i);
      }
    }
  }

  lemma EnqueueOrder(words: seq<Bytes>, queue: seq<nat>, cur: nat, c: nat)
    requires QueueOrder(words, queue, cur) && c !in queue && 0 < c < |words| && |words[c]| == |words[cur]| + 1
    ensures QueueOrder(words, queue + [c], cur)
  {
  }

  lemma EnqueueExpanded(nodes: seq<Node>, done: set<nat>, queue: seq<nat>,
                        cur: nat, remaining: set<Byte>, b: Byte, c: nat, fail: nat, link: int)
    requires Expanded(nodes, done, queue, cur, remaining) && c < |nodes|
    requires b in remaining && IsChild(nodes, cur, b, c) && cur !in queue
    requires forall i: nat, x: Byte :: IsChild(nodes, i, x, c) ==> i == cur && x == b
    ensures Expanded(Relinked(nodes, c, fail, link), done + {c}, queue + [c], cur, remaining - {b})
  {
    var nodes' := Relinked(nodes, c, fail, link);
    assert forall i :: i in queue + [c] <==> i == c || i in queue;
    assert c !in done;
    forall i: nat, x: Byte, j: nat | IsChild(nodes', i, x, j)
      ensures j in done + {c} <==> i in done + {c} && i !in queue + [c] && !(i == cur && x in remaining - {b})
    {
      assert IsChild(nodes, i, x, j);
    }
  }

  /** Enqueuing: the child c of cur for byte b has just received its links. */
  lemma Enqueue(nodes: seq<Node>, words: seq<Bytes>, done: set<nat>, queue: seq<nat>,
                cur: nat, remaining: set<Byte>, b: Byte, c: nat, fail: nat, link: int)
    requires Frontier(nodes, words, done, queue, cur, remaining)
    requires b in remaining && IsChild(nodes, cur, b, c) && c < |nodes|
    requires var nodes' := Relinked(nodes, c, fail, link);
             Trie(nodes', words) && FailOk(nodes', words, c) && SuffixOk(nodes', words, c)
    ensures c !in done
    ensures Frontier(Relinked(nodes, c, fail, link), words, done + {c}, queue + [c], cur, remaining - {b})
  {
    EnqueueDone(nodes, words, done, c, fail, link);
    EnqueueOrder(words, queue, cur, c);
    forall i: nat, x: Byte | IsChild(nodes, i, x, c) ensures i == cur && x == b {
      EdgeIntoChild(nodes, words, cur, b, c, i, x);
    }
    EnqueueExpanded(nodes, done, queue, cur, remaining, b, c, fail, link);
  }

  /** A node other than the root has exactly one incoming edge. */
  lemma EdgeIntoChild(nodes: seq<Node>, words: seq<Bytes>, cur: nat, b: Byte, c: nat, i: nat, x: Byte)
    requires Trie(nodes, words) && IsChild(nodes, cur, b, c) && IsChild(nodes, i, x, c)
    ensures i == cur && x == b
  {
    assert words[i] + [x] == words[cur] + [b];
    assert words[i] == (words[i] + [x])[..|words[i]|] == words[cur];
    assert x == (words[i] + [x])[|words[i]|];
  }

  lemma UndoneShrinks(n: nat, done: set<nat>, c: nat)
    requires c < n && c !in done
    ensures Undone(n, done + {c}) + 1 == Undone(n, done)
  {
    assert (set i: nat | i < n && i !in done + {c}) + {c} == (set i: nat | i < n && i !in done);
  }

  class Automaton {
    var nodes: seq<Node>
    var patterns: seq<Bytes>
    var root: array<nat>
    ghost var words: seq<Bytes>

    ghost predicate Valid()
      reads this, root
    {
      && Linked(nodes, words)
      && Outputs(nodes, words, patterns)
      && Distinct(patterns) && [] !in patterns
      && root.Length == 256
      && forall b: Byte :: root[b] == if b in nodes[0].children then nodes[0].children[b] else 0
    }

    /** The table holding only the root. */
    constructor Empty(patterns: seq<Bytes>)
      ensures nodes == [FRESH_NODE] && words == [[]] && this.patterns == patterns
      ensures fresh(root) && root.Length == 256 && forall b: Byte :: root[b] == 0
    {
      nodes, words := [FRESH_NODE], [[]];
      this.patterns := patterns;
      root := new nat[256](_ => 0);
    }

    /** Adds one pattern to the trie. */
    method Insert(pattern: Bytes, index: nat)
      requires index < |patterns| && pattern == patterns[index] && pattern !in patterns[..index]
      requires Trie(nodes, words) && Outputs(nodes, words, patterns[..index]) && NoLinks(nodes)
      modifies this`nodes, this`words
      ensures Trie(nodes, words) && Outputs(nodes, words, patterns[..index + 1]) && NoLinks(nodes)
      ensures Gained(old(words), words, pattern, |pattern|)
      ensures forall i: nat :: i < |old(nodes)| && words[i] != pattern ==> nodes[i].output == old(nodes)[i].output
    {
      var cur: nat := 0;
      GainedStart(words, pattern);
      for i := 0 to |pattern|
        invariant Trie(nodes, words) && Outputs(nodes, words, patterns[..index]) && NoLinks(nodes)
        invariant Gained(old(words), words, pattern, i) && SameOutputs(old(nodes), nodes)
        invariant cur < |nodes| && words[cur] == pattern[..i]
      {
        var b := pattern[i];
        assert pattern[..i + 1] == pattern[..i] + [b];
        var next: nat;
        ghost var before := words;
        if b in nodes[cur].children {
          next := nodes[cur].children[b];
          assert IsChild(nodes, cur, b, next);
          assert words[next] == pattern[..i + 1];
        } else {
          GrowTrie(nodes, words, cur, b);
          GrowOutputs(nodes, words, patterns[..index], cur, b, words[cur] + [b]);
          next := |nodes|;
          words := words + [words[cur] + [b]];
          nodes := Grown(nodes, cur, b);
        }
        GainedNext(old(words), before, pattern, i, words);
        cur := next;
      }
      assert pattern[..|pattern|] == pattern;
      assert patterns[..index + 1] == patterns[..index] + [pattern];
      EndPattern(nodes, words, patterns[..index], cur, pattern);
      SameChildrenTrie(nodes, nodes[cur := nodes[cur].(output := index)], words);
      nodes := nodes[cur := nodes[cur].(output := index)];
    }

    /** Climbs the failure chain from f to the first node with an edge for b, or to the root. */
    method Climb(f: nat, b: Byte, ghost t: Bytes, ghost limit: nat) returns (target: nat)
      requires Trie(nodes, words) && Candidate(nodes, words, t, b, f) && |words[f]| < limit
      requires forall i: nat :: i < |nodes| && |words[i]| < limit ==> FailOk(nodes, words, i)
      ensures Longest(words, t + [b], target) && |words[target]| <= limit
    {
      target := f;
      while target != 0 && b !in nodes[target].children
        invariant target < |nodes| && |words[target]| < limit
        invariant Candidate(nodes, words, t, b, target)
        decreases |words[target]|
      {
        CandidateFails(nodes, words, t, b, target);
        target := nodes[target].fail;
      }
      if b in nodes[target].children {
        CandidateFound(nodes, words, t, b, target);
        CandidateBound(nodes, words, t, b, target, nodes[target].children[b]);
        target := nodes[target].children[b];
      } else {
        CandidateAtRoot(nodes, words, t, b);
      }
    }

    /** Links the child of cur for byte b: climbs the failure chain from cur, then takes the suffix link rule. */
    method LinkChild(cur: nat, b: Byte, ghost done: set<nat>, ghost queue: seq<nat>, ghost remaining: set<Byte>)
      returns (child: nat)
      requires Frontier(nodes, words, done, queue, cur, remaining) && nodes[0].output == -1
      requires b in remaining && b in nodes[cur].children && cur != 0
      modifies this`nodes
      ensures IsChild(old(nodes), cur, b, child) && child < |old(nodes)| && child !in done && |nodes| == |old(nodes)|
      ensures nodes == Relinked(old(nodes), child, nodes[child].fail, nodes[child].suffixLink)
      ensures Frontier(nodes, words, done + {child}, queue + [child], cur, remaining - {b})
    {
      child := nodes[cur].children[b];
      assert IsChild(nodes, cur, b, child);
      ghost var t := words[cur][1..];
      assert words[cur] != [] && words[child][1..] == t + [b];
      forall i: nat | i < |nodes| && |words[i]| <= |words[cur]| ensures i in done {
        ShallowDone(nodes, words, done, queue, cur, remaining, i);
      }
      var fail := Climb(nodes[cur].fail, b, t, |words[cur]|);
      var link := if nodes[fail].output >= 0 then fail else nodes[fail].suffixLink;
      SuffixLinkStep(nodes, words, t + [b], fail, link);
      RelinkedNode(nodes, words, child, fail, link);
      Enqueue(nodes, words, done, queue, cur, remaining, b, child, fail, link);
      nodes := Relinked(nodes, child, fail, link);
    }

    /** Links the root's children: their failure link is the root and they have no suffix link. */
    method LinkRoot() returns (queue: seq<nat>, ghost done: set<nat>)
      requires Trie(nodes, words) && NoLinks(nodes) && nodes[0].output == -1
      modifies this`nodes
      ensures Frontier(nodes, words, done, queue, 0, {}) && Relabelled(old(nodes), nodes)
    {
      queue, done := [], {0};
      RootFrontier(nodes, words);
      var rest := nodes[0].children.Keys;
      while rest != {}
        invariant Frontier(nodes, words, done, queue, 0, rest)
        invariant Relabelled(old(nodes), nodes)
        invariant rest <= nodes[0].children.Keys && forall i :: 0 <= i < |nodes| ==> nodes[i].suffixLink == -1
        decreases rest
      {
        var b :| b in rest;
        var child := nodes[0].children[b];
        assert IsChild(nodes, 0, b, child);
        assert words[child] == [b] && words[child][1..] == [];
        SuffixLinkStep(nodes, words, [], 0, -1);
        RelinkedNode(nodes, words, child, 0, -1);
        Enqueue(nodes, words, done, queue, 0, rest, b, child, 0, -1);
        nodes := Relinked(nodes, child, 0, nodes[child].suffixLink);
        queue, done, rest := queue + [child], done + {child}, rest - {b};
      }
    }

    /** Links every child of cur, in any order. */
    method LinkChildren(cur: nat, queue: seq<nat>, ghost done: set<nat>) returns (queue': seq<nat>, ghost done': set<nat>)
      requires 0 < cur < |nodes| && nodes[0].output == -1
      requires Frontier(nodes, words, done, queue, cur, nodes[cur].children.Keys)
      modifies this`nodes
      ensures Frontier(nodes, words, done', queue', cur, {}) && Relabelled(old(nodes), nodes)
      ensures Undone(|nodes|, done') < Undone(|nodes|, done) || (done' == done && queue' == queue)
    {
      queue', done' := queue, done;
      var bytes := nodes[cur].children.Keys;
      while bytes != {}
        invariant Frontier(nodes, words, done', queue', cur, bytes)
        invariant Relabelled(old(nodes), nodes)
        invariant bytes <= nodes[cur].children.Keys
        invariant Undone(|nodes|, done') < Undone(|nodes|, done) || (done' == done && queue' == queue)
        decreases bytes
      {
        var b :| b in bytes;
        var child := LinkChild(cur, b, done', queue', bytes);
        UndoneShrinks(|nodes|, done', child);
        queue', done', bytes := queue' + [child], done' + {child}, bytes - {b};
      }
    }

    /** Computes failure and suffix links breadth first; the order among a node's children is left open. */
    method BuildLinks()
      requires Trie(nodes, words) && Outputs(nodes, words, patterns) && NoLinks(nodes) && [] !in patterns
      modifies this`nodes
      ensures Linked(nodes, words) && Outputs(nodes, words, patterns) && Relabelled(old(nodes), nodes)
    {
      assert nodes[0].output == -1;
      var queue, done := LinkRoot();
      ghost var cur: nat := 0;
      while queue != []
        invariant Frontier(nodes, words, done, queue, cur, {})
        invariant Relabelled(old(nodes), nodes)
        decreases Undone(|nodes|, done), |queue|
      {
        Dequeue(nodes, words, done, queue, cur);
        cur := queue[0];
        queue, done := LinkChildren(queue[0], queue[1..], done);
      }
      forall i: nat | i < |nodes| ensures i in done {
        AllDone(nodes, words, done, cur, i);
      }
      RelabelledOutputs(old(nodes), nodes, words, patterns);
    }
  
    /** Copies the root's edges into the dense table. */
    method FillRoot()
      requires Linked(nodes, words) && root.Length == 256 && forall b: Byte :: root[b] == 0
      modifies root
      ensures forall b: Byte :: root[b] == if b in nodes[0].children then nodes[0].children[b] else 0
    {
      for b := 0 to 256
        invariant forall c: Byte :: root[c] == if c < b && c in nodes[0].children then nodes[0].children[c] else 0
      {
        if b in nodes[0].children {
          root[b] := nodes[0].children[b];
        }
      }
    }

    /** Compiles a pattern set, or says what is wrong with the first pattern that cannot be compiled. */
    static method New(patterns: seq<Bytes>) returns (r: Result<Automaton, BuildError>)
      ensures r.Success? <==> patterns != [] && [] !in patterns && Distinct(patterns)
      ensures r.Success? ==> fresh(r.value) && r.value.Valid() && r.value.patterns == patterns
      ensures r.Failure? ==> Reason(patterns, r.error)
    {
      if |patterns| == 0 {
        return Failure(NoPatterns);
      }
      var ac := new Automaton.Empty(patterns);
      EmptyTrie();
      assert patterns[..0] == [];
      var seen: map<Bytes, nat> := map[];
      for i := 0 to |patterns|
        invariant ac.patterns == patterns && fresh(ac) && fresh(ac.root)
        invariant ac.root.Length == 256 && forall b: Byte :: ac.root[b] == 0
        invariant Trie(ac.nodes, ac.words) && Outputs(ac.nodes, ac.words, patterns[..i]) && NoLinks(ac.nodes)
        invariant Distinct(patterns[..i]) && [] !in patterns[..i]
        invariant forall p :: p in seen <==> p in patterns[..i]
        invariant forall p :: p in seen ==> seen[p] < i && patterns[seen[p]] == p
      {
        var p := patterns[i];
        if p == [] {
          return Failure(EmptyPattern(i));
        }
        if p in seen {
          return Failure(DuplicatePattern(seen[p], i));
        }
        seen := seen[p := i];
        assert patterns[..i + 1] == patterns[..i] + [p];
        ac.Insert(p, i);
      }
      assert patterns[..|patterns|] == patterns;
      ac.BuildLinks();
      ac.FillRoot();
      return Success(ac);
    }

    /** One byte of the scan: the dense table at the root, edges and failure links elsewhere. */
    method Advance(cur: nat, b: Byte, ghost t: Bytes) returns (next: nat, ghost steps: nat)
      requires Valid() && Longest(words, t, cur)
      ensures Longest(words, t + [b], next)
      ensures |words[next]| + steps <= |words[cur]| + 1
    {
      next, steps := cur, 0;
      while next != 0 && b !in nodes[next].children
        invariant next < |nodes| && |words[next]| + steps <= |words[cur]|
        invariant Candidate(nodes, words, t, b, next)
        decreases |words[next]|
      {
        CandidateFails(nodes, words, t, b, next);
        next, steps := nodes[next].fail, steps + 1;
      }
      if b in nodes[next].children {
        CandidateFound(nodes, words, t, b, next);
        CandidateBound(nodes, words, t, b, next, nodes[next].children[b]);
      } else {
        CandidateAtRoot(nodes, words, t, b);
      }
      next := if next == 0 then root[b] else nodes[next].children[b];
    }

    /** Reports the pattern of one node, if it has one. */
    method Report(n: nat, text: Bytes, end: nat, found: seq<Match>) returns (out: seq<Match>)
      requires Valid() && end <= |text| && n < |nodes| && IsSuffix(words[n], text[..end])
      requires Collected(patterns, text, found, end, |words[n]|)
      ensures |out| == |found| + if nodes[n].output >= 0 then 1 else 0
      ensures var link := nodes[n].suffixLink;
              && -1 <= link < |nodes| && Collected(patterns, text, out, end, Depth(words, link))
              && (link >= 0 ==> IsSuffix(words[link], text[..end]) && |words[link]| < |words[n]| && nodes[link].output >= 0)
    {
      CollectStep(nodes, words, patterns, text, found, end, n);
      var idx := nodes[n].output;
      out := if idx >= 0 then found + [Match(end - |patterns[idx]|, end, idx)] else found;
    }

    /** Reports the patterns that end at a position, following suffix links from the node reached there. */
    method Collect(cur: nat, text: Bytes, end: nat, found: seq<Match>) returns (out: seq<Match>, ghost steps: nat)
      requires Valid() && end <= |text| && Longest(words, text[..end], cur)
      requires Collected(patterns, text, found, end, |words[cur]|)
      ensures Collected(patterns, text, out, end, 0)
      ensures |found| + steps <= |out|
    {
      out, steps := found, 0;
      var n: int := cur;
      ghost var landed := 0;
      while n >= 0
        invariant -1 <= n < |nodes| && (n >= 0 ==> IsSuffix(words[n], text[..end]))
        invariant Collected(patterns, text, out, end, Depth(words, n))
        invariant landed == 1 && n >= 0 ==> nodes[n].output >= 0
        invariant 0 <= landed <= 1 && |found| + steps <= |out| + if n >= 0 then landed else 0
        decreases Depth(words, n), n
      {
        out := Report(n, text, end, out);
        n := nodes[n].suffixLink;
        if n >= 0 {
          landed, steps := 1, steps + 1;
        }
      }
    }

    /** Reads the text once, collecting every match that ends at each position. */
    method Scan(text: Bytes) returns (out: seq<Match>, ghost failSteps: nat, ghost linkSteps: nat)
      requires Valid()
      ensures Collected(patterns, text, out, |text|, 0)
      ensures failSteps <= |text| && linkSteps <= |out|
    {
      out, failSteps, linkSteps := [], 0, 0;
      var cur: nat := 0;
      for i := 0 to |text|
        invariant Longest(words, text[..i], cur)
        invariant failSteps + |words[cur]| <= i && linkSteps <= |out|
        invariant Collected(patterns, text, out, i, 0)
      {
        assert text[..i + 1] == text[..i] + [text[i]];
        ghost var steps;
        cur, steps := Advance(cur, text[i], text[..i]);
        failSteps := failSteps + steps;
        CollectStart(nodes, words, patterns, text, out, i + 1, cur);
        if cur != 0 {
          out, steps := Collect(cur, text, i + 1, out);
          linkSteps := linkSteps + steps;
        }
      }
    }

    /** Reports every occurrence of every pattern, ordered by start and then end. Over the whole scan it
        follows at most one failure link per byte of text and one suffix link per reported match. */
    method FindAll(text: Bytes) returns (out: seq<Match>, ghost failSteps: nat, ghost linkSteps: nat)
      requires Valid()
      ensures forall m :: m in out <==> Occurs(patterns, text, m)
      ensures forall i, j :: 0 <= i < j < |out| ==>
                out[i].start < out[j].start || (out[i].start == out[j].start && out[i].end < out[j].end)
      ensures failSteps <= |text| && linkSteps <= |out|
    {
      out, failSteps, linkSteps := Scan(text);
      ghost var found := out;
      out := Sort(NotAfter, out);
      PermutationOfDistinct(found, out);
      SortedMatches(patterns, text, out);
    }
  }

  lemma EmptyTrie()
    ensures Trie([FRESH_NODE], [[]]) && Outputs([FRESH_NODE], [[]], []) && NoLinks([FRESH_NODE])
  {
  }

  /** What a failed compilation reports: the first pattern that is empty or repeats an earlier one. */
  ghost predicate Reason(patterns: seq<Bytes>, error: BuildError) {
    match error
    case NoPatterns => patterns == []
    case EmptyPattern(i) =>
      i < |patterns| && patterns[i] == [] && [] !in patterns[..i] && Distinct(patterns[..i])
    case DuplicatePattern(p, i) =>
      p < i < |patterns| && patterns[p] == patterns[i] && [] !in patterns[..i] && Distinct(patterns[..i])
  }

  ghost function Depth(words: seq<Bytes>, n: int): nat
    requires n < |words|
  {
    if n >= 0 then |words[n]| else 0
  }

  /** The matches found so far: all that end before end, and those ending there that are longer than depth. */
  ghost predicate Collected(patterns: seq<Bytes>, text: Bytes, out: seq<Match>, end: nat, depth: nat) {
    && Distinct(out)
    && forall m :: m in out <==> Occurs(patterns, text, m) && (m.end < end || (m.end == end && m.end - m.start > depth))
  }

  /** A pattern standing at the end of a prefix of the text has a node that reports it there. */
  lemma OccurrenceHasNode(nodes: seq<Node>, words: seq<Bytes>, patterns: seq<Bytes>, text: Bytes, m: Match) returns (k: nat)
    requires Outputs(nodes, words, patterns) && Occurs(patterns, text, m)
    ensures Reports(nodes, words, text[..m.end], k)
    ensures words[k] == patterns[m.pattern] && nodes[k].output == m.pattern && |words[k]| == m.end - m.start
  {
    assert PatternHasNode(nodes, words, patterns[m.pattern], m.pattern);
    k :| k < |nodes| && words[k] == patterns[m.pattern] && nodes[k].output == m.pattern;
    assert text[..m.end][m.start..] == text[m.start..m.end];
  }

  lemma CollectStart(nodes: seq<Node>, words: seq<Bytes>, patterns: seq<Bytes>, text: Bytes, out: seq<Match>, end: nat, cur: nat)
    requires Outputs(nodes, words, patterns) && [] !in patterns && 0 < end <= |text|
    requires Longest(words, text[..end], cur) && Collected(patterns, text, out, end - 1, 0)
    ensures Collected(patterns, text, out, end, |words[cur]|)
  {
    forall m | Occurs(patterns, text, m) && m.end == end ensures m.end - m.start <= |words[cur]| {
      var k := OccurrenceHasNode(nodes, words, patterns, text, m);
    }
    forall m | Occurs(patterns, text, m) ensures m.end - m.start > 0 {
      assert patterns[m.pattern] != [];
    }
  }

  /** The suffix link leads to a shorter node that stands at the end of the text and reports something. */
  lemma LinkStands(nodes: seq<Node>, words: seq<Bytes>, patterns: seq<Bytes>, prefix: Bytes, n: nat)
    requires Linked(nodes, words) && Outputs(nodes, words, patterns) && [] !in patterns && n < |nodes| && IsSuffix(words[n], prefix)
    ensures var link := nodes[n].suffixLink;
            -1 <= link < |nodes| && (link >= 0 ==> IsSuffix(words[link], prefix) && |words[link]| < |words[n]| && nodes[link].output >= 0)
  {
    var link := nodes[n].suffixLink;
    assert SuffixOk(nodes, words, n);
    if words[n] == [] {
      assert link < 0;
    } else if link >= 0 {
      SuffixOfTail(words[link], words[n]);
      SuffixTrans(words[link], words[n], prefix);
    }
  }

  /** No match that ends here lies strictly between a node's depth and its suffix link's. */
  lemma NoneBetween(nodes: seq<Node>, words: seq<Bytes>, patterns: seq<Bytes>, text: Bytes, end: nat, n: nat, m: Match)
    requires Linked(nodes, words) && Outputs(nodes, words, patterns) && [] !in patterns
    requires end <= |text| && n < |nodes| && IsSuffix(words[n], text[..end]) && nodes[n].suffixLink < |nodes|
    requires Occurs(patterns, text, m) && m.end == end && Depth(words, nodes[n].suffixLink) < m.end - m.start <= |words[n]|
    ensures nodes[n].output >= 0 && m == Match(end - |patterns[nodes[n].output]|, end, nodes[n].output)
  {
    assert SuffixOk(nodes, words, n);
    var k := OccurrenceHasNode(nodes, words, patterns, text, m);
    SuffixChain(words[k], words[n], text[..end]);
    SuffixOfTail(words[k], words[n]);
    assert k == n;
  }

  /** Visiting a node reports its own pattern. */
  lemma CollectStep(nodes: seq<Node>, words: seq<Bytes>, patterns: seq<Bytes>, text: Bytes, out: seq<Match>, end: nat, n: nat)
    requires Linked(nodes, words) && Outputs(nodes, words, patterns) && Distinct(patterns) && [] !in patterns
    requires end <= |text| && n < |nodes| && IsSuffix(words[n], text[..end])
    requires Collected(patterns, text, out, end, |words[n]|)
    ensures var idx, link := nodes[n].output, nodes[n].suffixLink;
            && -1 <= link < |nodes|
            && (link >= 0 ==> IsSuffix(words[link], text[..end]) && |words[link]| < |words[n]| && nodes[link].output >= 0)
            && (idx >= 0 ==> |patterns[idx]| <= end)
            && Collected(patterns, text, if idx >= 0 then out + [Match(end - |patterns[idx]|, end, idx)] else out,
                         end, Depth(words, link))
  {
    var idx, link := nodes[n].output, nodes[n].suffixLink;
    LinkStands(nodes, words, patterns, text[..end], n);
    forall m | Occurs(patterns, text, m) && m.end == end && Depth(words, link) < m.end - m.start <= |words[n]|
      ensures idx >= 0 && m == Match(end - |patterns[idx]|, end, idx)
    {
      NoneBetween(nodes, words, patterns, text, end, n, m);
    }
    if idx >= 0 {
      assert words[n] == patterns[idx] && patterns[idx] != [];
      assert text[..end][end - |words[n]|..] == text[end - |words[n]|..end];
      CollectedMore(patterns, text, out, end, |words[n]|, Depth(words, link), Match(end - |patterns[idx]|, end, idx));
    }
  }

  lemma CollectedMore(patterns: seq<Bytes>, text: Bytes, out: seq<Match>, end: nat, depth: nat, depth': nat, x: Match)
    requires Collected(patterns, text, out, end, depth) && depth' < depth
    requires Occurs(patterns, text, x) && x.end == end && x.end - x.start == depth
    requires forall m :: Occurs(patterns, text, m) && m.end == end && depth' < m.end - m.start <= depth ==> m == x
    ensures Collected(patterns, text, out + [x], end, depth')
  {
    assert x !in out;
  }

  /** Two matches with the same span are the same match, so the sorted order is strict. */
  lemma SortedMatches(patterns: seq<Bytes>, text: Bytes, out: seq<Match>)
    requires Distinct(patterns) && Distinct(out) && SortedBy(NotAfter, out)
    requires forall m :: m in out ==> Occurs(patterns, text, m)
    ensures forall i, j :: 0 <= i < j < |out| ==>
              out[i].start < out[j].start || (out[i].start == out[j].start && out[i].end < out[j].end)
  {
    forall i, j | 0 <= i < j < |out|
      ensures out[i].start < out[j].start || (out[i].start == out[j].start && out[i].end < out[j].end)
    {
      assert NotAfter(out[i], out[j]);
      SameSpan(patterns, text, out[i], out[j]);
    }
  }

  lemma SameSpan(patterns: seq<Bytes>, text: Bytes, m: Match, n: Match)
    requires Distinct(patterns) && Occurs(patterns, text, m) && Occurs(patterns, text, n)
    ensures m.start == n.start && m.end == n.end ==> m == n
  {
  }

  ghost function Undone(n: nat, done: set<nat>): nat {
    |set i: nat | i < n && i !in done|
  }

  ghost predicate Relabelled(nodes: seq<Node>, nodes': seq<Node>) {
    |nodes'| == |nodes| && forall i :: 0 <= i < |nodes| ==>
                                         nodes'[i].children == nodes[i].children && nodes'[i].output == nodes[i].output
  }

  lemma RelabelledOutputs(nodes: seq<Node>, nodes': seq<Node>, words: seq<Bytes>, patterns: seq<Bytes>)
    requires Relabelled(nodes, nodes') && Outputs(nodes, words, patterns)
    ensures Outputs(nodes', words, patterns)
  {
    forall k: nat | k < |patterns| ensures PatternHasNode(nodes', words, patterns[k], k) {
      assert PatternHasNode(nodes, words, patterns[k], k);
    }
  }

  lemma RootFrontier(nodes: seq<Node>, words: seq<Bytes>)
    requires Trie(nodes, words) && NoLinks(nodes) && nodes[0].output == -1
    ensures Frontier(nodes, words, {0}, [], 0, nodes[0].children.Keys)
  {
    assert forall k: nat :: Reports(nodes, words, [], k) ==> words[k] == words[0];
    assert SuffixOk(nodes, words, 0);
  }

  /** With nothing left to expand, breadth-first search has reached every node. */
  lemma {:induction false} AllDone(nodes: seq<Node>, words: seq<Bytes>, done: set<nat>, cur: nat, n: nat)
    requires Frontier(nodes, words, done, [], cur, {}) && n < |nodes|
    ensures n in done
    decreases |words[n]|
  {
    if n != 0 {
      assert HasParent(nodes, words, n);
      var p: nat :| p < |nodes| && words[n] == words[p] + [words[n][|words[n]| - 1]]
                    && IsChild(nodes, p, words[n][|words[n]| - 1], n);
      AllDone(nodes, words, done, cur, p);
    }
  }
}
