/** Building the automaton: the trie, then failure links and merged outputs breadth first
    (core/scan/automaton.go). */
module AhoCorasickBuild {
  import opened Wrappers
  import opened Bytes
  import opened AhoCorasick

  // ---------------------------------------------------------------- the trie

  ghost predicate TrieOf(next: seq<map<byte, nat>>, words: seq<seq<nat>>, strs: seq<seq<byte>>, dict: seq<seq<byte>>,
                         count: nat)
    requires count <= |dict|
  {
    && Trie(next, strs) && |words| == |strs|
    && (forall n | 0 <= n < |strs| :: OwnWords(strs, words, dict, count, n))
    && (forall k | 0 <= k < count :: Spelled(strs, FoldAll(dict[k])))
  }

  function WithChild(next: seq<map<byte, nat>>, node: nat, b: byte): seq<map<byte, nat>>
    requires node < |next|
  {
    (next + [map[]])[node := next[node][b := |next|]]
  }

  /** A new node after node's missing edge b keeps the trie. */
  lemma ParentStays(next: seq<map<byte, nat>>, strs: seq<seq<byte>>, node: nat, b: byte, n: nat)
    requires |next| == |strs| && node < |next| && b !in next[node] && n < |strs| && HasParent(next, strs, n)
    ensures HasParent(WithChild(next, node, b), strs + [strs[node] + [b]], n)
  {
    var p :| 0 <= p < |next| && IsParent(next, strs, p, n);
    assert IsParent(WithChild(next, node, b), strs + [strs[node] + [b]], p, n);
  }

  lemma ChildKeepsTrie(next: seq<map<byte, nat>>, strs: seq<seq<byte>>, node: nat, b: byte)
    requires Trie(next, strs) && node < |next| && b !in next[node]
    ensures !Spelled(strs, strs[node] + [b])
    ensures Trie(WithChild(next, node, b), strs + [strs[node] + [b]])
  {
    var next' := WithChild(next, node, b);
    var strs' := strs + [strs[node] + [b]];
    EdgeSpells(next, strs, node, b);
    forall n | 0 < n < |strs'| ensures HasParent(next', strs', n) {
      if n == |strs| {
        assert IsParent(next', strs', node, n);
      } else {
        ParentStays(next, strs, node, b, n);
      }
    }
    forall n | 0 <= n < |strs| ensures strs'[n] != strs'[|strs|] {
      assert Spelled(strs, strs[n]);
    }
  }

  /** It spells no word added before. */
  lemma ChildKeepsTrieOf(next: seq<map<byte, nat>>, words: seq<seq<nat>>, strs: seq<seq<byte>>, dict: seq<seq<byte>>,
                         count: nat, node: nat, b: byte)
    requires count <= |dict| && TrieOf(next, words, strs, dict, count) && node < |next| && b !in next[node]
    ensures TrieOf(WithChild(next, node, b), words + [[]], strs + [strs[node] + [b]], dict, count)
  {
    var strs' := strs + [strs[node] + [b]];
    ChildKeepsTrie(next, strs, node, b);
    forall n | 0 <= n < |strs'| ensures OwnWords(strs', words + [[]], dict, count, n) {
      assert n < |strs| ==> OwnWords(strs, words, dict, count, n);
    }
    forall k | 0 <= k < count ensures Spelled(strs', FoldAll(dict[k])) {
      var n :| 0 <= n < |strs| && strs[n] == FoldAll(dict[k]);
      assert strs'[n] == FoldAll(dict[k]);
    }
  }

  lemma WordKeepsTrie(next: seq<map<byte, nat>>, words: seq<seq<nat>>, strs: seq<seq<byte>>, dict: seq<seq<byte>>,
                      count: nat, node: nat)
    requires count < |dict| && TrieOf(next, words, strs, dict, count) && node < |strs|
             && strs[node] == FoldAll(dict[count])
    ensures TrieOf(next, words[node := words[node] + [count]], strs, dict, count + 1)
  {
    var words', more := words[node := words[node] + [count]], count + 1;
    forall n | 0 <= n < |strs| ensures OwnWords(strs, words', dict, more, n) {
      assert OwnWords(strs, words, dict, count, n);
      forall i: nat ensures i in words'[n] <==> i < count + 1 && FoldAll(dict[i]) == strs[n] {
        assert i in words'[n] <==> i in words[n] || (n == node && i == count);
      }
    }
  }

  method BuildTrie(dict: seq<seq<byte>>)
    returns (next: seq<map<byte, nat>>, words: seq<seq<nat>>, sizes: seq<nat>, ghost strs: seq<seq<byte>>)
    ensures TrieOf(next, words, strs, dict, |dict|)
    ensures |sizes| == |dict| && forall i | 0 <= i < |dict| :: sizes[i] == |dict[i]|
  {
    next, words, sizes, strs := [map[]], [[]], [], [[]];
    for i := 0 to |dict|
      invariant TrieOf(next, words, strs, dict, i)
      invariant |sizes| == i && forall k | 0 <= k < i :: sizes[k] == |dict[k]|
    {
      var w := dict[i];
      var node: nat := 0;
      for j := 0 to |w|
        invariant TrieOf(next, words, strs, dict, i)
        invariant node < |strs| && strs[node] == FoldAll(w)[..j]
      {
        var b := Fold(w[j]);
        if b !in next[node] {
          ChildKeepsTrieOf(next, words, strs, dict, i, node, b);
          strs := strs + [strs[node] + [b]];
          var child := |next|;
          next := (next + [map[]])[node := next[node][b := child]];
          words := words + [[]];
        }
        node := next[node][b];
      }
      assert FoldAll(w)[..|w|] == FoldAll(w);
      WordKeepsTrie(next, words, strs, dict, i, node);
      words := words[node := words[node] + [i]];
      sizes := sizes + [|w|];
    }
  }

  // ---------------------------------------------------------------- failure links

  ghost predicate ChildrenDone(next: seq<map<byte, nat>>, done: set<nat>, expanded: set<nat>, node: nat,
                               todo: set<byte>) {
    forall p, b {:trigger next[p][b]} | 0 <= p < |next| && b in next[p] ::
      next[p][b] in done <==> p in expanded && (p == node ==> b !in todo)
  }

  /** The queue holds the done nodes not expanded, in order of depth; a node's children are done once
      it is expanded. */
  ghost predicate Frontier(next: seq<map<byte, nat>>, strs: seq<seq<byte>>, done: set<nat>, expanded: set<nat>,
                           queue: seq<nat>) {
    && |next| == |strs|
    && 0 in expanded && (forall n <- expanded :: n == 0 || n in done)
    && (forall n <- done :: n < |strs|)
    && (forall i | 0 <= i < |queue| :: queue[i] < |strs|)
    && (forall n :: n in queue <==> n in done && n !in expanded)
    && (forall i, j | 0 <= i < j < |queue| :: queue[i] != queue[j])
    && (forall i, j | 0 <= i < j < |queue| :: |strs[queue[i]]| <= |strs[queue[j]]|)
    && (forall i | 0 <= i < |queue| :: |strs[queue[i]]| <= |strs[queue[0]]| + 1)
  }

  ghost predicate DoneTo(strs: seq<seq<byte>>, done: set<nat>, depth: nat) {
    forall n | 0 < n < |strs| && |strs[n]| <= depth :: n in done
  }

  /** Once a level is expanded, the next is done. */
  lemma NextLevel(next: seq<map<byte, nat>>, strs: seq<seq<byte>>, done: set<nat>, expanded: set<nat>, queue: seq<nat>,
                  depth: nat)
    requires Trie(next, strs) && Frontier(next, strs, done, expanded, queue)
             && ChildrenDone(next, done, expanded, 0, {})
    requires DoneTo(strs, done, depth) && forall i | 0 <= i < |queue| :: |strs[queue[i]]| > depth
    ensures DoneTo(strs, done, depth + 1)
  {
    forall n | 0 < n < |strs| && |strs[n]| == depth + 1 ensures n in done {
      assert HasParent(next, strs, n);
      var p :| 0 <= p < |next| && IsParent(next, strs, p, n);
      assert p == 0 || p in done;
      assert p in expanded;
      assert next[p][strs[n][|strs[n]| - 1]] in done;
    }
  }

  lemma {:induction false} AllDone(next: seq<map<byte, nat>>, strs: seq<seq<byte>>, done: set<nat>, expanded: set<nat>,
                                   depth: nat)
    requires Trie(next, strs) && Frontier(next, strs, done, expanded, []) && ChildrenDone(next, done, expanded, 0, {})
    ensures DoneTo(strs, done, depth)
    decreases depth
  {
    if depth == 0 {
      forall n | 0 < n < |strs| ensures strs[n] != [] {
        assert HasParent(next, strs, n);
      }
    } else {
      AllDone(next, strs, done, expanded, depth - 1);
      NextLevel(next, strs, done, expanded, [], depth - 1);
    }
  }

  function Nodes(n: nat): (s: set<nat>)
    ensures forall i: nat :: i in s <==> i < n
  {
    if n == 0 then {} else Nodes(n - 1) + {n - 1}
  }

  /** done nodes have their failure and outputs, the rest their own words alone. */
  ghost predicate Linked(strs: seq<seq<byte>>, fail: seq<nat>, words: seq<seq<nat>>, dict: seq<seq<byte>>,
                         done: set<nat>) {
    && |fail| == |words| == |strs|
    && (forall n <- done :: 0 < n < |strs| && FailHolds(strs, fail, n))
    && (forall n | 0 <= n < |strs| && (n == 0 || n in done) :: WordsHold(strs, words, dict, n))
    && (forall n | 0 <= n < |strs| && n !in done :: OwnWords(strs, words, dict, |dict|, n) && fail[n] == 0)
  }

  lemma Unlinked(dict: seq<seq<byte>>, next: seq<map<byte, nat>>, words: seq<seq<nat>>, strs: seq<seq<byte>>)
    requires TrieOf(next, words, strs, dict, |dict|) && forall w | 0 <= w < |dict| :: dict[w] != []
    ensures Linked(strs, seq(|next|, _ => 0), words, dict, {})
  {
    assert OwnWords(strs, words, dict, |dict|, 0);
    forall i: nat ensures i in words[0] <==> i < |dict| && IsSuffix(FoldAll(dict[i]), strs[0]) {
    }
  }

  /** The state of the walk while node's children over the bytes todo are still to be linked. */
  ghost predicate Walking(dict: seq<seq<byte>>, next: seq<map<byte, nat>>, strs: seq<seq<byte>>, fail: seq<nat>,
                          words: seq<seq<nat>>,
                          queue: seq<nat>, done: set<nat>, expanded: set<nat>, node: nat, todo: set<byte>) {
    && Linked(strs, fail, words, dict, done)
    && Frontier(next, strs, done, expanded, queue) && ChildrenDone(next, done, expanded, node, todo)
    && node < |next| && node in expanded && todo <= next[node].Keys
    && DoneTo(strs, done, |strs[node]|)
    && (forall i | 0 <= i < |queue| :: |strs[node]| <= |strs[queue[i]]| <= |strs[node]| + 1)
  }

  lemma HasFirst(s: seq<nat>)
    requires s != []
    ensures exists i: nat :: i in s
  {
    assert s[0] in s;
  }

  lemma RootHasNoWords(dict: seq<seq<byte>>, strs: seq<seq<byte>>, words: seq<seq<nat>>)
    requires 0 < |strs| == |words| && strs[0] == [] && WordsHold(strs, words, dict, 0)
             && forall w | 0 <= w < |dict| :: dict[w] != []
    ensures words[0] == []
  {
    if words[0] != [] {
      HasFirst(words[0]);
    }
  }

  lemma EdgeIsOne(next: seq<map<byte, nat>>, strs: seq<seq<byte>>, p: nat, b: byte, q: nat, c: byte)
    requires Trie(next, strs) && p < |next| && q < |next| && b in next[p] && c in next[q] && next[p][b] == next[q][c]
    ensures p == q && b == c
  {
    assert strs[next[p][b]] == strs[p] + [b];
    assert strs[next[q][c]] == strs[q] + [c];
    assert (strs[p] + [b])[..|strs[p]|] == strs[p] && (strs[q] + [c])[..|strs[q]|] == strs[q];
    assert (strs[p] + [b])[|strs[p]|] == (strs[q] + [c])[|strs[q]|];
  }

  /** Marking a child done as it is queued. */
  lemma Enqueue(next: seq<map<byte, nat>>, strs: seq<seq<byte>>, done: set<nat>, expanded: set<nat>, node: nat,
                todo: set<byte>, b: byte)
    requires Trie(next, strs) && ChildrenDone(next, done, expanded, node, todo)
    requires node in expanded && node < |next| && b in next[node] && b in todo
    ensures next[node][b] !in done
    ensures ChildrenDone(next, done + {next[node][b]}, expanded, node, todo - {b})
  {
    var child := next[node][b];
    forall p, c {:trigger next[p][c]} | 0 <= p < |next| && c in next[p]
      ensures next[p][c] in done + {child} <==> p in expanded && (p == node ==> c !in todo - {b})
    {
      if next[p][c] == child {
        EdgeIsOne(next, strs, p, c, node, b);
      }
    }
  }

  lemma QueueGrows(next: seq<map<byte, nat>>, strs: seq<seq<byte>>, done: set<nat>, expanded: set<nat>, queue: seq<nat>,
                   depth: nat, child: nat)
    requires Frontier(next, strs, done, expanded, queue) && 0 < child < |strs| && child !in done
             && |strs[child]| == depth + 1
    requires forall i | 0 <= i < |queue| :: depth <= |strs[queue[i]]| <= depth + 1
    ensures Frontier(next, strs, done + {child}, expanded, queue + [child])
  {
    var queue' := queue + [child];
    assert child !in queue && child !in expanded;
    forall n ensures n in queue' <==> n in done + {child} && n !in expanded {
      assert n in queue' <==> n in queue || n == child;
    }
  }

  /** The outputs of a node are its own words and its failure's. */
  lemma MergeHolds(dict: seq<seq<byte>>, strs: seq<seq<byte>>, fail: seq<nat>, words: seq<seq<nat>>, child: nat)
    requires child < |strs| == |fail| == |words| && FailHolds(strs, fail, child)
    requires forall i | 0 <= i < |dict| :: Spelled(strs, FoldAll(dict[i]))
    requires OwnWords(strs, words, dict, |dict|, child) && WordsHold(strs, words, dict, fail[child])
    ensures WordsHold(strs, words[child := words[child] + words[fail[child]]], dict, child)
  {
    var merged := words[child] + words[fail[child]];
    var s, f := strs[child], strs[fail[child]];
    forall i: nat ensures i in merged <==> i < |dict| && IsSuffix(FoldAll(dict[i]), s) {
      if i < |dict| {
        var u := FoldAll(dict[i]);
        if i in words[fail[child]] {
          SuffixTransitive(u, f, s);
        }
        if IsSuffix(u, s) && u != s {
          var m :| 0 <= m < |strs| && strs[m] == u;
          assert |u| < |s| by {
            assert s[0..] == s;
          }
          assert IsProperSuffix(strs[m], s);
          ShorterSuffix(u, f, s);
        }
      }
    }
    forall i, j | 0 <= i < j < |merged| ensures merged[i] != merged[j] {
      if i < |words[child]| <= j {
        assert words[child][i] in words[child];
        assert words[fail[child]][j - |words[child]|] in words[fail[child]];
      }
    }
  }

  lemma LinkKeepsOthers(dict: seq<seq<byte>>, strs: seq<seq<byte>>, fail: seq<nat>, words: seq<seq<nat>>,
                        done: set<nat>, child: nat, f: nat, own: seq<nat>)
    requires Linked(strs, fail, words, dict, done) && 0 < child < |strs| && child !in done
    requires FailHolds(strs, fail[child := f], child) && WordsHold(strs, words[child := own], dict, child)
    ensures Linked(strs, fail[child := f], words[child := own], dict, done + {child})
  {
    var fail', words' := fail[child := f], words[child := own];
    forall n <- done + {child} ensures 0 < n < |strs| && FailHolds(strs, fail', n) {
      assert n != child ==> FailHolds(strs, fail, n);
    }
    forall n | 0 <= n < |strs| && (n == 0 || n in done + {child}) ensures WordsHold(strs, words', dict, n) {
      assert n != child ==> WordsHold(strs, words, dict, n);
    }
    forall n | 0 <= n < |strs| && n !in done + {child}
      ensures OwnWords(strs, words', dict, |dict|, n) && fail'[n] == 0
    {
      assert OwnWords(strs, words, dict, |dict|, n);
    }
  }

  lemma ChildLinks(dict: seq<seq<byte>>, strs: seq<seq<byte>>, fail: seq<nat>, words: seq<seq<nat>>, done: set<nat>,
                   child: nat, f: nat)
    requires forall i | 0 <= i < |dict| :: Spelled(strs, FoldAll(dict[i]))
    requires Linked(strs, fail, words, dict, done) && 0 < child < |strs| && child !in done
    requires FailHolds(strs, fail[child := f], child) && (f == 0 || f in done)
    ensures Linked(strs, fail[child := f], words[child := words[child] + words[f]], dict, done + {child})
  {
    MergeHolds(dict, strs, fail[child := f], words, child);
    LinkKeepsOthers(dict, strs, fail, words, done, child, f, words[child] + words[f]);
  }

  lemma LinkChild(dict: seq<seq<byte>>, next: seq<map<byte, nat>>, strs: seq<seq<byte>>, fail: seq<nat>,
                  words: seq<seq<nat>>,
                  queue: seq<nat>, done: set<nat>, expanded: set<nat>, node: nat, todo: set<byte>, b: byte, f: nat)
    requires Trie(next, strs) && forall i | 0 <= i < |dict| :: Spelled(strs, FoldAll(dict[i]))
    requires Walking(dict, next, strs, fail, words, queue, done, expanded, node, todo) && b in todo
    requires FailHolds(strs, fail[next[node][b] := f], next[node][b]) && (f == 0 || f in done)
    ensures var child := next[node][b];
            Walking(dict, next, strs, fail[child := f], words[child := words[child] + words[f]],
                    queue + [child], done + {child}, expanded, node, todo - {b})
  {
    var child := next[node][b];
    Enqueue(next, strs, done, expanded, node, todo, b);
    QueueGrows(next, strs, done, expanded, queue, |strs[node]|, child);
    ChildLinks(dict, strs, fail, words, done, child, f);
  }

  lemma OneByteFailsToRoot(next: seq<map<byte, nat>>, strs: seq<seq<byte>>, fail: seq<nat>, b: byte)
    requires Trie(next, strs) && |fail| == |strs| && b in next[0]
    ensures FailHolds(strs, fail[next[0][b] := 0], next[0][b])
  {
    assert |strs[next[0][b]]| == 1;
  }

  lemma AllShallow(next: seq<map<byte, nat>>, strs: seq<seq<byte>>)
    requires Trie(next, strs)
    ensures DoneTo(strs, {}, 0)
  {
    forall n | 0 < n < |strs| ensures strs[n] != [] {
      assert HasParent(next, strs, n);
    }
  }

  /** Queues the root's children, which fail to the root and end with no word but their own. */
  method QueueRoots(dict: seq<seq<byte>>, next: seq<map<byte, nat>>, ghost strs: seq<seq<byte>>, ghost fail: seq<nat>,
                    ghost words: seq<seq<nat>>)
    returns (queue: seq<nat>, ghost done: set<nat>)
    requires Trie(next, strs) && forall i | 0 <= i < |dict| :: Spelled(strs, FoldAll(dict[i]))
    requires Linked(strs, fail, words, dict, {}) && words[0] == []
    ensures Walking(dict, next, strs, fail, words, queue, done, {0}, 0, {})
  {
    AllShallow(next, strs);
    queue, done := [], {};
    var todo := next[0].Keys;
    while todo != {}
      invariant Walking(dict, next, strs, fail, words, queue, done, {0}, 0, todo)
    {
      var b :| b in todo;
      var child := next[0][b];
      Enqueue(next, strs, done, {0}, 0, todo, b);
      assert fail[child := 0] == fail;
      assert words[child] + words[0] == words[child];
      assert words[child := words[child] + words[0]] == words;
      OneByteFailsToRoot(next, strs, fail, b);
      LinkChild(dict, next, strs, fail, words, queue, done, {0}, 0, todo, b, 0);
      queue, done, todo := queue + [child], done + {child}, todo - {b};
    }
  }

  lemma Popped(next: seq<map<byte, nat>>, strs: seq<seq<byte>>, done: set<nat>, expanded: set<nat>, queue: seq<nat>,
               node: nat)
    requires Frontier(next, strs, done, expanded, queue) && queue != [] && queue[0] == node
    requires ChildrenDone(next, done, expanded, 0, {}) && node !in expanded && node < |next|
    ensures Frontier(next, strs, done, expanded + {node}, queue[1..])
    ensures ChildrenDone(next, done, expanded + {node}, node, next[node].Keys)
    ensures forall i | 0 < i < |queue| :: |strs[node]| <= |strs[queue[i]]| <= |strs[node]| + 1
  {
    forall n ensures n in queue[1..] <==> n in done && n !in expanded + {node} {
      assert n in queue <==> n == node || n in queue[1..];
    }
  }

  /** The head of the queue is taken: every node as deep as it is done. */
  lemma NextHead(dict: seq<seq<byte>>, next: seq<map<byte, nat>>, strs: seq<seq<byte>>, fail: seq<nat>,
                 words: seq<seq<nat>>,
                 queue: seq<nat>, done: set<nat>, expanded: set<nat>, node: nat)
    requires Trie(next, strs) && Walking(dict, next, strs, fail, words, queue, done, expanded, node, {}) && queue != []
    ensures queue[0] < |next| && queue[0] !in expanded && 0 < queue[0]
    ensures Walking(dict, next, strs, fail, words, queue[1..], done, expanded + {queue[0]}, queue[0],
                    next[queue[0]].Keys)
  {
    var head := queue[0];
    assert head in queue;
    if |strs[head]| > |strs[node]| {
      NextLevel(next, strs, done, expanded, queue, |strs[node]|);
    }
    Popped(next, strs, done, expanded, queue, head);
  }

  /** The failure found for node's child over b. */
  method FindFailure(dict: seq<seq<byte>>, next: seq<map<byte, nat>>, ghost strs: seq<seq<byte>>, fail: seq<nat>,
                     node: nat, b: byte) returns (f: nat)
    requires Trie(next, strs) && |fail| == |strs| && 0 < node < |strs| && b in next[node]
    requires forall n | 0 < n < |strs| && |strs[n]| <= |strs[node]| :: FailHolds(strs, fail, n)
    requires fail[next[node][b]] == 0
    ensures f < |strs| && FailHolds(strs, fail[next[node][b] := f], next[node][b])
    ensures |strs[f]| <= |strs[node]|
  {
    var child := next[node][b];
    f := fail[node];
    assert FailHolds(strs, fail, node);
    while f != 0 && b !in next[f]
      invariant f < |strs| && Longest(strs, strs[node], b, f, true)
      decreases |strs[f]|
    {
      FallBack(next, strs, fail, strs[node], b, f, true);
      f := fail[f];
    }
    var target := if b in next[f] && next[f][b] != child then next[f][b] else 0;
    forall m | 0 <= m < |strs| && IsProperSuffix(strs[m], strs[child]) ensures |strs[m]| <= |strs[target]| {
      Advance(next, strs, strs[node], b, f, true, m);
    }
    if b in next[f] {
      SnocSuffix(strs[f], strs[node], b);
    }
    f := target;
  }

  /** Links each child of node and queues it. */
  method LinkChildren(dict: seq<seq<byte>>, next: seq<map<byte, nat>>, ghost strs: seq<seq<byte>>, fail0: seq<nat>,
                      words0: seq<seq<nat>>,
                      queue0: seq<nat>, ghost done0: set<nat>, ghost expanded: set<nat>, node: nat)
    returns (fail: seq<nat>, words: seq<seq<nat>>, queue: seq<nat>, ghost done: set<nat>)
    requires Trie(next, strs) && 0 < node < |next|
    requires forall i | 0 <= i < |dict| :: Spelled(strs, FoldAll(dict[i]))
    requires Walking(dict, next, strs, fail0, words0, queue0, done0, expanded, node, next[node].Keys)
    ensures Walking(dict, next, strs, fail, words, queue, done, expanded, node, {})
  {
    fail, words, queue, done := fail0, words0, queue0, done0;
    var todo := next[node].Keys;
    while todo != {}
      invariant Walking(dict, next, strs, fail, words, queue, done, expanded, node, todo)
    {
      var b :| b in todo;
      var child := next[node][b];
      assert child !in done by {
        Enqueue(next, strs, done, expanded, node, todo, b);
      }
      var f := FindFailure(dict, next, strs, fail, node, b);
      LinkChild(dict, next, strs, fail, words, queue, done, expanded, node, todo, b, f);
      fail, words := fail[child := f], words[child := words[child] + words[f]];
      queue, done, todo := queue + [child], done + {child}, todo - {b};
    }
  }

  method Link(dict: seq<seq<byte>>, next: seq<map<byte, nat>>, own: seq<seq<nat>>, ghost strs: seq<seq<byte>>)
    returns (fail: seq<nat>, words: seq<seq<nat>>)
    requires TrieOf(next, own, strs, dict, |dict|) && forall w | 0 <= w < |dict| :: dict[w] != []
    ensures |fail| == |words| == |strs|
    ensures forall n | 0 < n < |strs| :: FailHolds(strs, fail, n)
    ensures forall n | 0 <= n < |strs| :: WordsHold(strs, words, dict, n)
  {
    fail, words := seq(|next|, _ => 0), own;
    var queue;
    ghost var done;
    Unlinked(dict, next, words, strs);
    RootHasNoWords(dict, strs, words);
    queue, done := QueueRoots(dict, next, strs, fail, words);
    ghost var node, expanded: set<nat> := 0, {0};
    while queue != []
      invariant Walking(dict, next, strs, fail, words, queue, done, expanded, node, {})
      decreases Nodes(|strs|) - expanded
    {
      var head := queue[0];
      NextHead(dict, next, strs, fail, words, queue, done, expanded, node);
      queue, expanded, node := queue[1..], expanded + {head}, head;
      fail, words, queue, done := LinkChildren(dict, next, strs, fail, words, queue, done, expanded, head);
    }
    assert ChildrenDone(next, done, expanded, 0, {});
    forall n | 0 < n < |strs| ensures n in done {
      AllDone(next, strs, done, expanded, |strs[n]|);
    }
  }

  method Build(dict: seq<seq<byte>>) returns (a: Automaton)
    requires forall w | 0 <= w < |dict| :: dict[w] != []
    ensures Recognizes(a, dict)
  {
    var next, words, sizes;
    ghost var strs;
    next, words, sizes, strs := BuildTrie(dict);
    var fail;
    fail, words := Link(dict, next, words, strs);
    a := Automaton(next, fail, words, sizes);
    assert Built(a, strs, dict);
  }
}
