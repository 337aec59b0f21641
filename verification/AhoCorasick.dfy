/** The keyword automaton: a trie with failure links and merged outputs, and the search over it
    (core/scan/automaton.go). */
module AhoCorasick {
  import opened Wrappers
  import opened Bytes

  datatype Automaton = Automaton(next: seq<map<byte, nat>>, fail: seq<nat>, words: seq<seq<nat>>, sizes: seq<nat>)

  /** One occurrence of a word, as offsets into the text searched. */
  datatype Match = Match(start: int, end: int, word: nat)

  /** word occurs in text at start, ASCII letters folded. */
  predicate OccursAt(word: seq<byte>, text: seq<byte>, start: int) {
    0 <= start && start + |word| <= |text| && FoldAll(text[start..start + |word|]) == FoldAll(word)
  }

  // ---------------------------------------------------------------- what the nodes spell

  ghost predicate IsParent(next: seq<map<byte, nat>>, strs: seq<seq<byte>>, p: nat, n: nat)
    requires p < |next| == |strs| && n < |strs| && strs[n] != []
  {
    var s, b := strs[n][..|strs[n]| - 1], strs[n][|strs[n]| - 1];
    strs[p] == s && strs[n] == s + [b] && b in next[p] && next[p][b] == n
  }

  ghost predicate HasParent(next: seq<map<byte, nat>>, strs: seq<seq<byte>>, n: nat)
    requires n < |strs| == |next|
  {
    strs[n] != [] && exists p :: 0 <= p < |next| && IsParent(next, strs, p, n)
  }

  /** strs gives the string each node spells: the root spells nothing, each edge adds its byte, no two
      nodes spell the same, and every string's prefixes are spelled. */
  ghost predicate Trie(next: seq<map<byte, nat>>, strs: seq<seq<byte>>) {
    && 0 < |next| == |strs| && strs[0] == []
    && (forall n, b {:trigger next[n][b]} | 0 <= n < |next| && b in next[n] ::
          0 < next[n][b] < |next| && strs[next[n][b]] == strs[n] + [b])
    && (forall m, n | 0 <= m < n < |strs| :: strs[m] != strs[n])
    && (forall n | 0 < n < |strs| :: HasParent(next, strs, n))
  }

  /** fail[n] spells the longest proper suffix of what n spells that a node spells. */
  ghost predicate FailHolds(strs: seq<seq<byte>>, fail: seq<nat>, n: nat)
    requires n < |strs| == |fail|
  {
    && fail[n] < |strs| && IsProperSuffix(strs[fail[n]], strs[n])
    && forall m | 0 <= m < |strs| && IsProperSuffix(strs[m], strs[n]) :: |strs[m]| <= |strs[fail[n]]|
  }

  /** words[n] lists, once each, the words what n spells ends with. */
  ghost predicate WordsHold(strs: seq<seq<byte>>, words: seq<seq<nat>>, dict: seq<seq<byte>>, n: nat)
    requires n < |strs| == |words|
  {
    && Distinct(words[n])
    && forall i: nat :: i in words[n] <==> i < |dict| && IsSuffix(FoldAll(dict[i]), strs[n])
  }

  /** words[n] lists, once each, the words n spells. */
  ghost predicate OwnWords(strs: seq<seq<byte>>, words: seq<seq<nat>>, dict: seq<seq<byte>>, count: nat, n: nat)
    requires n < |strs| == |words| && count <= |dict|
  {
    && Distinct(words[n])
    && forall i: nat :: i in words[n] <==> i < count && FoldAll(dict[i]) == strs[n]
  }

  ghost predicate Spelled(strs: seq<seq<byte>>, s: seq<byte>) {
    exists n :: 0 <= n < |strs| && strs[n] == s
  }

  /** The automaton of dict, with strs the strings its nodes spell. */
  ghost predicate Built(a: Automaton, strs: seq<seq<byte>>, dict: seq<seq<byte>>) {
    && Trie(a.next, strs) && |a.fail| == |a.words| == |strs|
    && |a.sizes| == |dict| && (forall i | 0 <= i < |dict| :: a.sizes[i] == |dict[i]|)
    && (forall i | 0 <= i < |dict| :: Spelled(strs, FoldAll(dict[i])))
    && (forall n | 0 < n < |strs| :: FailHolds(strs, a.fail, n))
    && (forall n | 0 <= n < |strs| :: WordsHold(strs, a.words, dict, n))
  }

  /** The automaton finds the words of dict. */
  ghost predicate Recognizes(a: Automaton, dict: seq<seq<byte>>) {
    exists strs :: Built(a, strs, dict)
  }

  // ---------------------------------------------------------------- lemmas on suffixes and nodes

  lemma ShorterSuffix<T>(u: seq<T>, v: seq<T>, s: seq<T>)
    requires IsSuffix(u, s) && IsSuffix(v, s) && |u| <= |v|
    ensures IsSuffix(u, v) && (|u| == |v| ==> u == v)
  {
    assert v[|v| - |u|..] == s[|s| - |v|..][|v| - |u|..] == s[|s| - |u|..];
  }

  lemma SuffixTransitive<T>(u: seq<T>, v: seq<T>, s: seq<T>)
    requires IsSuffix(u, v) && IsSuffix(v, s)
    ensures IsSuffix(u, s)
  {
    assert s[|s| - |u|..] == s[|s| - |v|..][|v| - |u|..];
  }

  lemma SuffixOfSnoc<T>(u: seq<T>, s: seq<T>, x: T)
    requires IsSuffix(u, s + [x]) && u != []
    ensures u[|u| - 1] == x && IsSuffix(u[..|u| - 1], s) && u == u[..|u| - 1] + [x]
  {
    assert u == (s + [x])[|s| + 1 - |u|..];
    assert u[..|u| - 1] == s[|s| - (|u| - 1)..];
  }

  lemma SnocSuffix<T>(u: seq<T>, s: seq<T>, x: T)
    requires IsSuffix(u, s)
    ensures IsSuffix(u + [x], s + [x])
  {
    assert (s + [x])[|s| + 1 - (|u| + 1)..] == s[|s| - |u|..] + [x];
  }

  lemma EdgeSpells(next: seq<map<byte, nat>>, strs: seq<seq<byte>>, n: nat, b: byte)
    requires Trie(next, strs) && n < |strs|
    ensures b in next[n] <==> Spelled(strs, strs[n] + [b])
  {
    if Spelled(strs, strs[n] + [b]) {
      var c :| 0 <= c < |strs| && strs[c] == strs[n] + [b];
      assert c != 0 && HasParent(next, strs, c);
      var p :| 0 <= p < |next| && IsParent(next, strs, p, c);
      assert strs[p] == strs[n];
    }
  }

  /** The longest spelled string that ends s and has a b after it, when f spells the longest spelled
      suffix of s that can be and f itself has no edge b: it is no longer than f's failure. */
  ghost predicate Longest(strs: seq<seq<byte>>, s: seq<byte>, b: byte, f: nat, proper: bool)
    requires f < |strs|
  {
    && IsSuffix(strs[f], s) && (proper ==> |strs[f]| < |s|)
    && forall m | 0 <= m < |strs| && IsSuffix(strs[m], s) && (proper ==> |strs[m]| < |s|)
        && Spelled(strs, strs[m] + [b]) ::
         |strs[m]| <= |strs[f]|
  }

  lemma FallBack(next: seq<map<byte, nat>>, strs: seq<seq<byte>>, fail: seq<nat>, s: seq<byte>, b: byte, f: nat,
                 proper: bool)
    requires Trie(next, strs) && 0 < f < |strs| == |fail| && FailHolds(strs, fail, f)
    requires Longest(strs, s, b, f, proper) && b !in next[f]
    ensures Longest(strs, s, b, fail[f], proper) && |strs[fail[f]]| < |strs[f]|
  {
    SuffixTransitive(strs[fail[f]], strs[f], s);
    forall m | 0 <= m < |strs| && IsSuffix(strs[m], s) && (proper ==> |strs[m]| < |s|) && Spelled(strs, strs[m] + [b])
      ensures |strs[m]| <= |strs[fail[f]]|
    {
      EdgeSpells(next, strs, f, b);
      ShorterSuffix(strs[m], strs[f], s);
      assert m != f;
    }
  }

  /** Where the fallback stops is the longest spelled suffix of s + [b]. */
  lemma Advance(next: seq<map<byte, nat>>, strs: seq<seq<byte>>, s: seq<byte>, b: byte, f: nat, proper: bool, m: nat)
    requires Trie(next, strs) && f < |strs| && m < |strs|
    requires Longest(strs, s, b, f, proper) && (f == 0 || b in next[f])
    requires IsSuffix(strs[m], s + [b]) && (proper ==> |strs[m]| < |s| + 1)
    ensures |strs[m]| <= if b in next[f] then |strs[f]| + 1 else 0
  {
    if strs[m] != [] {
      SuffixOfSnoc(strs[m], s, b);
      assert HasParent(next, strs, m);
      var p :| 0 <= p < |next| && IsParent(next, strs, p, m);
      assert Spelled(strs, strs[p] + [b]);
      if b !in next[f] {
        assert false;
      }
    }
  }

  // ---------------------------------------------------------------- the search

  ghost predicate IsMatch(dict: seq<seq<byte>>, text: seq<byte>, bounded: bool, before: (seq<byte>, int) -> bool,
                          after: (seq<byte>, int) -> bool, m: Match) {
    && m.word < |dict| && m.end == m.start + |dict[m.word]| && OccursAt(dict[m.word], text, m.start)
    && (bounded ==> before(text, m.start) && after(text, m.end))
  }

  /** node spells the longest suffix of s that a node spells. */
  ghost predicate LongestSuffix(strs: seq<seq<byte>>, s: seq<byte>, node: nat)
    requires node < |strs|
  {
    IsSuffix(strs[node], s) && forall m | 0 <= m < |strs| && IsSuffix(strs[m], s) :: |strs[m]| <= |strs[node]|
  }

  lemma StepsTo(next: seq<map<byte, nat>>, strs: seq<seq<byte>>, s: seq<byte>, b: byte, f: nat)
    requires Trie(next, strs) && f < |strs|
    requires Longest(strs, s, b, f, false) && (f == 0 || b in next[f])
    ensures LongestSuffix(strs, s + [b], if b in next[f] then next[f][b] else 0)
    ensures b in next[f] ==> |strs[next[f][b]]| == |strs[f]| + 1
  {
    var node := if b in next[f] then next[f][b] else 0;
    if b in next[f] {
      SnocSuffix(strs[f], s, b);
    }
    forall m | 0 <= m < |strs| && IsSuffix(strs[m], s + [b]) ensures |strs[m]| <= |strs[node]| {
      Advance(next, strs, s, b, f, false, m);
    }
  }

  /** One byte of the search: failure links until an edge over b is found, then that edge. */
  method Step(a: Automaton, ghost strs: seq<seq<byte>>, ghost s: seq<byte>, b: byte, from: nat)
    returns (node: nat, ghost steps: nat)
    requires Trie(a.next, strs) && |a.fail| == |strs| && forall n | 0 < n < |strs| :: FailHolds(strs, a.fail, n)
    requires from < |strs| && LongestSuffix(strs, s, from)
    ensures node < |strs| && LongestSuffix(strs, s + [b], node)
    ensures |strs[node]| + steps <= |strs[from]| + 1
  {
    node, steps := from, 0;
    assert Longest(strs, s, b, node, false);
    while node != 0 && b !in a.next[node]
      invariant node < |strs| && Longest(strs, s, b, node, false)
      invariant |strs[node]| + steps <= |strs[from]|
      decreases |strs[node]|
    {
      FallBack(a.next, strs, a.fail, s, b, node, false);
      node := a.fail[node];
      steps := steps + 1;
    }
    StepsTo(a.next, strs, s, b, node);
    node := if b in a.next[node] then a.next[node][b] else 0;
  }

  predicate EndsAscend(found: seq<Match>) {
    forall i, j | 0 <= i < j < |found| :: found[i].end <= found[j].end
  }

  /** Adds the occurrences of words, which all end after byte i, to those found before. */
  method Report(a: Automaton, dict: seq<seq<byte>>, text: seq<byte>, i: nat, words: seq<nat>, bounded: bool,
                before: (seq<byte>, int) -> bool, after: (seq<byte>, int) -> bool, earlier: seq<Match>)
    returns (found: seq<Match>)
    requires i < |text| && |a.sizes| == |dict| && forall w | 0 <= w < |dict| :: a.sizes[w] == |dict[w]|
    requires Distinct(words)
    requires forall w: nat :: w in words <==> w < |dict| && OccursAt(dict[w], text, i + 1 - |dict[w]|)
    requires Distinct(earlier) && EndsAscend(earlier)
    requires forall m :: m in earlier <==> m.end <= i && IsMatch(dict, text, bounded, before, after, m)
    ensures forall m :: m in found <==> m.end <= i + 1 && IsMatch(dict, text, bounded, before, after, m)
    ensures Distinct(found) && EndsAscend(found)
  {
    found := earlier;
    for k := 0 to |words|
      invariant forall m :: m in found <==>
                  (m in earlier
                   || (m.end == i + 1 && m.word in words[..k] && IsMatch(dict, text, bounded, before, after, m)))
      invariant Distinct(found) && EndsAscend(found)
    {
      var w := words[k];
      assert w in words;
      assert words[..k + 1] == words[..k] + [w];
      var start := i + 1 - a.sizes[w];
      if !bounded || (before(text, start) && after(text, i + 1)) {
        found := found + [Match(start, i + 1, w)];
      }
    }
    assert words[..|words|] == words;
  }

  /** The words listed at the node reached are exactly those that occur in the text ending there. */
  lemma OutputsAre(dict: seq<seq<byte>>, strs: seq<seq<byte>>, words: seq<seq<nat>>, text: seq<byte>, i: nat, node: nat)
    requires i < |text| && node < |strs| == |words|
    requires LongestSuffix(strs, FoldAll(text)[..i + 1], node)
    requires forall w | 0 <= w < |dict| :: Spelled(strs, FoldAll(dict[w]))
    requires WordsHold(strs, words, dict, node)
    ensures forall w: nat :: w in words[node] <==> w < |dict| && OccursAt(dict[w], text, i + 1 - |dict[w]|)
  {
    var s := FoldAll(text)[..i + 1];
    forall w: nat | w < |dict| ensures w in words[node] <==> OccursAt(dict[w], text, i + 1 - |dict[w]|) {
      var u := FoldAll(dict[w]);
      var start := i + 1 - |dict[w]|;
      if w in words[node] {
        SuffixTransitive(u, strs[node], s);
      }
      if start >= 0 {
        assert FoldAll(text[start..i + 1]) == s[start..];
        assert IsSuffix(u, s) <==> OccursAt(dict[w], text, start);
      }
      if IsSuffix(u, s) {
        var n :| 0 <= n < |strs| && strs[n] == u;
        ShorterSuffix(u, strs[node], s);
      }
    }
  }

  /** Where the words of the automaton occur in text. With bounded, only occurrences the boundary tests admit.
      steps counts the failure links followed. */
  method Find(a: Automaton, dict: seq<seq<byte>>, text: seq<byte>, bounded: bool,
              before: (seq<byte>, int) -> bool, after: (seq<byte>, int) -> bool)
    returns (found: seq<Match>, ghost steps: nat)
    requires Recognizes(a, dict) && forall w | 0 <= w < |dict| :: dict[w] != []
    ensures forall m :: m in found <==> IsMatch(dict, text, bounded, before, after, m)
    ensures Distinct(found) && EndsAscend(found)
    ensures steps <= |text|
  {
    ghost var strs :| Built(a, strs, dict);
    ghost var folded := FoldAll(text);
    found, steps := [], 0;
    var node: nat := 0;
    for i := 0 to |text|
      invariant node < |strs| && LongestSuffix(strs, folded[..i], node)
      invariant |strs[node]| + steps <= i
      invariant forall m :: m in found <==> m.end <= i && IsMatch(dict, text, bounded, before, after, m)
      invariant Distinct(found) && EndsAscend(found)
    {
      var b := Fold(text[i]);
      assert folded[..i + 1] == folded[..i] + [b];
      ghost var taken;
      node, taken := Step(a, strs, folded[..i], b, node);
      steps := steps + taken;
      OutputsAre(dict, strs, a.words, text, i, node);
      found := Report(a, dict, text, i, a.words[node], bounded, before, after, found);
    }
    assert folded[..|text|] == folded;
  }
}
