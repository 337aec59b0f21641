/** Tokens, digit runs and the trigger window (core/scan/detect.go). */
module Tokens {
  import opened Bytes
  import opened Utf8

  datatype Segment = Segment(start: nat, end: nat)

  type WordRune = int -> bool

  predicate BoundaryBefore(isWord: WordRune, text: seq<byte>, i: int) {
    i <= 0 || i > |text| || !isWord(DecodeLastRune(text[..i]).value)
  }

  predicate BoundaryAfter(isWord: WordRune, text: seq<byte>, i: int) {
    i < 0 || i >= |text| || !isWord(DecodeRune(text[i..]).value)
  }

  // ---------------------------------------------------------------- tokens

  ghost predicate InWord(isWord: WordRune, text: seq<byte>, i: nat) {
    i < |text| && Boundary(text, i) && isWord(DecodeRune(text[i..]).value)
  }

  predicate Holds(t: Segment, i: int) { t.start <= i < t.end }

  predicate Apart(tokens: seq<Segment>) {
    forall j, k | 0 <= j < k < |tokens| :: tokens[j].end < tokens[k].start
  }

  ghost predicate Whole(text: seq<byte>, tokens: seq<Segment>) {
    forall k | 0 <= k < |tokens| ::
      tokens[k].start < tokens[k].end <= |text| && Boundary(text, tokens[k].start) && Boundary(text, tokens[k].end)
  }

  /** The offsets characters start at, and those word characters start at. */
  ghost function CharStarts(text: seq<byte>): set<int> {
    set i | 0 <= i < |text| && Boundary(text, i)
  }

  ghost function WordStarts(isWord: WordRune, text: seq<byte>): set<int> {
    set i | 0 <= i < |text| && InWord(isWord, text, i)
  }

  ghost predicate HeldBy(tokens: seq<Segment>, i: int) {
    exists k :: 0 <= k < |tokens| && Holds(tokens[k], i)
  }

  ghost predicate Covers(chars: set<int>, words: set<int>, tokens: seq<Segment>, i: nat) {
    forall j <- chars | i <= j :: j in words <==> HeldBy(tokens, j)
  }

  /** tokens are the maximal runs of word characters: they are apart, and hold exactly the characters
      that are word characters. */
  ghost predicate AreTokens(isWord: WordRune, text: seq<byte>, tokens: seq<Segment>) {
    && Apart(tokens) && Whole(text, tokens)
    && Covers(CharStarts(text), WordStarts(isWord, text), tokens, 0)
  }

  /** The tokens from character i on, where the token open since start, if any, runs up to i. */
  function TokensFrom(isWord: WordRune, text: seq<byte>, i: nat, start: int): seq<Segment>
    requires start <= i
    decreases |text| - i
  {
    if i >= |text| then (if start >= 0 then [Segment(start, i)] else [])
    else
      var r := DecodeRune(text[i..]);
      if isWord(r.value) then TokensFrom(isWord, text, i + r.size, if start < 0 then i else start)
      else (if start >= 0 then [Segment(start, i)] else []) + TokensFrom(isWord, text, i + r.size, -1)
  }

  predicate StartAt(tokens: seq<Segment>, i: int) {
    forall k | 0 <= k < |tokens| :: i <= tokens[k].start
  }

  /** The tokens from character i on, with one open since start, if any. */
  ghost predicate AreTokensFrom(isWord: WordRune, text: seq<byte>, i: nat, start: int, tokens: seq<Segment>) {
    && Apart(tokens) && Whole(text, tokens) && Covers(CharStarts(text), WordStarts(isWord, text), tokens, i)
    && StartAt(tokens, if start >= 0 then start else i)
    && (start >= 0 ==> tokens != [] && tokens[0].start == start && tokens[0].end >= i)
  }

  /** No character starts inside another. */
  lemma {:induction false} NoBoundaryInside(text: seq<byte>, i: nat)
    requires Boundary(text, i) && i < |text|
    ensures forall j | i < j < i + DecodeRune(text[i..]).size :: !Boundary(text, j)
    decreases |text|
  {
    if i == 0 {
      assert text[0..] == text;
    } else {
      var n := DecodeRune(text).size;
      DropDrop(text, n, i);
      NoBoundaryInside(text[n..], i - n);
      forall j | i < j < i + DecodeRune(text[i..]).size ensures !Boundary(text, j) {
        assert !Boundary(text[n..], j - n);
      }
    }
  }

  lemma NextCharacter(isWord: WordRune, text: seq<byte>, i: nat)
    requires i < |text| && Boundary(text, i)
    ensures Boundary(text, i + DecodeRune(text[i..]).size) && i + DecodeRune(text[i..]).size <= |text|
    ensures i in CharStarts(text) && (i in WordStarts(isWord, text) <==> isWord(DecodeRune(text[i..]).value))
    ensures forall j | i < j < i + DecodeRune(text[i..]).size :: j !in CharStarts(text)
  {
    NextBoundary(text, i);
    NoBoundaryInside(text, i);
  }

  lemma WholeAppend(text: seq<byte>, first: seq<Segment>, rest: seq<Segment>)
    requires Whole(text, first) && Whole(text, rest)
    ensures Whole(text, first + rest)
  {
  }

  lemma HeldByEither(first: seq<Segment>, rest: seq<Segment>, j: int)
    ensures HeldBy(first + rest, j) <==> HeldBy(first, j) || HeldBy(rest, j)
  {
    var tokens := first + rest;
    if HeldBy(first, j) {
      var k :| 0 <= k < |first| && Holds(first[k], j);
      assert tokens[k] == first[k];
    }
    if HeldBy(rest, j) {
      var k :| 0 <= k < |rest| && Holds(rest[k], j);
      assert tokens[|first| + k] == rest[k];
    }
    if HeldBy(tokens, j) {
      var k :| 0 <= k < |tokens| && Holds(tokens[k], j);
      assert k >= |first| ==> tokens[k] == rest[k - |first|];
    }
  }

  /** A character that is no word character closes the open token. */
  lemma ClosedToken(chars: set<int>, words: set<int>, i: nat, start: int, next: nat, rest: seq<Segment>)
    requires -1 <= start && (start < i || start == -1)
    requires i < next && i !in words && (forall j | i < j < next :: j !in chars)
    requires Apart(rest) && Covers(chars, words, rest, next) && StartAt(rest, next)
    ensures var tokens := (if start >= 0 then [Segment(start, i)] else []) + rest;
            Apart(tokens) && Covers(chars, words, tokens, i) && StartAt(tokens, if start >= 0 then start else i)
  {
    var first := if start >= 0 then [Segment(start, i)] else [];
    var tokens := first + rest;
    forall j <- chars | i <= j ensures j in words <==> HeldBy(tokens, j) {
      HeldByEither(first, rest, j);
      assert j < next ==> j == i;
    }
  }

  lemma ClosedTokens(isWord: WordRune, text: seq<byte>, i: nat, start: int, next: nat, rest: seq<Segment>)
    requires -1 <= start && (start < i || start == -1) && i < next && i <= |text|
    requires Boundary(text, i) && (start >= 0 ==> Boundary(text, start))
    requires i !in WordStarts(isWord, text) && forall j | i < j < next :: j !in CharStarts(text)
    requires AreTokensFrom(isWord, text, next, -1, rest)
    ensures AreTokensFrom(isWord, text, i, start, (if start >= 0 then [Segment(start, i)] else []) + rest)
  {
    ClosedToken(CharStarts(text), WordStarts(isWord, text), i, start, next, rest);
    WholeAppend(text, if start >= 0 then [Segment(start, i)] else [], rest);
  }

  /** A word character stays in the open token. */
  lemma OpenToken(chars: set<int>, words: set<int>, i: nat, next: nat, tokens: seq<Segment>)
    requires i < next && i in words && (forall j | i < j < next :: j !in chars)
    requires Covers(chars, words, tokens, next) && tokens != [] && tokens[0].start <= i && tokens[0].end >= next
    ensures Covers(chars, words, tokens, i)
  {
    forall j <- chars | i <= j ensures j in words <==> HeldBy(tokens, j) {
      if j < next {
        assert j == i && Holds(tokens[0], i);
      }
    }
  }

  lemma OpenTokens(isWord: WordRune, text: seq<byte>, i: nat, start: int, next: nat, tokens: seq<Segment>)
    requires -1 <= start && (start < i || start == -1) && i < next
    requires i in WordStarts(isWord, text) && forall j | i < j < next :: j !in CharStarts(text)
    requires AreTokensFrom(isWord, text, next, if start < 0 then i else start, tokens)
    ensures AreTokensFrom(isWord, text, i, start, tokens)
  {
    hide Whole, Apart, Covers;
    OpenToken(CharStarts(text), WordStarts(isWord, text), i, next, tokens);
  }

  lemma EndTokens(isWord: WordRune, text: seq<byte>, start: int)
    requires -1 <= start < |text| || (start == -1 && text == [])
    requires Boundary(text, |text|) && (start >= 0 ==> Boundary(text, start))
    ensures AreTokensFrom(isWord, text, |text|, start, if start >= 0 then [Segment(start, |text|)] else [])
  {
  }

  lemma {:induction false} TokensFromAre(isWord: WordRune, text: seq<byte>, i: nat, start: int)
    requires -1 <= start < i || (start == -1 && i == 0)
    requires i <= |text| && Boundary(text, i) && (start >= 0 ==> Boundary(text, start))
    ensures AreTokensFrom(isWord, text, i, start, TokensFrom(isWord, text, i, start))
    decreases |text| - i
  {
    hide DecodeRune, AreTokensFrom, Boundary;
    if i == |text| {
      EndTokens(isWord, text, start);
    } else {
      var next := i + DecodeRune(text[i..]).size;
      NextCharacter(isWord, text, i);
      if i in WordStarts(isWord, text) {
        var from := if start < 0 then i else start;
        TokensFromAre(isWord, text, next, from);
        OpenTokens(isWord, text, i, start, next, TokensFrom(isWord, text, next, from));
      } else {
        TokensFromAre(isWord, text, next, -1);
        ClosedTokens(isWord, text, i, start, next, TokensFrom(isWord, text, next, -1));
      }
    }
  }

  method Tokenize(isWord: WordRune, text: seq<byte>) returns (tokens: seq<Segment>)
    ensures tokens == TokensFrom(isWord, text, 0, -1)
    ensures AreTokens(isWord, text, tokens)
  {
    hide DecodeRune;
    tokens := [];
    var i: nat := 0;
    var start: int := -1;
    while i < |text|
      invariant start <= i <= |text|
      invariant tokens + TokensFrom(isWord, text, i, start) == TokensFrom(isWord, text, 0, -1)
    {
      var r := DecodeRune(text[i..]);
      if isWord(r.value) {
        if start < 0 {
          start := i;
        }
      } else if start >= 0 {
        tokens := tokens + [Segment(start, i)];
        start := -1;
      }
      i := i + r.size;
    }
    if start >= 0 {
      tokens := tokens + [Segment(start, |text|)];
    }
    TokensFromAre(isWord, text, 0, -1);
  }

  /** How many tokens end at or before offset, which is where its own token, or the one to come, stands. */
  function TokenIndex(tokens: seq<Segment>, offset: int): (k: nat)
    ensures k <= |tokens|
  {
    if tokens == [] || tokens[0].end > offset then 0 else 1 + TokenIndex(tokens[1..], offset)
  }

  lemma {:induction false} TokenIndexIs(tokens: seq<Segment>, offset: int, k: nat)
    requires k <= |tokens|
    requires forall j | 0 <= j < k :: tokens[j].end <= offset
    requires k < |tokens| ==> tokens[k].end > offset
    ensures TokenIndex(tokens, offset) == k
  {
    if k == 0 {
    } else {
      TokenIndexIs(tokens[1..], offset, k - 1);
    }
  }

  /** An offset inside a token has that token's index. */
  lemma TokenIndexHolds(tokens: seq<Segment>, k: nat, offset: int)
    requires Apart(tokens) && k < |tokens| && Holds(tokens[k], offset)
    ensures TokenIndex(tokens, offset) == k
  {
    TokenIndexIs(tokens, offset, k);
  }

  method TokenAt(tokens: seq<Segment>, offset: int) returns (k: nat)
    requires Apart(tokens) && forall j | 0 <= j < |tokens| :: tokens[j].start < tokens[j].end
    ensures k == TokenIndex(tokens, offset)
  {
    var lo, hi := 0, |tokens|;
    while lo < hi
      invariant 0 <= lo <= hi <= |tokens|
      invariant forall j | 0 <= j < lo :: tokens[j].end <= offset
      invariant hi < |tokens| ==> tokens[hi].end > offset
    {
      var mid := (lo + hi) / 2;
      if tokens[mid].end > offset {
        hi := mid;
      } else {
        forall j | 0 <= j < mid + 1 ensures tokens[j].end <= offset {
          assert j < mid ==> tokens[j].end < tokens[mid].start;
        }
        lo := mid + 1;
      }
    }
    TokenIndexIs(tokens, offset, lo);
    k := lo;
  }

  // ---------------------------------------------------------------- the window

  predicate Ascending(s: seq<int>) {
    forall i, j | 0 <= i < j < |s| :: s[i] <= s[j]
  }

  lemma Inserted<T>(r: seq<T>, k: nat, x: T)
    requires k <= |r|
    ensures multiset(r[..k] + [x] + r[k..]) == multiset(r) + multiset{x}
  {
    assert r == r[..k] + r[k..];
  }

  method Insert(s: seq<int>, x: int) returns (r: seq<int>)
    requires Ascending(s)
    ensures Ascending(r) && multiset(r) == multiset(s) + multiset{x}
  {
    var k := 0;
    while k < |s| && s[k] <= x
      invariant 0 <= k <= |s| && forall j | 0 <= j < k :: s[j] <= x
    {
      k := k + 1;
    }
    Inserted(s, k, x);
    r := s[..k] + [x] + s[k..];
  }

  method Sort(s: seq<int>) returns (r: seq<int>)
    ensures Ascending(r) && multiset(r) == multiset(s)
  {
    r := [];
    for i := 0 to |s|
      invariant Ascending(r) && multiset(r) == multiset(s[..i])
    {
      r := Insert(r, s[i]);
      assert s[..i + 1] == s[..i] + [s[i]];
    }
    assert s[..|s|] == s;
  }

  /** Whether a trigger other than in token itself lies within window tokens of it. */
  predicate NearTrigger(triggers: seq<int>, token: int, window: int) {
    exists t <- triggers :: t != token && token - window <= t <= token + window
  }

  method Near(triggers: seq<int>, token: int, window: int) returns (near: bool)
    requires Ascending(triggers)
    ensures near == NearTrigger(triggers, token, window)
  {
    var lo, hi := 0, |triggers|;
    while lo < hi
      invariant 0 <= lo <= hi <= |triggers|
      invariant forall j | 0 <= j < lo :: triggers[j] < token - window
      invariant forall j | hi <= j < |triggers| :: triggers[j] >= token - window
    {
      var mid := (lo + hi) / 2;
      if triggers[mid] >= token - window {
        hi := mid;
      } else {
        lo := mid + 1;
      }
    }
    var i := lo;
    while i < |triggers| && triggers[i] <= token + window
      invariant lo <= i <= |triggers|
      invariant forall j | lo <= j < i :: triggers[j] == token
    {
      if triggers[i] != token {
        assert triggers[i] in triggers;
        return true;
      }
      i := i + 1;
    }
    return false;
  }

  // ---------------------------------------------------------------- digit runs

  predicate IsDigit(b: byte) { '0' as int <= b <= '9' as int }

  predicate StartsWith(text: seq<byte>, i: nat, s: seq<byte>) {
    i + |s| <= |text| && text[i..i + |s|] == s
  }

  /** How long the group separator at i is, or 0: space, hyphen, or one of no-break space, narrow no-break
      or thin space. */
  function SeparatorAt(text: seq<byte>, i: nat): (n: nat)
    ensures n > 0 ==> i + n <= |text|
  {
    if StartsWith(text, i, [0x20]) then 1
    else if StartsWith(text, i, [0x2D]) then 1
    else if StartsWith(text, i, [0xC2, 0xA0]) then 2
    else if StartsWith(text, i, [0xE2, 0x80, 0xAF]) then 3
    else if StartsWith(text, i, [0xE2, 0x80, 0x89]) then 3
    else 0
  }

  lemma SeparatorIsNoDigit(text: seq<byte>, i: nat)
    ensures forall k | i <= k < i + SeparatorAt(text, i) :: !IsDigit(text[k])
  {
    var n := SeparatorAt(text, i);
    forall k | i <= k < i + n ensures !IsDigit(text[k]) {
      assert text[k] == text[i..i + n][k - i];
    }
  }

  /** Whether a group of digits of length group, ending at i, is joined to another after a separator. */
  predicate Joins(text: seq<byte>, i: nat, group: nat) {
    var n := SeparatorAt(text, i);
    n > 0 && group >= 3 && i + n + 3 <= |text| && IsDigit(text[i + n]) && IsDigit(text[i + n + 1])
        && IsDigit(text[i + n + 2])
  }

  /** Where the grouped digits from end on end, with how many digits were read. */
  function ParseRun(text: seq<byte>, end: nat, digits: nat, group: nat): (r: (nat, nat))
    requires end <= |text|
    ensures end <= r.0 <= |text|
    decreases |text| - end
  {
    if end < |text| && IsDigit(text[end]) then ParseRun(text, end + 1, digits + 1, group + 1)
    else if Joins(text, end, group) then ParseRun(text, end + SeparatorAt(text, end), digits, 0)
    else (end, digits)
  }

  predicate StartsRun(isWord: WordRune, text: seq<byte>, i: nat) {
    i < |text| && IsDigit(text[i]) && BoundaryBefore(isWord, text, i)
  }

  predicate StandsAlone(isWord: WordRune, text: seq<byte>, i: nat)
    requires i <= |text|
  {
    var (end, digits) := ParseRun(text, i, 0, 0);
    4 <= digits <= 8 && BoundaryAfter(isWord, text, end)
  }

  function RunsFrom(isWord: WordRune, text: seq<byte>, i: nat): seq<Segment>
    decreases |text| - i
  {
    if i >= |text| then []
    else if !StartsRun(isWord, text, i) then RunsFrom(isWord, text, i + 1)
    else
      var end := ParseRun(text, i, 0, 0).0;
      (if StandsAlone(isWord, text, i) then [Segment(i, end)] else []) + RunsFrom(isWord, text, end + 1)
  }

  method ParseDigits(text: seq<byte>, i: nat) returns (end: nat, digits: nat)
    requires i <= |text|
    ensures (end, digits) == ParseRun(text, i, 0, 0)
  {
    var group: nat := 0;
    end, digits := i, 0;
    while end < |text|
      invariant end <= |text| && ParseRun(text, end, digits, group) == ParseRun(text, i, 0, 0)
      decreases |text| - end
    {
      if IsDigit(text[end]) {
        digits, group, end := digits + 1, group + 1, end + 1;
        continue;
      }
      if !Joins(text, end, group) {
        return;
      }
      group, end := 0, end + SeparatorAt(text, end);
    }
  }

  method DigitRuns(isWord: WordRune, text: seq<byte>) returns (runs: seq<Segment>)
    ensures runs == RunsFrom(isWord, text, 0)
  {
    runs := [];
    var i: nat := 0;
    while i < |text|
      invariant runs + RunsFrom(isWord, text, i) == RunsFrom(isWord, text, 0)
    {
      if !IsDigit(text[i]) || !BoundaryBefore(isWord, text, i) {
        i := i + 1;
        continue;
      }
      var end, digits := ParseDigits(text, i);
      if digits >= 4 && digits <= 8 && BoundaryAfter(isWord, text, end) {
        runs := runs + [Segment(i, end)];
      }
      i := end + 1;
    }
  }

  function CountDigits(s: seq<byte>): nat {
    if s == [] then 0 else (if IsDigit(s[|s| - 1]) then 1 else 0) + CountDigits(s[..|s| - 1])
  }

  lemma {:induction false} NoDigitsCount(text: seq<byte>, start: nat, i: nat, j: nat)
    requires start <= i <= j <= |text| && forall k | i <= k < j :: !IsDigit(text[k])
    ensures CountDigits(text[start..j]) == CountDigits(text[start..i])
    decreases j
  {
    if i >= j {
    } else {
      NoDigitsCount(text, start, i, j - 1);
      assert text[start..j] == text[start..j - 1] + [text[j - 1]];
    }
  }

  lemma DigitCounts(text: seq<byte>, start: nat, end: nat)
    requires start <= end < |text| && IsDigit(text[end])
    ensures CountDigits(text[start..end + 1]) == CountDigits(text[start..end]) + 1
  {
    assert text[start..end + 1] == text[start..end] + [text[end]];
  }

  /** A parsed run ends after a digit and before none, and digits counts the digits it holds. */
  lemma {:induction false} ParseCounts(text: seq<byte>, start: nat, end: nat, digits: nat, group: nat)
    requires start < end <= |text| && digits == CountDigits(text[start..end])
    requires IsDigit(text[end - 1]) || (end < |text| && IsDigit(text[end]))
    ensures var (e, d) := ParseRun(text, end, digits, group);
            e >= end && IsDigit(text[e - 1]) && d == CountDigits(text[start..e]) && !(e < |text| && IsDigit(text[e]))
    decreases |text| - end
  {
    hide SeparatorAt, CountDigits, IsDigit;
    if end < |text| && IsDigit(text[end]) {
      DigitCounts(text, start, end);
      ParseCounts(text, start, end + 1, digits + 1, group + 1);
    } else if Joins(text, end, group) {
      var next := end + SeparatorAt(text, end);
      SeparatorIsNoDigit(text, end);
      NoDigitsCount(text, start, end, next);
      ParseCounts(text, start, next, digits, 0);
    }
  }

  /** What a digit run is: 4 to 8 digits, a digit at either end, and a word boundary on both sides. */
  predicate IsRun(isWord: WordRune, text: seq<byte>, r: Segment) {
    && r.start < r.end <= |text| && IsDigit(text[r.start]) && IsDigit(text[r.end - 1])
    && 4 <= CountDigits(text[r.start..r.end]) <= 8
    && BoundaryBefore(isWord, text, r.start) && BoundaryAfter(isWord, text, r.end)
  }

  lemma AloneIsRun(isWord: WordRune, text: seq<byte>, i: nat)
    requires StartsRun(isWord, text, i)
    ensures i < ParseRun(text, i, 0, 0).0
    ensures StandsAlone(isWord, text, i) ==> IsRun(isWord, text, Segment(i, ParseRun(text, i, 0, 0).0))
  {
    assert text[i..i + 1] == [text[i]];
    assert CountDigits([text[i]]) == 1;
    ParseCounts(text, i, i + 1, 1, 1);
  }

  ghost predicate AreRuns(isWord: WordRune, text: seq<byte>, i: nat, runs: seq<Segment>) {
    Apart(runs) && StartAt(runs, i) && forall k | 0 <= k < |runs| :: IsRun(isWord, text, runs[k])
  }

  lemma NoRuns(isWord: WordRune, text: seq<byte>, i: nat)
    ensures AreRuns(isWord, text, i, [])
  {
  }

  lemma RunsFromEarlier(isWord: WordRune, text: seq<byte>, i: nat, earlier: nat, runs: seq<Segment>)
    requires earlier <= i && AreRuns(isWord, text, i, runs)
    ensures AreRuns(isWord, text, earlier, runs)
  {
    hide IsRun;
  }

  lemma RunBefore(isWord: WordRune, text: seq<byte>, r: Segment, rest: seq<Segment>)
    requires IsRun(isWord, text, r) && AreRuns(isWord, text, r.end + 1, rest)
    ensures AreRuns(isWord, text, r.start, [r] + rest)
  {
    assert r.start < r.end;
    hide IsRun;
  }

  /** The digit runs come out ascending and apart, each a run. */
  lemma {:induction false} RunsAreRuns(isWord: WordRune, text: seq<byte>, i: nat)
    ensures AreRuns(isWord, text, i, RunsFrom(isWord, text, i))
    decreases |text| - i
  {
    hide DecodeRune, ParseRun, StartsRun, StandsAlone, IsRun, AreRuns;
    if i >= |text| {
      NoRuns(isWord, text, i);
    } else if StartsRun(isWord, text, i) {
      var end := ParseRun(text, i, 0, 0).0;
      var rest := RunsFrom(isWord, text, end + 1);
      AloneIsRun(isWord, text, i);
      RunsAreRuns(isWord, text, end + 1);
      if StandsAlone(isWord, text, i) {
        RunBefore(isWord, text, Segment(i, end), rest);
      } else {
        RunsFromEarlier(isWord, text, end + 1, i, rest);
        assert [] + rest == rest;
      }
    } else {
      RunsAreRuns(isWord, text, i + 1);
      RunsFromEarlier(isWord, text, i + 1, i, RunsFrom(isWord, text, i + 1));
    }
  }
}
