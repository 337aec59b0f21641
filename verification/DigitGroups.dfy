/** What one run of digits is, said over its groups alone, and that the digit runs found are exactly
    those (core/scan/detect.go). */
module DigitGroups {
  import opened Bytes
  import opened Utf8
  import opened Tokens

  /** Space, hyphen, no-break space, narrow no-break space and thin space. */
  predicate IsSeparator(s: seq<byte>) {
    s == [0x20] || s == [0x2D] || s == [0xC2, 0xA0] || s == [0xE2, 0x80, 0xAF] || s == [0xE2, 0x80, 0x89]
  }

  lemma SeparatorsAreCharacters(s: seq<byte>)
    ensures IsSeparator(s) <==> exists c <- [0x20, 0x2D, 0xA0, 0x202F, 0x2009] :: s == Encode(c)
  {
    var cs := [0x20, 0x2D, 0xA0, 0x202F, 0x2009];
    assert Encode(0xA0) == [0xC2, 0xA0] && Encode(0x202F) == [0xE2, 0x80, 0xAF] && Encode(0x2009) == [0xE2, 0x80, 0x89];
    assert cs[0] in cs && cs[1] in cs && cs[2] in cs && cs[3] in cs && cs[4] in cs;
  }

  predicate IsGroup(text: seq<byte>, g: Segment) {
    g.start < g.end <= |text| && forall k | g.start <= k < g.end :: IsDigit(text[k])
  }

  /** Groups of digits, each after exactly one separator and then of at least 3 digits each. */
  predicate Groups(text: seq<byte>, gs: seq<Segment>) {
    && gs != []
    && (forall j | 0 <= j < |gs| :: IsGroup(text, gs[j]))
    && (|gs| > 1 ==> forall j | 0 <= j < |gs| :: gs[j].end - gs[j].start >= 3)
    && (forall j | 0 <= j < |gs| - 1 ::
          gs[j].end <= gs[j + 1].start && IsSeparator(text[gs[j].end..gs[j + 1].start]))
  }

  predicate Spans(gs: seq<Segment>, s: nat, e: nat)
    requires gs != []
  {
    gs[0].start == s && gs[|gs| - 1].end == e
  }

  ghost predicate Grouped(text: seq<byte>, s: nat, e: nat) {
    exists gs: seq<Segment> :: Groups(text, gs) && Spans(gs, s, e)
  }

  /** Grouped digits that no further digit or group extends. */
  ghost predicate LongestGrouped(text: seq<byte>, s: nat, e: nat) {
    Grouped(text, s, e) && forall e': nat | e' > e :: !Grouped(text, s, e')
  }

  // ---------------------------------------------------------------- parsing reads the groups

  lemma SeparatorIsAt(text: seq<byte>, i: nat, j: nat)
    requires i <= j <= |text| && IsSeparator(text[i..j])
    ensures SeparatorAt(text, i) == j - i > 0 && !IsDigit(text[i])
  {
    assert text[i] == text[i..j][0];
    var n := j - i;
    assert n > 1 ==> text[i + 1] == text[i..j][1];
    assert n > 2 ==> text[i + 2] == text[i..j][2];
  }

  lemma AtSeparator(text: seq<byte>, i: nat)
    requires i <= |text| && SeparatorAt(text, i) > 0
    ensures IsSeparator(text[i..i + SeparatorAt(text, i)])
  {
  }

  /** How many digits were read before changes nothing of where a run ends. */
  lemma {:induction false} EndsAlike(text: seq<byte>, end: nat, digits: nat, digits': nat, group: nat)
    requires end <= |text|
    ensures ParseRun(text, end, digits, group).0 == ParseRun(text, end, digits', group).0
    decreases |text| - end
  {
    hide SeparatorAt;
    if end < |text| && IsDigit(text[end]) {
      EndsAlike(text, end + 1, digits + 1, digits' + 1, group + 1);
    } else if Joins(text, end, group) {
      EndsAlike(text, end + SeparatorAt(text, end), digits, digits', 0);
    }
  }

  function EndFrom(text: seq<byte>, end: nat, group: nat): (e: nat)
    requires end <= |text|
    ensures end <= e <= |text|
  {
    ParseRun(text, end, 0, group).0
  }

  lemma EndStep(text: seq<byte>, end: nat, group: nat)
    requires end <= |text|
    ensures end < |text| && IsDigit(text[end]) ==> EndFrom(text, end, group) == EndFrom(text, end + 1, group + 1)
    ensures !(end < |text| && IsDigit(text[end])) && Joins(text, end, group) ==>
              EndFrom(text, end, group) == EndFrom(text, end + SeparatorAt(text, end), 0)
    ensures !(end < |text| && IsDigit(text[end])) && !Joins(text, end, group) ==> EndFrom(text, end, group) == end
  {
    if end < |text| && IsDigit(text[end]) {
      EndsAlike(text, end + 1, 0, 1, group + 1);
    }
  }

  lemma {:induction false} ThroughDigits(text: seq<byte>, end: nat, to: nat, group: nat)
    requires end <= to <= |text| && forall k | end <= k < to :: IsDigit(text[k])
    ensures EndFrom(text, end, group) == EndFrom(text, to, group + (to - end))
    decreases |text| - end
  {
    EndStep(text, end, group);
    hide EndFrom, Joins;
    if end < to {
      ThroughDigits(text, end + 1, to, group + 1);
    }
  }

  /** Parsing that starts at some groups comes to each of them with nothing of it read. */
  lemma {:induction false} ComesToGroup(text: seq<byte>, gs: seq<Segment>, j: nat)
    requires Groups(text, gs) && j < |gs|
    ensures EndFrom(text, gs[0].start, 0) == EndFrom(text, gs[j].start, 0)
    decreases j
  {
    if j == 0 {
    } else {
      ComesToGroup(text, gs, j - 1);
      var g, h := gs[j - 1], gs[j];
      assert IsGroup(text, g) && IsGroup(text, h);
      assert IsSeparator(text[g.end..gs[j - 1 + 1].start]);
      ThroughDigits(text, g.start, g.end, 0);
      SeparatorIsAt(text, g.end, h.start);
      assert Joins(text, g.end, g.end - g.start);
      EndStep(text, g.end, g.end - g.start);
    }
  }

  lemma GroupedIsReached(text: seq<byte>, s: nat, e: nat)
    requires Grouped(text, s, e)
    ensures s < |text| && IsDigit(text[s]) && e <= EndFrom(text, s, 0)
  {
    var gs: seq<Segment> :| Groups(text, gs) && Spans(gs, s, e);
    var n := |gs| - 1;
    assert IsGroup(text, gs[0]) && IsGroup(text, gs[n]);
    ComesToGroup(text, gs, n);
    ThroughDigits(text, gs[n].start, e, 0);
  }

  /** The groups read before, the digits of the one being read, and where that leaves the run's end. */
  ghost predicate Reading(text: seq<byte>, gs: seq<Segment>, start: nat, end: nat) {
    && start < end <= |text| && (forall k | start <= k < end :: IsDigit(text[k]))
    && (gs != [] ==>
          && Groups(text, gs) && gs[|gs| - 1].end <= start && IsSeparator(text[gs[|gs| - 1].end..start])
          && (forall j | 0 <= j < |gs| :: gs[j].end - gs[j].start >= 3)
          && start + 3 <= |text| && (forall k | start <= k < start + 3 :: IsDigit(text[k])))
  }

  /** The digits read so far are a group after those before. */
  lemma ReadIsGroup(text: seq<byte>, gs: seq<Segment>, start: nat, end: nat)
    requires Reading(text, gs, start, end) && (gs != [] ==> end - start >= 3)
    ensures var all := gs + [Segment(start, end)];
            && Groups(text, all)
            && Spans(all, if gs == [] then start else gs[0].start, end)
            && (end - start >= 3 ==> forall j | 0 <= j < |all| :: all[j].end - all[j].start >= 3)
  {
    hide IsSeparator, IsDigit;
    var all := gs + [Segment(start, end)];
    forall j | 0 <= j < |all| ensures IsGroup(text, all[j]) {
      assert j < |gs| ==> all[j] == gs[j];
    }
    forall j | 0 <= j < |all| - 1
      ensures all[j].end <= all[j + 1].start && IsSeparator(text[all[j].end..all[j + 1].start])
    {
      assert all[j] == gs[j];
      if j + 1 < |gs| {
        assert all[j + 1] == gs[j + 1];
      }
    }
  }

  lemma ReadingGoesOn(text: seq<byte>, gs: seq<Segment>, start: nat, end: nat)
    requires Reading(text, gs, start, end) && Joins(text, end, end - start)
    ensures var next := end + SeparatorAt(text, end);
            next < |text| && IsDigit(text[next]) && Reading(text, gs + [Segment(start, end)], next, next + 1)
  {
    ReadIsGroup(text, gs, start, end);
    AtSeparator(text, end);
    hide SeparatorAt, IsSeparator, Groups;
    var next := end + SeparatorAt(text, end);
  }

  /** Parsing ends where the groups it reads do. */
  lemma {:induction false} ParseReadsGroups(text: seq<byte>, gs: seq<Segment>, start: nat, end: nat)
    returns (all: seq<Segment>)
    requires Reading(text, gs, start, end)
    ensures Groups(text, all)
    ensures Spans(all, if gs == [] then start else gs[0].start, EndFrom(text, end, end - start))
    decreases |text| - end
  {
    EndStep(text, end, end - start);
    if end < |text| && IsDigit(text[end]) {
      all := ParseReadsGroups(text, gs, start, end + 1);
    } else {
      hide SeparatorAt, IsSeparator, IsDigit, EndFrom;
      if Joins(text, end, end - start) {
        ReadingGoesOn(text, gs, start, end);
        var next := end + SeparatorAt(text, end);
        EndStep(text, next, 0);
        all := ParseReadsGroups(text, gs + [Segment(start, end)], next, next + 1);
      } else {
        ReadIsGroup(text, gs, start, end);
        all := gs + [Segment(start, end)];
      }
    }
  }

  /** Where the digits read from a start end is where the longest groups from there do. */
  lemma ParseIsLongest(text: seq<byte>, s: nat)
    requires s < |text| && IsDigit(text[s])
    ensures LongestGrouped(text, s, EndFrom(text, s, 0))
  {
    EndStep(text, s, 0);
    var gs := ParseReadsGroups(text, [], s, s + 1);
    var e := EndFrom(text, s, 0);
    assert Groups(text, gs) && Spans(gs, s, e);
    forall e': nat | e' > e ensures !Grouped(text, s, e') {
      if Grouped(text, s, e') {
        GroupedIsReached(text, s, e');
      }
    }
  }

  lemma LongestIsParse(text: seq<byte>, s: nat, e: nat)
    requires LongestGrouped(text, s, e)
    ensures s < |text| && IsDigit(text[s]) && e == EndFrom(text, s, 0)
  {
    GroupedIsReached(text, s, e);
    ParseIsLongest(text, s);
  }

  // ---------------------------------------------------------------- what is returned

  ghost function DigitsOf(text: seq<byte>, s: nat, e: nat): set<int> {
    set k | s <= k < e && k < |text| && IsDigit(text[k])
  }

  lemma {:induction false} CountIsOfDigits(text: seq<byte>, s: nat, e: nat)
    requires s <= e <= |text|
    ensures CountDigits(text[s..e]) == |DigitsOf(text, s, e)|
    decreases e
  {
    if e <= s {
      assert DigitsOf(text, s, e) == {};
    } else {
      CountIsOfDigits(text, s, e - 1);
      assert text[s..e][..e - s - 1] == text[s..e - 1];
      if IsDigit(text[e - 1]) {
        assert DigitsOf(text, s, e) == DigitsOf(text, s, e - 1) + {e - 1};
      } else {
        assert DigitsOf(text, s, e) == DigitsOf(text, s, e - 1);
      }
    }
  }

  /** Grouped digits nothing extends, 4 to 8 of them, standing alone between word boundaries. */
  ghost predicate StandingRun(isWord: WordRune, text: seq<byte>, s: nat, e: nat) {
    && LongestGrouped(text, s, e) && 4 <= |DigitsOf(text, s, e)| <= 8
    && BoundaryBefore(isWord, text, s) && BoundaryAfter(isWord, text, e)
  }

  /** Digits grouped from an earlier start on a word boundary reach over s. */
  ghost predicate ReachedOver(isWord: WordRune, text: seq<byte>, i: nat, s: nat) {
    exists k: nat, e: nat :: i <= k < s <= e && BoundaryBefore(isWord, text, k) && Grouped(text, k, e)
  }

  lemma StandingExactly(isWord: WordRune, text: seq<byte>, s: nat, e: nat)
    ensures StandingRun(isWord, text, s, e)
            <==> StartsRun(isWord, text, s) && StandsAlone(isWord, text, s) && e == ParseRun(text, s, 0, 0).0
  {
    if LongestGrouped(text, s, e) {
      LongestIsParse(text, s, e);
    }
    if s < |text| && IsDigit(text[s]) {
      ParseIsLongest(text, s);
      var end := ParseRun(text, s, 0, 0).0;
      assert text[s..s + 1] == [text[s]];
      assert CountDigits([text[s]]) == 1;
      ParseCounts(text, s, s + 1, 1, 1);
      CountIsOfDigits(text, s, end);
    }
  }

  /** Every standing run is returned that no digits grouped from an earlier start reach over. */
  lemma {:induction false} StandingRunsAreFound(isWord: WordRune, text: seq<byte>, i: nat, s: nat, e: nat)
    requires i <= s && StandingRun(isWord, text, s, e) && !ReachedOver(isWord, text, i, s)
    ensures Segment(s, e) in RunsFrom(isWord, text, i)
    decreases |text| - i
  {
    hide ParseRun, LongestGrouped, Grouped, BoundaryBefore, BoundaryAfter;
    StandingExactly(isWord, text, s, e);
    if i < s {
      if StartsRun(isWord, text, i) {
        ParseIsLongest(text, i);
        LongestIsGrouped(text, i, EndFrom(text, i, 0));
        assert EndFrom(text, i, 0) < s;
        StandingRunsAreFound(isWord, text, EndFrom(text, i, 0) + 1, s, e);
      } else {
        StandingRunsAreFound(isWord, text, i + 1, s, e);
      }
    }
  }

  lemma LongestIsGrouped(text: seq<byte>, s: nat, e: nat)
    requires LongestGrouped(text, s, e)
    ensures Grouped(text, s, e)
  {
  }

  predicate DigitsAreWords(isWord: WordRune) {
    forall d: byte | IsDigit(d) :: isWord(d)
  }

  lemma NoStartAfterDigit(isWord: WordRune, text: seq<byte>, k: nat)
    requires DigitsAreWords(isWord) && StartsRun(isWord, text, k)
    ensures k > 0 ==> !IsDigit(text[k - 1])
  {
    assert k > 0 ==> text[..k][k - 1] == text[k - 1];
  }

  lemma SeparatorHoldsNoDigit(text: seq<byte>, i: nat, j: nat)
    requires i <= j <= |text| && IsSeparator(text[i..j])
    ensures forall k | i <= k < j :: !IsDigit(text[k])
  {
    forall k | i <= k < j ensures !IsDigit(text[k]) {
      assert text[k] == text[i..j][k - i];
    }
  }

  /** A start within the digits grouped from another is a later group's, so both reach as far. */
  lemma StartsReachAlike(isWord: WordRune, text: seq<byte>, s: nat, k: nat)
    requires DigitsAreWords(isWord) && StartsRun(isWord, text, s) && StartsRun(isWord, text, k)
    requires s <= k < EndFrom(text, s, 0)
    ensures EndFrom(text, k, 0) == EndFrom(text, s, 0)
  {
    EndStep(text, s, 0);
    var gs := ParseReadsGroups(text, [], s, s + 1);
    var j := HeldInGroup(text, gs, k);
    NoStartAfterDigit(isWord, text, k);
    assert IsGroup(text, gs[j]);
    ComesToGroup(text, gs, j);
  }

  lemma HeldInGroup(text: seq<byte>, gs: seq<Segment>, k: nat) returns (j: nat)
    requires Groups(text, gs) && gs[0].start <= k < gs[|gs| - 1].end <= |text| && IsDigit(text[k])
    ensures j < |gs| && Holds(gs[j], k)
  {
    j := 0;
    while gs[j].end <= k
      invariant j < |gs| && gs[j].start <= k
      decreases |gs| - j
    {
      assert IsGroup(text, gs[j + 1]);
      SeparatorHoldsNoDigit(text, gs[j].end, gs[j + 1].start);
      j := j + 1;
    }
  }

  lemma NoRunStartsAtEnd(isWord: WordRune, text: seq<byte>, s: nat)
    requires StartsRun(isWord, text, s)
    ensures !StartsRun(isWord, text, EndFrom(text, s, 0))
  {
    assert text[s..s + 1] == [text[s]];
    assert CountDigits([text[s]]) == 1;
    ParseCounts(text, s, s + 1, 1, 1);
  }

  lemma {:induction false} FoundIsStanding(isWord: WordRune, text: seq<byte>, i: nat, r: Segment)
    requires DigitsAreWords(isWord) && r in RunsFrom(isWord, text, i)
    ensures i <= r.start && StandingRun(isWord, text, r.start, r.end)
    ensures forall k: nat | i <= k < r.start && StartsRun(isWord, text, k) :: EndFrom(text, k, 0) < r.start
    decreases |text| - i
  {
    hide ParseRun, BoundaryBefore, BoundaryAfter, StandingRun;
    if StartsRun(isWord, text, i) {
      var end := EndFrom(text, i, 0);
      StandingExactly(isWord, text, i, end);
      if r == Segment(i, end) && StandsAlone(isWord, text, i) {
      } else {
        FoundIsStanding(isWord, text, end + 1, r);
        forall k: nat | i <= k < r.start && StartsRun(isWord, text, k) ensures EndFrom(text, k, 0) < r.start {
          NoRunStartsAtEnd(isWord, text, i);
          if k < end {
            StartsReachAlike(isWord, text, i, k);
          }
        }
      }
    } else {
      FoundIsStanding(isWord, text, i + 1, r);
    }
  }

  /** The runs found are exactly the standing runs that no digits grouped from an earlier start reach
      over, since a digit is a word character. RunsAreRuns says they ascend, so each comes once. */
  lemma FoundExactly(isWord: WordRune, text: seq<byte>, s: nat, e: nat)
    requires DigitsAreWords(isWord)
    ensures Segment(s, e) in RunsFrom(isWord, text, 0)
            <==> StandingRun(isWord, text, s, e) && !ReachedOver(isWord, text, 0, s)
  {
    hide ParseRun, BoundaryBefore, BoundaryAfter, StandingRun, Grouped;
    if Segment(s, e) in RunsFrom(isWord, text, 0) {
      FoundIsStanding(isWord, text, 0, Segment(s, e));
      if ReachedOver(isWord, text, 0, s) {
        var k: nat, e': nat :| 0 <= k < s <= e' && BoundaryBefore(isWord, text, k) && Grouped(text, k, e');
        GroupedIsReached(text, k, e');
        assert false;
      }
    } else if StandingRun(isWord, text, s, e) && !ReachedOver(isWord, text, 0, s) {
      StandingRunsAreFound(isWord, text, 0, s, e);
    }
  }
}
