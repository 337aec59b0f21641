/** Detection: tier 1's structural rules, then tier 2 over the tokens tier 1 and the URLs left
    (core/scan/detect.go). */
module Detect {
  import opened Wrappers
  import opened Bytes
  import opened Utf8
  import opened Tokens
  import AhoCorasick

  datatype Flag = OneTimeCode | LoginLink

  datatype Span = Span(start: nat, end: nat, rule: string, tier: nat, flag: Flag)

  const TRIGGER_WINDOW := "mfa.trigger_window"
  const OWN_LINE := "mfa.own_line"
  const HEADING_OR_CELL := "mfa.heading_or_cell"
  const SCORE := "mfa.score"

  /** What detection takes from libraries and from the scoring arithmetic: the letters and digits of any
      script, whether a line is a table row once its leading white space is trimmed, the URLs of a text,
      the login-link rules a URL breaks, and whether a token scores at or above the threshold. */
  datatype Library = Library(
    isWord: WordRune,
    tableRow: seq<byte> -> bool,
    urls: seq<byte> -> seq<Segment>,
    linkRules: seq<byte> -> seq<string>,
    scores: (seq<byte>, Segment, bool) -> bool)

  predicate IsLetter(b: byte) { 'a' as int <= b <= 'z' as int || 'A' as int <= b <= 'Z' as int }

  /** The contracts they are read under: digits are word characters, a URL found lies in the text on character
      boundaries, URLs do not overlap, and a link breaks a rule once. */
  ghost predicate Keeps(lib: Library, text: seq<byte>) {
    && (forall d: byte | IsDigit(d) :: lib.isWord(d))
    && (forall u <- lib.urls(text) ::
          u.start < u.end <= |text| && IsLetter(text[u.start])
          && (Valid(text) ==> Boundary(text, u.start) && Boundary(text, u.end)))
    && (forall i, j | 0 <= i < j < |lib.urls(text)| :: lib.urls(text)[i].end <= lib.urls(text)[j].start)
    && (forall link: seq<byte> :: Distinct(lib.linkRules(link)))
  }

  datatype Config = Config(window: int, patterns: bool)

  /** A span in bounds, on character boundaries of a valid text. */
  ghost predicate WellPlaced(text: seq<byte>, sp: Span) {
    sp.start < sp.end <= |text| && (Valid(text) ==> Boundary(text, sp.start) && Boundary(text, sp.end))
  }

  ghost predicate AllPlaced(text: seq<byte>, spans: seq<Span>) {
    forall sp <- spans :: WellPlaced(text, sp)
  }

  /** Each span starts after the one before, so none comes twice. */
  predicate Rising(spans: seq<Span>) {
    forall i, j | 0 <= i < j < |spans| :: spans[i].start < spans[j].start
  }

  // ---------------------------------------------------------------- the trigger window

  predicate TriggerAt(isWord: WordRune, dict: seq<seq<byte>>, text: seq<byte>, w: nat, start: int) {
    w < |dict| && AhoCorasick.OccursAt(dict[w], text, start)
    && BoundaryBefore(isWord, text, start) && BoundaryAfter(isWord, text, start + |dict[w]|)
  }

  /** A trigger word occurs, on word boundaries, starting in another token at most window tokens away. */
  ghost predicate Fires(isWord: WordRune, dict: seq<seq<byte>>, text: seq<byte>, window: int, run: Segment) {
    var tokens := TokensFrom(isWord, text, 0, -1);
    exists w: nat, start: int :: TriggerAt(isWord, dict, text, w, start)
      && TokenIndex(tokens, start) != TokenIndex(tokens, run.start)
      && -window <= TokenIndex(tokens, start) - TokenIndex(tokens, run.start) <= window
  }

  /** The sorted indexes of the tokens triggers start in. */
  ghost predicate AreTriggers(isWord: WordRune, dict: seq<seq<byte>>, text: seq<byte>, tokens: seq<Segment>,
                              triggers: seq<int>) {
    Ascending(triggers)
    && forall t :: t in triggers
        <==> exists w: nat, start: int :: TriggerAt(isWord, dict, text, w, start) && t == TokenIndex(tokens, start)
  }

  lemma SortedTriggers(isWord: WordRune, dict: seq<seq<byte>>, text: seq<byte>, tokens: seq<Segment>,
                       found: seq<AhoCorasick.Match>,
                       indexes: seq<int>, triggers: seq<int>, before: (seq<byte>, int) -> bool, after: (seq<byte>,
                                                                                                        int) -> bool)
    requires forall t, i :: before(t, i) == BoundaryBefore(isWord, t, i) && after(t, i) == BoundaryAfter(isWord, t, i)
    requires forall m :: m in found <==> AhoCorasick.IsMatch(dict, text, true, before, after, m)
    requires |indexes| == |found| && forall k | 0 <= k < |found| :: indexes[k] == TokenIndex(tokens, found[k].start)
    requires Ascending(triggers) && multiset(triggers) == multiset(indexes)
    ensures AreTriggers(isWord, dict, text, tokens, triggers)
  {
    hide BoundaryBefore, BoundaryAfter, TokenIndex;
    forall t: int ensures t in triggers
        <==> exists w: nat, start: int :: TriggerAt(isWord, dict, text, w, start) && t == TokenIndex(tokens, start) {
      assert t in triggers <==> t in multiset(indexes);
      if t in indexes {
        var k :| 0 <= k < |indexes| && indexes[k] == t;
        assert found[k] in found;
        assert TriggerAt(isWord, dict, text, found[k].word, found[k].start);
      }
      if exists w: nat, start: int :: TriggerAt(isWord, dict, text, w, start) && t == TokenIndex(tokens, start) {
        var w: nat, start: int :| TriggerAt(isWord, dict, text, w, start) && t == TokenIndex(tokens, start);
        var m := AhoCorasick.Match(start, start + |dict[w]|, w);
        assert m in found;
        var k :| 0 <= k < |found| && found[k] == m;
        assert indexes[k] == t;
      }
    }
  }

  method TriggerTokens(isWord: WordRune, dict: seq<seq<byte>>, a: AhoCorasick.Automaton, text: seq<byte>,
                       tokens: seq<Segment>)
    returns (triggers: seq<int>)
    requires AhoCorasick.Recognizes(a, dict) && forall w | 0 <= w < |dict| :: dict[w] != []
    requires AreTokens(isWord, text, tokens)
    ensures AreTriggers(isWord, dict, text, tokens, triggers)
  {
    var before := (t: seq<byte>, i: int) => BoundaryBefore(isWord, t, i);
    var after := (t: seq<byte>, i: int) => BoundaryAfter(isWord, t, i);
    ghost var steps;
    var found;
    found, steps := AhoCorasick.Find(a, dict, text, true, before, after);
    var indexes: seq<int> := [];
    for i := 0 to |found|
      invariant |indexes| == i && forall k | 0 <= k < i :: indexes[k] == TokenIndex(tokens, found[k].start)
    {
      var k := TokenAt(tokens, found[i].start);
      indexes := indexes + [k];
    }
    triggers := Sort(indexes);
    SortedTriggers(isWord, dict, text, tokens, found, indexes, triggers, before, after);
  }

  lemma NearIsFires(isWord: WordRune, dict: seq<seq<byte>>, text: seq<byte>, tokens: seq<Segment>, triggers: seq<int>,
                    window: int, r: Segment)
    requires tokens == TokensFrom(isWord, text, 0, -1) && AreTriggers(isWord, dict, text, tokens, triggers)
    ensures NearTrigger(triggers, TokenIndex(tokens, r.start), window) == Fires(isWord, dict, text, window, r)
  {
    hide TokensFrom, TriggerAt, TokenIndex;
    var token := TokenIndex(tokens, r.start);
    if NearTrigger(triggers, token, window) {
      var t :| t in triggers && t != token && token - window <= t <= token + window;
      var w: nat, start: int :| TriggerAt(isWord, dict, text, w, start) && t == TokenIndex(tokens, start);
    }
    if Fires(isWord, dict, text, window, r) {
      var w: nat, start: int :| TriggerAt(isWord, dict, text, w, start) && TokenIndex(tokens, start) != token
                                && -window <= TokenIndex(tokens, start) - token <= window;
      assert TokenIndex(tokens, start) in triggers;
    }
  }

  lemma DigitsArePlaced(text: seq<byte>, sp: Span)
    requires sp.start < sp.end <= |text| && IsDigit(text[sp.start]) && IsDigit(text[sp.end - 1])
    ensures WellPlaced(text, sp)
  {
    if Valid(text) {
      AsciiIsCharacter(text, sp.start);
      AsciiIsCharacter(text, sp.end - 1);
    }
  }

  /** The digit runs a trigger is near, in order. */
  method TriggerSpans(isWord: WordRune, dict: seq<seq<byte>>, text: seq<byte>, tokens: seq<Segment>, triggers: seq<int>,
                      window: int)
    returns (spans: seq<Span>)
    requires forall d: byte | IsDigit(d) :: isWord(d)
    requires tokens == TokensFrom(isWord, text, 0, -1) && AreTokens(isWord, text, tokens)
    requires AreTriggers(isWord, dict, text, tokens, triggers)
    ensures AllPlaced(text, spans) && Rising(spans)
    ensures forall sp :: sp in spans <==>
              Segment(sp.start, sp.end) in RunsFrom(isWord, text, 0)
                  && Fires(isWord, dict, text, window, Segment(sp.start, sp.end))
              && sp == Span(sp.start, sp.end, TRIGGER_WINDOW, 1, OneTimeCode)
  {
    hide TokensFrom, BoundaryBefore, BoundaryAfter, RunsFrom, TokenIndex;
    var runs := DigitRuns(isWord, text);
    RunsAreRuns(isWord, text, 0);
    spans := [];
    for i := 0 to |runs|
      invariant AllPlaced(text, spans) && Rising(spans)
      invariant forall sp <- spans, j | i <= j < |runs| :: sp.start < runs[j].start
      invariant forall sp :: sp in spans <==>
                  Segment(sp.start, sp.end) in runs[..i] && Fires(isWord, dict, text, window, Segment(sp.start, sp.end))
                  && sp == Span(sp.start, sp.end, TRIGGER_WINDOW, 1, OneTimeCode)
    {
      var r := runs[i];
      var k := TokenAt(tokens, r.start);
      var near := Near(triggers, k, window);
      NearIsFires(isWord, dict, text, tokens, triggers, window, r);
      assert runs[..i + 1] == runs[..i] + [r];
      if near {
        DigitsArePlaced(text, Span(r.start, r.end, TRIGGER_WINDOW, 1, OneTimeCode));
        spans := spans + [Span(r.start, r.end, TRIGGER_WINDOW, 1, OneTimeCode)];
      }
    }
    assert runs[..|runs|] == runs;
  }

  // ---------------------------------------------------------------- lines

  function LinesFrom(text: seq<byte>, start: nat, i: nat): seq<Segment>
    requires start <= i <= |text|
    decreases |text| - i
  {
    if i < |text| && text[i] != 0x0A then LinesFrom(text, start, i + 1)
    else
      var end := if i > start && text[i - 1] == 0x0D then i - 1 else i;
      [Segment(start, end)] + if i < |text| then LinesFrom(text, i + 1, i + 1) else []
  }

  lemma LineGoesOn(text: seq<byte>, start: nat, i: nat)
    requires start <= i < |text| && text[i] != 0x0A
    ensures LinesFrom(text, start, i) == LinesFrom(text, start, i + 1)
  {
  }

  lemma LineEnds(text: seq<byte>, start: nat, i: nat, lines: seq<Segment>)
    requires start <= i <= |text| && (i < |text| ==> text[i] == 0x0A)
    ensures var end := if i > start && text[i - 1] == 0x0D then i - 1 else i;
            lines + LinesFrom(text, start, i)
            == (lines + [Segment(start, end)]) + if i < |text| then LinesFrom(text, i + 1, i + 1) else []
  {
  }

  method Lines(text: seq<byte>) returns (lines: seq<Segment>)
    ensures lines == LinesFrom(text, 0, 0)
    ensures forall k | 0 <= k < |lines| :: lines[k].start <= lines[k].end <= |text|
  {
    hide LinesFrom;
    lines := [];
    var start, i: nat := 0, 0;
    ghost var more := true;
    while i <= |text|
      invariant start <= i <= |text| + 1 && (more <==> i <= |text|)
      invariant forall k | 0 <= k < |lines| :: lines[k].start <= lines[k].end <= |text|
      invariant more ==> LinesFrom(text, 0, 0) == lines + LinesFrom(text, start, i)
      invariant !more ==> LinesFrom(text, 0, 0) == lines
      decreases |text| + 1 - i
    {
      if i < |text| && text[i] != 0x0A {
        LineGoesOn(text, start, i);
        i := i + 1;
        continue;
      }
      LineEnds(text, start, i, lines);
      var end := if i > start && text[i - 1] == 0x0D then i - 1 else i;
      lines := lines + [Segment(start, end)];
      more := i < |text|;
      start, i := i + 1, i + 1;
    }
  }

  /** Lines from start on, each ending before the next starts. */
  predicate LinesApart(lines: seq<Segment>, start: nat) {
    && (forall k | 0 <= k < |lines| :: start <= lines[k].start <= lines[k].end)
    && forall j, k | 0 <= j < k < |lines| :: lines[j].end < lines[k].start
  }

  lemma LineBefore(first: Segment, rest: seq<Segment>, next: nat)
    requires first.start <= first.end < next && LinesApart(rest, next)
    ensures LinesApart([first] + rest, first.start)
  {
  }

  lemma LastLine(line: Segment)
    requires line.start <= line.end
    ensures LinesApart([line] + [], line.start)
  {
  }

  lemma {:induction false} LinesRise(text: seq<byte>, start: nat, i: nat)
    requires start <= i <= |text|
    ensures LinesApart(LinesFrom(text, start, i), start)
    decreases |text| - i
  {
    hide LinesApart;
    if i < |text| && text[i] != 0x0A {
      LinesRise(text, start, i + 1);
    } else {
      var first := Segment(start, if i > start && text[i - 1] == 0x0D then i - 1 else i);
      if i < |text| {
        LinesRise(text, i + 1, i + 1);
        LineBefore(first, LinesFrom(text, i + 1, i + 1), i + 1);
      } else {
        LastLine(first);
      }
    }
  }

  function TrimLeft(s: seq<byte>, cut: set<byte>): seq<byte> {
    if s != [] && s[0] in cut then TrimLeft(s[1..], cut) else s
  }

  function TrimRight(s: seq<byte>, cut: set<byte>): (r: seq<byte>)
    ensures r <= s && (|r| < |s| ==> s[|r|] in cut)
  {
    if s != [] && s[|s| - 1] in cut then TrimRight(s[..|s| - 1], cut) else s
  }

  function Trim(s: seq<byte>, cut: set<byte>): seq<byte> { TrimRight(TrimLeft(s, cut), cut) }

  const LINE_MARKS: set<byte> := {0x20, 0x09, 0x2A, 0x5F, 0x60, 0x3E}
  const CELL_MARKS: set<byte> := {0x20, 0x09, 0x2A, 0x5F, 0x60}
  const SENTENCE_MARKS: set<byte> := {0x2E, 0x2C, 0x3B, 0x3A, 0x21, 0x3F}

  /** A first- or second-level Markdown heading. */
  predicate Heading(line: seq<byte>) {
    var t := TrimLeft(line, {0x20});
    StartsWith(t, 0, [0x23, 0x20]) || StartsWith(t, 0, [0x23, 0x23, 0x20])
  }

  predicate IsPipe(lib: Library, line: seq<byte>, i: int) {
    0 <= i < |line| && line[i] == 0x7C && lib.tableRow(line)
  }

  /** Between two neighbouring pipes of a table row there is the run and nothing else, marks trimmed. */
  predicate Cell(lib: Library, line: seq<byte>, r: Segment) {
    exists p, q :: 0 <= p < r.start <= r.end <= q < |line| && IsPipe(lib, line, p) && IsPipe(lib, line, q)
      && (forall k | p < k < q :: !IsPipe(lib, line, k))
      && Trim(line[p + 1..q], CELL_MARKS) == line[r.start..r.end]
  }

  /** The rule a run of a line fires, if any. */
  function LineRule(lib: Library, line: seq<byte>, r: Segment): string
    requires r.start <= r.end <= |line|
  {
    if Trim(line, LINE_MARKS) == line[r.start..r.end] then OWN_LINE
    else if Heading(line) || Cell(lib, line, r) then HEADING_OR_CELL
    else ""
  }

  /** The pipes of a table row, ascending. */
  predicate ArePipes(lib: Library, line: seq<byte>, pipes: seq<int>) {
    && (forall i | 0 <= i < |pipes| :: IsPipe(lib, line, pipes[i]))
    && (forall i, j | 0 <= i < j < |pipes| :: pipes[i] < pipes[j])
    && (forall p | 0 <= p < |line| && IsPipe(lib, line, p) :: p in pipes)
  }

  method Pipes(lib: Library, line: seq<byte>) returns (pipes: seq<int>)
    ensures ArePipes(lib, line, pipes)
  {
    pipes := [];
    if lib.tableRow(line) {
      for j := 0 to |line|
        invariant forall i | 0 <= i < |pipes| :: pipes[i] < j && IsPipe(lib, line, pipes[i])
        invariant forall i, k | 0 <= i < k < |pipes| :: pipes[i] < pipes[k]
        invariant forall p | 0 <= p < j && IsPipe(lib, line, p) :: p in pipes
      {
        if line[j] == 0x7C {
          pipes := pipes + [j];
        }
      }
    }
  }

  lemma PipeHasIndex(lib: Library, line: seq<byte>, pipes: seq<int>, k: int)
    requires ArePipes(lib, line, pipes) && IsPipe(lib, line, k)
    ensures exists i :: 0 <= i < |pipes| && pipes[i] == k
  {
    assert k in pipes;
  }

  lemma NoPipeBetween(lib: Library, line: seq<byte>, pipes: seq<int>, at: nat)
    requires ArePipes(lib, line, pipes) && 0 < at < |pipes|
    ensures 0 <= pipes[at - 1] < pipes[at] < |line|
    ensures forall k | pipes[at - 1] < k < pipes[at] :: !IsPipe(lib, line, k)
  {
    assert IsPipe(lib, line, pipes[at - 1]) && IsPipe(lib, line, pipes[at]);
    forall k | pipes[at - 1] < k < pipes[at] ensures !IsPipe(lib, line, k) {
      if IsPipe(lib, line, k) {
        PipeHasIndex(lib, line, pipes, k);
      }
    }
  }

  lemma PipesBetween(lib: Library, line: seq<byte>, pipes: seq<int>, i: nat, k: nat, j: nat)
    requires ArePipes(lib, line, pipes) && i < k < j < |pipes|
    ensures IsPipe(lib, line, pipes[k]) && pipes[i] < pipes[k] < pipes[j]
  {
  }

  /** The cell a run lies in is between the last pipe before its end and the first at or after. */
  lemma CellIsAround(lib: Library, line: seq<byte>, pipes: seq<int>, r: Segment, at: nat)
    requires r.start < r.end <= |line| && at <= |pipes| && ArePipes(lib, line, pipes)
    requires (forall j | 0 <= j < at :: pipes[j] < r.end) && (forall j | at <= j < |pipes| :: pipes[j] >= r.end)
    requires Cell(lib, line, r)
    ensures 0 < at < |pipes| && 0 <= pipes[at - 1] < r.start && pipes[at] < |line|
    ensures Trim(line[pipes[at - 1] + 1..pipes[at]], CELL_MARKS) == line[r.start..r.end]
  {
    hide Trim, IsPipe, ArePipes;
    var p, q :| 0 <= p < r.start <= r.end <= q < |line| && IsPipe(lib, line, p) && IsPipe(lib, line, q)
      && (forall k | p < k < q :: !IsPipe(lib, line, k))
      && Trim(line[p + 1..q], CELL_MARKS) == line[r.start..r.end];
    PipeHasIndex(lib, line, pipes, p);
    PipeHasIndex(lib, line, pipes, q);
    var i :| 0 <= i < |pipes| && pipes[i] == p;
    var j :| 0 <= j < |pipes| && pipes[j] == q;
    assert i < at <= j;
    if i + 1 < j {
      PipesBetween(lib, line, pipes, i, i + 1, j);
    }
  }

  method InCell(lib: Library, line: seq<byte>, pipes: seq<int>, r: Segment) returns (whole: bool)
    requires r.start < r.end <= |line| && ArePipes(lib, line, pipes)
    ensures whole == Cell(lib, line, r)
  {
    hide Trim;
    var lo, hi := 0, |pipes|;
    while lo < hi
      invariant 0 <= lo <= hi <= |pipes|
      invariant forall j | 0 <= j < lo :: pipes[j] < r.end
      invariant forall j | hi <= j < |pipes| :: pipes[j] >= r.end
    {
      var mid := (lo + hi) / 2;
      if pipes[mid] >= r.end {
        hi := mid;
      } else {
        lo := mid + 1;
      }
    }
    if Cell(lib, line, r) {
      CellIsAround(lib, line, pipes, r, lo);
    }
    if lo == 0 || lo == |pipes| || pipes[lo - 1] >= r.start {
      return false;
    }
    NoPipeBetween(lib, line, pipes, lo);
    assert IsPipe(lib, line, pipes[lo - 1]) && IsPipe(lib, line, pipes[lo]);
    return Trim(line[pipes[lo - 1] + 1..pipes[lo]], CELL_MARKS) == line[r.start..r.end];
  }

  // ---------------------------------------------------------------- the spans of a text

  ghost predicate FiresInLine(lib: Library, text: seq<byte>, ln: Segment, sp: Span) {
    && ln.start <= sp.start < sp.end <= ln.end <= |text|
    && var (line, r) := (text[ln.start..ln.end], Segment(sp.start - ln.start, sp.end - ln.start));
       && r in RunsFrom(lib.isWord, line, 0)
       && LineRule(lib, line, r) != "" && sp == Span(sp.start, sp.end, LineRule(lib, line, r), 1, OneTimeCode)
  }

  /** What the line rules fire on. */
  ghost predicate LineFires(lib: Library, text: seq<byte>, sp: Span) {
    exists ln <- LinesFrom(text, 0, 0) :: FiresInLine(lib, text, ln, sp)
  }

  lemma RisingJoins(first: seq<Span>, rest: seq<Span>, at: nat)
    requires Rising(first) && Rising(rest)
    requires (forall sp <- first :: sp.start < at) && forall sp <- rest :: at <= sp.start
    ensures Rising(first + rest)
  {
  }

  method RuleOf(lib: Library, line: seq<byte>, pipes: seq<int>, r: Segment) returns (rule: string)
    requires r.start < r.end <= |line| && ArePipes(lib, line, pipes)
    ensures rule == LineRule(lib, line, r)
  {
    var cell := InCell(lib, line, pipes, r);
    rule := if Trim(line, LINE_MARKS) == line[r.start..r.end] then OWN_LINE
            else if Heading(line) || cell then HEADING_OR_CELL
            else "";
  }

  function SpanOf(lib: Library, line: seq<byte>, ln: Segment, r: Segment): Span {
    Span(ln.start + r.start, ln.start + r.end, if r.start < r.end <= |line| then LineRule(lib, line, r) else "", 1,
         OneTimeCode)
  }

  /** The spans of a line's digit runs that a rule of the line fires on, in order. */
  function Fired(lib: Library, line: seq<byte>, ln: Segment, runs: seq<Segment>): seq<Span> {
    if runs == [] then []
    else
      var before, sp := Fired(lib, line, ln, runs[..|runs| - 1]), SpanOf(lib, line, ln, runs[|runs| - 1]);
      if sp.rule != "" then before + [sp] else before
  }

  lemma NoneFired(lib: Library, line: seq<byte>, ln: Segment)
    ensures Fired(lib, line, ln, []) == []
  {
  }

  lemma OneMoreFired(lib: Library, line: seq<byte>, ln: Segment, runs: seq<Segment>, i: nat)
    requires i < |runs|
    ensures var sp := SpanOf(lib, line, ln, runs[i]);
            Fired(lib, line, ln, runs[..i + 1])
            == if sp.rule != "" then Fired(lib, line, ln, runs[..i]) + [sp] else Fired(lib, line, ln, runs[..i])
  {
    hide LineRule;
    assert runs[..i + 1][..i] == runs[..i];
  }

  lemma {:induction false} FiredExactly(lib: Library, line: seq<byte>, ln: Segment, runs: seq<Segment>, sp: Span)
    ensures sp in Fired(lib, line, ln, runs) <==> exists r <- runs :: sp == SpanOf(lib, line, ln, r) && sp.rule != ""
  {
    hide LineRule;
    if runs == [] {
    } else {
      FiredExactly(lib, line, ln, runs[..|runs| - 1], sp);
      assert runs == runs[..|runs| - 1] + [runs[|runs| - 1]];
      assert forall r :: r in runs <==> r in runs[..|runs| - 1] || r == runs[|runs| - 1];
    }
  }

  lemma RunsRise(isWord: WordRune, line: seq<byte>, runs: seq<Segment>)
    requires AreRuns(isWord, line, 0, runs)
    ensures forall i, j | 0 <= i < j < |runs| :: runs[i].start < runs[j].start
  {
    assert forall k | 0 <= k < |runs| :: IsRun(isWord, line, runs[k]);
  }

  lemma {:induction false} FiredRises(lib: Library, line: seq<byte>, ln: Segment, runs: seq<Segment>)
    requires forall i, j | 0 <= i < j < |runs| :: runs[i].start < runs[j].start
    ensures Rising(Fired(lib, line, ln, runs))
    ensures forall sp <- Fired(lib, line, ln, runs) :: runs != [] && sp.start <= ln.start + runs[|runs| - 1].start
  {
    hide LineRule;
    if runs == [] {
    } else {
      FiredRises(lib, line, ln, runs[..|runs| - 1]);
    }
  }

  lemma RunInLine(lib: Library, text: seq<byte>, ln: Segment, r: Segment)
    requires ln.start <= ln.end <= |text| && IsRun(lib.isWord, text[ln.start..ln.end], r)
    ensures r.start < r.end <= ln.end - ln.start
    ensures IsDigit(text[ln.start + r.start]) && IsDigit(text[ln.start + r.end - 1])
  {
  }

  lemma FiresOnRun(lib: Library, text: seq<byte>, ln: Segment, runs: seq<Segment>, sp: Span)
    requires ln.start <= ln.end <= |text| && runs == RunsFrom(lib.isWord, text[ln.start..ln.end], 0)
    requires AreRuns(lib.isWord, text[ln.start..ln.end], 0, runs)
    ensures FiresInLine(lib, text, ln, sp) <==>
            exists r <- runs :: sp == SpanOf(lib, text[ln.start..ln.end], ln, r) && sp.rule != ""
  {
    hide LineRule, RunsFrom, IsRun;
    var line := text[ln.start..ln.end];
    if FiresInLine(lib, text, ln, sp) {
      var r := Segment(sp.start - ln.start, sp.end - ln.start);
      assert r in runs && sp == SpanOf(lib, line, ln, r);
    }
    if r :| r in runs && sp == SpanOf(lib, line, ln, r) && sp.rule != "" {
      assert IsRun(lib.isWord, line, r);
      RunInLine(lib, text, ln, r);
      assert r == Segment(sp.start - ln.start, sp.end - ln.start);
    }
  }

  method SpansOfLine(lib: Library, text: seq<byte>, ln: Segment) returns (spans: seq<Span>)
    requires Keeps(lib, text) && ln.start <= ln.end <= |text|
    ensures AllPlaced(text, spans) && Rising(spans)
    ensures forall sp :: sp in spans <==> FiresInLine(lib, text, ln, sp)
  {
    hide LineRule, RunsFrom, IsRun, WellPlaced, ArePipes, FiresInLine, Fired;
    var line := text[ln.start..ln.end];
    var pipes := Pipes(lib, line);
    var runs := DigitRuns(lib.isWord, line);
    RunsAreRuns(lib.isWord, line, 0);
    spans := [];
    NoneFired(lib, line, ln);
    for i := 0 to |runs|
      invariant AllPlaced(text, spans) && spans == Fired(lib, line, ln, runs[..i])
    {
      var r := runs[i];
      RunInLine(lib, text, ln, r);
      OneMoreFired(lib, line, ln, runs, i);
      var rule := RuleOf(lib, line, pipes, r);
      if rule != "" {
        var sp := Span(ln.start + r.start, ln.start + r.end, rule, 1, OneTimeCode);
        DigitsArePlaced(text, sp);
        spans := spans + [sp];
      }
    }
    assert runs[..|runs|] == runs;
    RunsRise(lib.isWord, line, runs);
    FiredRises(lib, line, ln, runs);
    forall sp ensures sp in spans <==> FiresInLine(lib, text, ln, sp) {
      FiredExactly(lib, line, ln, runs, sp);
      FiresOnRun(lib, text, ln, runs, sp);
    }
  }

  method LineSpans(lib: Library, text: seq<byte>) returns (spans: seq<Span>)
    requires Keeps(lib, text)
    ensures AllPlaced(text, spans) && Rising(spans)
    ensures forall sp :: sp in spans <==> LineFires(lib, text, sp)
  {
    hide LinesFrom, LineRule, RunsFrom, Boundary, Valid;
    var lines := Lines(text);
    LinesRise(text, 0, 0);
    spans := [];
    for li := 0 to |lines|
      invariant AllPlaced(text, spans) && Rising(spans)
      invariant forall sp <- spans, j | li <= j < |lines| :: sp.start < lines[j].start
      invariant forall sp :: sp in spans <==> exists ln <- lines[..li] :: FiresInLine(lib, text, ln, sp)
    {
      var ln := lines[li];
      assert lines[..li + 1] == lines[..li] + [ln];
      var of := SpansOfLine(lib, text, ln);
      RisingJoins(spans, of, ln.start);
      spans := spans + of;
    }
    assert lines[..|lines|] == lines;
  }

  // ---------------------------------------------------------------- URLs and tier 2

  /** Where a URL ends once the punctuation of the sentence around it is dropped. */
  function UrlEnd(text: seq<byte>, u: Segment): (end: nat)
    requires u.start < u.end <= |text|
    ensures u.start <= end <= u.end
  {
    u.start + |TrimRight(text[u.start..u.end], SENTENCE_MARKS)|
  }

  /** Byte i lies in a span of the list or in a URL. */
  ghost predicate Covered(lib: Library, text: seq<byte>, tier1: seq<Span>, i: int)
    requires Keeps(lib, text)
  {
    || (exists sp <- tier1 :: sp.start <= i < sp.end)
    || (exists u <- lib.urls(text) :: u.start <= i < UrlEnd(text, u))
  }

  method Mark(covered: array<bool>, start: nat, end: nat)
    requires start <= end <= covered.Length
    modifies covered
    ensures forall i | 0 <= i < covered.Length :: covered[i] == (old(covered[i]) || start <= i < end)
  {
    for i := start to end
      invariant forall j | 0 <= j < covered.Length :: covered[j] == (old(covered[j]) || start <= j < i)
    {
      covered[i] := true;
    }
  }

  method MarkCovered(lib: Library, text: seq<byte>, tier1: seq<Span>) returns (covered: array<bool>)
    requires Keeps(lib, text) && AllPlaced(text, tier1)
    ensures fresh(covered) && covered.Length == |text|
    ensures forall i | 0 <= i < |text| :: covered[i] <==> Covered(lib, text, tier1, i)
  {
    hide UrlEnd;
    covered := new bool[|text|](_ => false);
    for k := 0 to |tier1|
      invariant forall i | 0 <= i < |text| :: covered[i] <==> exists sp <- tier1[..k] :: sp.start <= i < sp.end
    {
      assert tier1[k] in tier1 && WellPlaced(text, tier1[k]);
      assert tier1[..k + 1] == tier1[..k] + [tier1[k]];
      Mark(covered, tier1[k].start, tier1[k].end);
    }
    assert tier1[..|tier1|] == tier1;
    var urls := lib.urls(text);
    for k := 0 to |urls|
      invariant forall i | 0 <= i < |text| ::
                  covered[i] <==> ((exists sp <- tier1 :: sp.start <= i < sp.end)
                                   || exists u <- urls[..k] :: u.start <= i < UrlEnd(text, u))
    {
      assert urls[k] in lib.urls(text);
      assert urls[..k + 1] == urls[..k] + [urls[k]];
      Mark(covered, urls[k].start, UrlEnd(text, urls[k]));
    }
    assert urls[..|urls|] == urls;
  }

  ghost predicate LinkOf(lib: Library, text: seq<byte>, u: Segment, sp: Span)
    requires u.start < u.end <= |text|
  {
    && sp == Span(u.start, UrlEnd(text, u), sp.rule, 1, LoginLink)
    && sp.rule in lib.linkRules(text[u.start..UrlEnd(text, u)])
  }

  /** What the login-link rules fire on. */
  ghost predicate LinkFires(lib: Library, text: seq<byte>, sp: Span)
    requires Keeps(lib, text)
  {
    exists u <- lib.urls(text) :: LinkOf(lib, text, u, sp)
  }

  lemma {:induction false} TrimRightKeepsStart(s: seq<byte>, cut: set<byte>)
    requires s != [] && s[0] !in cut
    ensures TrimRight(s, cut) != []
    decreases |s|
  {
    if s[|s| - 1] in cut {
      TrimRightKeepsStart(s[..|s| - 1], cut);
    }
  }

  lemma UrlEndsAtMark(text: seq<byte>, u: Segment)
    requires u.start < u.end <= |text| && IsLetter(text[u.start])
    ensures u.start < UrlEnd(text, u) <= u.end
    ensures UrlEnd(text, u) < u.end ==> text[UrlEnd(text, u)] in SENTENCE_MARKS
  {
    hide TrimRight;
    var url := text[u.start..u.end];
    assert url[0] == text[u.start];
    TrimRightKeepsStart(url, SENTENCE_MARKS);
  }

  lemma MarkIsBoundary(text: seq<byte>, i: nat)
    requires i < |text| && text[i] in SENTENCE_MARKS
    ensures Valid(text) ==> Boundary(text, i)
  {
    if Valid(text) {
      AsciiIsCharacter(text, i);
    }
  }

  /** A URL stays whole up to the punctuation dropped, which is ASCII. */
  lemma LinkIsPlaced(text: seq<byte>, u: Segment)
    requires u.start < u.end <= |text| && IsLetter(text[u.start])
    requires Valid(text) ==> Boundary(text, u.start) && Boundary(text, u.end)
    ensures u.start < UrlEnd(text, u) <= |text|
    ensures Valid(text) ==> Boundary(text, u.start) && Boundary(text, UrlEnd(text, u))
  {
    hide Valid, Boundary, UrlEnd;
    UrlEndsAtMark(text, u);
    var end := UrlEnd(text, u);
    if end < u.end {
      MarkIsBoundary(text, end);
    }
  }

  method LinkSpans(lib: Library, text: seq<byte>) returns (spans: seq<Span>)
    requires Keeps(lib, text)
    ensures AllPlaced(text, spans) && Distinct(spans)
    ensures forall sp :: sp in spans <==> LinkFires(lib, text, sp)
  {
    hide UrlEnd, Boundary, Valid;
    spans := [];
    var urls := lib.urls(text);
    for k := 0 to |urls|
      invariant AllPlaced(text, spans) && Distinct(spans)
      invariant forall sp :: sp in spans <==> exists u <- urls[..k] :: LinkOf(lib, text, u, sp)
    {
      var u := urls[k];
      assert u in lib.urls(text);
      assert urls[..k + 1] == urls[..k] + [u];
      LinkIsPlaced(text, u);
      var rules := lib.linkRules(text[u.start..UrlEnd(text, u)]);
      for j := 0 to |rules|
        invariant AllPlaced(text, spans) && Distinct(spans)
        invariant forall sp :: sp in spans <==>
                    ((exists u <- urls[..k] :: LinkOf(lib, text, u, sp))
                     || (sp.rule in rules[..j] && LinkOf(lib, text, u, sp)))
      {
        assert rules[..j + 1] == rules[..j] + [rules[j]];
        spans := spans + [Span(u.start, UrlEnd(text, u), rules[j], 1, LoginLink)];
      }
      assert rules[..|rules|] == rules;
    }
    assert urls[..|urls|] == urls;
  }

  /** 4 to 10 ASCII letters or digits, at least one a digit. */
  predicate Candidate(tok: seq<byte>) {
    4 <= |tok| <= 10 && (forall b <- tok :: IsDigit(b) || IsLetter(b)) && exists b <- tok :: IsDigit(b)
  }

  /** A digit run the trigger window rule finds. */
  ghost predicate WindowFires(lib: Library, dict: seq<seq<byte>>, text: seq<byte>, window: int, sp: Span) {
    && Segment(sp.start, sp.end) in RunsFrom(lib.isWord, text, 0)
    && Fires(lib.isWord, dict, text, window, Segment(sp.start, sp.end))
    && sp == Span(sp.start, sp.end, TRIGGER_WINDOW, 1, OneTimeCode)
  }

  /** A code the trigger window rule or a line rule of tier 1 finds. */
  ghost predicate CodeFires(lib: Library, dict: seq<seq<byte>>, text: seq<byte>, window: int, sp: Span) {
    LineFires(lib, text, sp) || WindowFires(lib, dict, text, window, sp)
  }

  /** Byte i lies in a code that tier 1 finds or in a URL. */
  ghost predicate Taken(lib: Library, dict: seq<seq<byte>>, text: seq<byte>, window: int, i: int)
    requires Keeps(lib, text)
  {
    || (exists code: Span :: CodeFires(lib, dict, text, window, code) && code.start <= i < code.end)
    || (exists u <- lib.urls(text) :: u.start <= i < UrlEnd(text, u))
  }

  /** A token tier 2 looks at: a candidate that no code or URL touches. */
  ghost predicate Scorable(lib: Library, dict: seq<seq<byte>>, text: seq<byte>, window: int, t: Segment)
    requires Keeps(lib, text)
  {
    && t in TokensFrom(lib.isWord, text, 0, -1)
    && t.start <= t.end <= |text|
    && Candidate(text[t.start..t.end])
    && forall i | t.start <= i < t.end :: !Taken(lib, dict, text, window, i)
  }

  /** What tier 2 fires on: a token it looks at that scores high enough, whether or not a trigger is near. */
  ghost predicate ScoreFires(lib: Library, dict: seq<seq<byte>>, text: seq<byte>, window: int, sp: Span)
    requires Keeps(lib, text)
  {
    var t := Segment(sp.start, sp.end);
    && sp == Span(sp.start, sp.end, SCORE, 2, OneTimeCode)
    && Scorable(lib, dict, text, window, t)
    && lib.scores(text, t, Fires(lib.isWord, dict, text, window, t))
  }

  method Uncovered(covered: array<bool>, t: Segment) returns (r: bool)
    requires t.start <= t.end <= covered.Length
    ensures r == forall i | t.start <= i < t.end :: !covered[i]
  {
    for i := t.start to t.end
      invariant forall j | t.start <= j < i :: !covered[j]
    {
      if covered[i] {
        return false;
      }
    }
    return true;
  }

  lemma CoveredIsTaken(lib: Library, dict: seq<seq<byte>>, text: seq<byte>, window: int, codes: seq<Span>, i: int)
    requires Keeps(lib, text)
    requires forall sp :: sp in codes <==> CodeFires(lib, dict, text, window, sp)
    ensures Covered(lib, text, codes, i) <==> Taken(lib, dict, text, window, i)
  {
    hide CodeFires, UrlEnd;
  }

  lemma TriggersAscend(isWord: WordRune, dict: seq<seq<byte>>, text: seq<byte>, tokens: seq<Segment>,
                       triggers: seq<int>)
    requires AreTriggers(isWord, dict, text, tokens, triggers)
    ensures Ascending(triggers)
  {
  }

  lemma NearIsTokenFires(isWord: WordRune, dict: seq<seq<byte>>, text: seq<byte>, tokens: seq<Segment>,
                         triggers: seq<int>, window: int, k: nat)
    requires tokens == TokensFrom(isWord, text, 0, -1) && AreTokens(isWord, text, tokens) && k < |tokens|
    requires AreTriggers(isWord, dict, text, tokens, triggers)
    ensures NearTrigger(triggers, k, window) == Fires(isWord, dict, text, window, tokens[k])
  {
    hide TokensFrom, TokenIndex, AreTriggers, Fires, NearTrigger;
    TokenIndexHolds(tokens, k, tokens[k].start);
    NearIsFires(isWord, dict, text, tokens, triggers, window, tokens[k]);
  }

  function ScoredSpan(t: Segment): Span {
    Span(t.start, t.end, SCORE, 2, OneTimeCode)
  }

  lemma ScoresAreTokens(lib: Library, dict: seq<seq<byte>>, text: seq<byte>, window: int)
    requires Keeps(lib, text)
    ensures forall t :: Scorable(lib, dict, text, window, t) ==> t in TokensFrom(lib.isWord, text, 0, -1)
    ensures forall sp :: ScoreFires(lib, dict, text, window, sp) ==>
              sp == ScoredSpan(Segment(sp.start, sp.end))
                  && Scorable(lib, dict, text, window, Segment(sp.start, sp.end))
  {
    hide Candidate, Taken, TokensFrom, Fires;
  }

  lemma TokenDecides(lib: Library, dict: seq<seq<byte>>, text: seq<byte>, window: int, tokens: seq<Segment>,
                     codes: seq<Span>, triggers: seq<int>, k: nat)
    requires Keeps(lib, text) && k < |tokens|
    requires tokens == TokensFrom(lib.isWord, text, 0, -1) && AreTokens(lib.isWord, text, tokens)
    requires AreTriggers(lib.isWord, dict, text, tokens, triggers)
    requires forall sp :: sp in codes <==> CodeFires(lib, dict, text, window, sp)
    ensures var t := tokens[k];
            && t.end <= |text|
            && (Scorable(lib, dict, text, window, t)
                <==> Candidate(text[t.start..t.end])
                     && forall i | t.start <= i < t.end :: !Covered(lib, text, codes, i))
            && (ScoreFires(lib, dict, text, window, ScoredSpan(t))
                <==> Scorable(lib, dict, text, window, t) && lib.scores(text, t, NearTrigger(triggers, k, window)))
  {
    hide CodeFires, Candidate, Taken, Covered, Boundary, Valid, TokensFrom, AreTriggers, Fires, NearTrigger;
    forall i ensures Covered(lib, text, codes, i) <==> Taken(lib, dict, text, window, i) {
      CoveredIsTaken(lib, dict, text, window, codes, i);
    }
    NearIsTokenFires(lib.isWord, dict, text, tokens, triggers, window, k);
  }

  lemma ScoredIsPlaced(text: seq<byte>, tokens: seq<Segment>, k: nat)
    requires Whole(text, tokens) && k < |tokens|
    ensures WellPlaced(text, ScoredSpan(tokens[k]))
  {
  }

  method ScoreSpans(lib: Library, dict: seq<seq<byte>>, text: seq<byte>, tokens: seq<Segment>, codes: seq<Span>,
                    triggers: seq<int>, window: int)
    returns (spans: seq<Span>, tier: nat)
    requires Keeps(lib, text) && AllPlaced(text, codes)
    requires tokens == TokensFrom(lib.isWord, text, 0, -1) && AreTokens(lib.isWord, text, tokens)
    requires AreTriggers(lib.isWord, dict, text, tokens, triggers)
    requires forall sp :: sp in codes <==> CodeFires(lib, dict, text, window, sp)
    ensures AllPlaced(text, spans) && Rising(spans)
    ensures forall sp :: sp in spans <==> ScoreFires(lib, dict, text, window, sp)
    ensures tier == if exists t: Segment :: Scorable(lib, dict, text, window, t) then 2 else 1
  {
    hide CodeFires, Candidate, Covered, Boundary, Valid, TokensFrom, AreTriggers, Scorable, NearTrigger, ScoreFires;
    hide WellPlaced;
    var covered := MarkCovered(lib, text, codes);
    TriggersAscend(lib.isWord, dict, text, tokens, triggers);
    ScoresAreTokens(lib, dict, text, window);
    spans, tier := [], 1;
    for i := 0 to |tokens|
      invariant AllPlaced(text, spans) && Rising(spans)
      invariant forall sp <- spans, j | i <= j < |tokens| :: sp.start < tokens[j].start
      invariant forall j | 0 <= j < |text| :: covered[j] <==> Covered(lib, text, codes, j)
      invariant forall sp :: sp in spans <==>
                  Segment(sp.start, sp.end) in tokens[..i] && ScoreFires(lib, dict, text, window, sp)
      invariant tier == if exists t <- tokens[..i] :: Scorable(lib, dict, text, window, t) then 2 else 1
    {
      var t := tokens[i];
      assert tokens[..i + 1] == tokens[..i] + [t];
      TokenDecides(lib, dict, text, window, tokens, codes, triggers, i);
      var free := Uncovered(covered, t);
      if !Candidate(text[t.start..t.end]) || !free {
        continue;
      }
      tier := 2;
      var near := Near(triggers, i, window);
      if lib.scores(text, t, near) {
        ScoredIsPlaced(text, tokens, i);
        spans := spans + [ScoredSpan(t)];
      }
    }
    assert tokens[..|tokens|] == tokens;
  }

  // ---------------------------------------------------------------- detect

  predicate StartsAscend(spans: seq<Span>) {
    forall i, j | 0 <= i < j < |spans| :: spans[i].start <= spans[j].start
  }

  method InsertSpan(s: seq<Span>, x: Span) returns (r: seq<Span>)
    requires StartsAscend(s)
    ensures StartsAscend(r) && multiset(r) == multiset(s) + multiset{x}
  {
    var k := |s|;
    while k > 0 && s[k - 1].start > x.start
      invariant 0 <= k <= |s| && forall j | k <= j < |s| :: s[j].start > x.start
    {
      k := k - 1;
    }
    Inserted(s, k, x);
    r := s[..k] + [x] + s[k..];
  }

  method SortSpans(s: seq<Span>) returns (r: seq<Span>)
    ensures StartsAscend(r) && multiset(r) == multiset(s)
  {
    r := [];
    for i := 0 to |s|
      invariant StartsAscend(r) && multiset(r) == multiset(s[..i])
    {
      r := InsertSpan(r, s[i]);
      assert s[..i + 1] == s[..i] + [s[i]];
    }
    assert s[..|s|] == s;
  }

  /** Every span detection finds: the codes and links of tier 1 and, unless the patterns alone are scanned, the
      tokens of tier 2. */
  ghost predicate Detected(lib: Library, dict: seq<seq<byte>>, cfg: Config, text: seq<byte>, sp: Span)
    requires Keeps(lib, text)
  {
    || CodeFires(lib, dict, text, cfg.window, sp)
    || LinkFires(lib, text, sp)
    || (!cfg.patterns && ScoreFires(lib, dict, text, cfg.window, sp))
  }

  lemma RisingIsDistinct(spans: seq<Span>)
    requires Rising(spans)
    ensures Distinct(spans)
  {
  }

  lemma {:induction false} DistinctIsOnce<T>(s: seq<T>, x: T)
    requires Distinct(s)
    ensures multiset(s)[x] == if x in s then 1 else 0
  {
    if s == [] {
    } else {
      var init, last := s[..|s| - 1], s[|s| - 1];
      DistinctIsOnce(init, x);
      assert s == init + [last];
      assert last !in init;
    }
  }

  lemma LinesHaveTheirRules(lib: Library, text: seq<byte>, sp: Span)
    requires LineFires(lib, text, sp)
    ensures sp.rule == OWN_LINE || sp.rule == HEADING_OR_CELL
    ensures sp.tier == 1 && sp.flag == OneTimeCode
  {
    hide LinesFrom, RunsFrom, Trim, Heading, Cell;
  }

  /** What the rules find differs by tier or flag. */
  lemma KindsDiffer(lib: Library, dict: seq<seq<byte>>, text: seq<byte>, window: int, sp: Span)
    requires Keeps(lib, text)
    ensures CodeFires(lib, dict, text, window, sp) ==> sp.tier == 1 && sp.flag == OneTimeCode
    ensures LinkFires(lib, text, sp) ==> sp.tier == 1 && sp.flag == LoginLink
    ensures ScoreFires(lib, dict, text, window, sp) ==> sp.tier == 2
  {
    hide LineFires, RunsFrom, Fires, Scorable, UrlEnd;
    if LineFires(lib, text, sp) {
      LinesHaveTheirRules(lib, text, sp);
    }
  }

  lemma SumOnce(window: seq<Span>, lines: seq<Span>, links: seq<Span>, scored: seq<Span>, sp: Span)
    requires Rising(window) && Rising(lines) && Distinct(links) && Rising(scored)
    ensures multiset(window + lines + links + scored)[sp]
            == (if sp in window then 1 else 0) + (if sp in lines then 1 else 0)
               + (if sp in links then 1 else 0) + (if sp in scored then 1 else 0)
  {
    RisingIsDistinct(window);
    RisingIsDistinct(lines);
    RisingIsDistinct(scored);
    DistinctIsOnce(window, sp);
    DistinctIsOnce(lines, sp);
    DistinctIsOnce(links, sp);
    DistinctIsOnce(scored, sp);
  }

  /** Putting what the rules find together repeats none of it. */
  lemma OnceEach(lib: Library, dict: seq<seq<byte>>, cfg: Config, text: seq<byte>, window: seq<Span>, lines: seq<Span>,
                 links: seq<Span>, scored: seq<Span>, sp: Span)
    requires Keeps(lib, text) && Rising(window) && Rising(lines) && Distinct(links) && Rising(scored)
    requires sp in window <==> WindowFires(lib, dict, text, cfg.window, sp)
    requires sp in lines <==> LineFires(lib, text, sp)
    requires sp in links <==> LinkFires(lib, text, sp)
    requires sp in scored <==> !cfg.patterns && ScoreFires(lib, dict, text, cfg.window, sp)
    ensures multiset(window + lines + links + scored)[sp] == if Detected(lib, dict, cfg, text, sp) then 1 else 0
  {
    hide LineFires, LinkFires, ScoreFires, RunsFrom, Fires, Keeps, Rising, Distinct;
    SumOnce(window, lines, links, scored, sp);
    KindsDiffer(lib, dict, text, cfg.window, sp);
    if LineFires(lib, text, sp) {
      LinesHaveTheirRules(lib, text, sp);
    }
  }

  lemma SortedIsPlaced(text: seq<byte>, spans: seq<Span>, sorted: seq<Span>)
    requires AllPlaced(text, spans) && multiset(sorted) == multiset(spans)
    ensures AllPlaced(text, sorted)
  {
    hide WellPlaced;
    forall sp <- sorted ensures WellPlaced(text, sp) {
      assert sp in multiset(sorted);
    }
  }

  /** The spans are exactly the detected ones, each once, ordered by where they start. */
  method Detect(lib: Library, dict: seq<seq<byte>>, a: AhoCorasick.Automaton, cfg: Config, text: seq<byte>)
    returns (spans: seq<Span>, tier: nat)
    requires Keeps(lib, text)
    requires AhoCorasick.Recognizes(a, dict) && forall w | 0 <= w < |dict| :: dict[w] != []
    ensures AllPlaced(text, spans) && StartsAscend(spans)
    ensures forall sp: Span :: multiset(spans)[sp] == if Detected(lib, dict, cfg, text, sp) then 1 else 0
    ensures tier == if !cfg.patterns && exists t: Segment :: Scorable(lib, dict, text, cfg.window, t) then 2 else 1
  {
    hide Fires, LinesFrom, RunsFrom, TokensFrom, UrlEnd, Boundary, Valid, AhoCorasick.Recognizes, AreTriggers;
    hide LineFires, LinkFires, ScoreFires, Scorable, Detected;
    var tokens := Tokenize(lib.isWord, text);
    var triggers := TriggerTokens(lib.isWord, dict, a, text, tokens);
    var window := TriggerSpans(lib.isWord, dict, text, tokens, triggers, cfg.window);
    var lines := LineSpans(lib, text);
    var links := LinkSpans(lib, text);
    var scored: seq<Span> := [];
    tier := 1;
    if !cfg.patterns {
      scored, tier := ScoreSpans(lib, dict, text, tokens, window + lines, triggers, cfg.window);
    }
    spans := SortSpans(window + lines + links + scored);
    forall sp: Span ensures multiset(spans)[sp] == if Detected(lib, dict, cfg, text, sp) then 1 else 0 {
      OnceEach(lib, dict, cfg, text, window, lines, links, scored, sp);
    }
    SortedIsPlaced(text, window + lines + links + scored, spans);
  }

  /** A scored token touches no code tier 1 found, and no URL. */
  lemma ScoredAvoidsCodes(lib: Library, dict: seq<seq<byte>>, text: seq<byte>, window: int, sp: Span, code: Span)
    requires Keeps(lib, text) && ScoreFires(lib, dict, text, window, sp) && CodeFires(lib, dict, text, window, code)
    requires code.start < code.end
    ensures code.end <= sp.start || sp.end <= code.start
  {
    hide Boundary, Valid, Fires, CodeFires, TokensFrom;
    var i := if code.start <= sp.start then sp.start else code.start;
    assert sp.start <= i < sp.end ==> !Taken(lib, dict, text, window, i);
  }
}
