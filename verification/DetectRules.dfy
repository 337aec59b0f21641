/** What detection's rules read of a text, said byte by byte (core/scan/detect.go, core/scan/automaton.go). */
module DetectRules {
  import opened Bytes
  import opened Utf8
  import opened Tokens
  import opened Detect
  import AhoCorasick

  // ---------------------------------------------------------------- occurrences

  /** The same byte, or the two cases of one ASCII letter. */
  predicate SameLetter(a: byte, b: byte) {
    a == b || (0x41 <= a <= 0x5A && b == a + 0x20) || (0x41 <= b <= 0x5A && a == b + 0x20)
  }

  /** A word occurs exactly where each byte of the text is the word's or its other case. */
  lemma OccursExactly(word: seq<byte>, text: seq<byte>, start: int)
    ensures AhoCorasick.OccursAt(word, text, start) <==>
            && 0 <= start && start + |word| <= |text|
            && forall k | 0 <= k < |word| :: SameLetter(text[start + k], word[k])
  {
    if 0 <= start && start + |word| <= |text| {
      var part := text[start..start + |word|];
      forall k | 0 <= k < |word|
        ensures FoldAll(part)[k] == FoldAll(word)[k] <==> SameLetter(text[start + k], word[k])
      {
        assert part[k] == text[start + k];
      }
    }
  }

  // ---------------------------------------------------------------- word boundaries

  /** At a boundary between characters, a word boundary is where no word character comes next, and where the
      character before is none. */
  lemma BoundariesExactly(isWord: WordRune, text: seq<byte>, i: nat)
    requires Valid(text) && Boundary(text, i) && i <= |text|
    ensures BoundaryAfter(isWord, text, i) <==> !InWord(isWord, text, i)
    ensures BoundaryBefore(isWord, text, i) <==>
            forall j: nat | j < i && InWord(isWord, text, j) :: j + DecodeRune(text[j..]).size != i
  {
    if i > 0 {
      var j := CharBefore(text, i);
      LastRuneIsPrevious(text, j, i);
      hide DecodeRune;
      forall k: nat | k < i && InWord(isWord, text, k) && k + DecodeRune(text[k..]).size == i ensures k == j {
        NoBoundaryInside(text, if k < j then k else j);
      }
    }
  }

  lemma {:induction false} CharBefore(s: seq<byte>, i: nat) returns (j: nat)
    requires Boundary(s, i) && 0 < i <= |s|
    ensures j < i && Boundary(s, j) && j + DecodeRune(s[j..]).size == i
    decreases |s|
  {
    hide DecodeRune;
    var n := DecodeRune(s).size;
    if n == i {
      j := 0;
      assert s[0..] == s;
    } else {
      var rest := s[n..];
      var k := CharBefore(rest, i - n);
      j := n + k;
      assert s[j..] == rest[k..];
    }
  }

  // ---------------------------------------------------------------- lines

  /** A line starts the text or follows a line feed, and goes on to the next or the text's end, without a
      carriage return before it. */
  predicate LineTo(text: seq<byte>, s: nat, f: nat, e: nat) {
    && s <= f <= |text| && (forall k | s <= k < f :: text[k] != 0x0A) && (f < |text| ==> text[f] == 0x0A)
    && e == if f > s && text[f - 1] == 0x0D then f - 1 else f
  }

  ghost predicate IsLine(text: seq<byte>, start: nat, s: nat, e: nat) {
    && start <= s <= |text| && (s == start || text[s - 1] == 0x0A)
    && exists f: nat :: LineTo(text, s, f, e)
  }

  lemma {:induction false} LinesFromExactly(text: seq<byte>, start: nat, i: nat, s: nat, e: nat)
    requires start <= i <= |text| && forall k | start <= k < i :: text[k] != 0x0A
    ensures Segment(s, e) in LinesFrom(text, start, i) <==> IsLine(text, start, s, e)
    decreases |text| - i
  {
    if i < |text| && text[i] != 0x0A {
      LinesFromExactly(text, start, i + 1, s, e);
    } else {
      var end := if i > start && text[i - 1] == 0x0D then i - 1 else i;
      assert LineTo(text, start, i, end);
      var first := Segment(start, end);
      if i < |text| {
        LinesFromExactly(text, i + 1, i + 1, s, e);
        LinesRise(text, i + 1, i + 1);
        assert LinesFrom(text, start, i) == [first] + LinesFrom(text, i + 1, i + 1);
        hide LinesFrom, LinesApart;
        FirstLineOnly(text, start, i, s, e);
      } else {
        assert LinesFrom(text, start, i) == [first];
        FirstLineOnly(text, start, i, s, e);
      }
    }
  }

  /** With the first line feed from start on at i, the lines are the first and those from after it. */
  lemma FirstLineOnly(text: seq<byte>, start: nat, i: nat, s: nat, e: nat)
    requires start <= i <= |text| && (forall k | start <= k < i :: text[k] != 0x0A) && (i < |text| ==> text[i] == 0x0A)
    ensures IsLine(text, start, s, e) <==>
            || (s == start && e == if i > start && text[i - 1] == 0x0D then i - 1 else i)
            || (i < |text| && IsLine(text, i + 1, s, e))
  {
    var end := if i > start && text[i - 1] == 0x0D then i - 1 else i;
    assert LineTo(text, start, i, end);
    if IsLine(text, start, s, e) {
      var f: nat :| LineTo(text, s, f, e);
      if s == start {
        assert f == i;
      } else {
        assert s - 1 >= i;
        assert IsLine(text, i + 1, s, e);
      }
    }
    if i < |text| && IsLine(text, i + 1, s, e) {
      var f: nat :| LineTo(text, s, f, e);
      assert s >= i + 1 && text[s - 1] == 0x0A;
    }
  }

  /** A text's lines are exactly these. LinesRise says they come in order, so each comes once. */
  lemma LinesExactly(text: seq<byte>, s: nat, e: nat)
    ensures Segment(s, e) in LinesFrom(text, 0, 0) <==> IsLine(text, 0, s, e)
  {
    LinesFromExactly(text, 0, 0, s, e);
  }

  // ---------------------------------------------------------------- trimming

  /** All that surrounds the segment is marks. */
  predicate AloneAmong(s: seq<byte>, r: Segment, marks: set<byte>)
    requires r.start <= r.end <= |s|
  {
    (forall k | 0 <= k < r.start :: s[k] in marks) && forall k | r.end <= k < |s| :: s[k] in marks
  }

  /** The segment has no mark at either end, or is empty. */
  predicate Bare(s: seq<byte>, r: Segment, marks: set<byte>)
    requires r.start <= r.end <= |s|
  {
    r.start < r.end ==> s[r.start] !in marks && s[r.end - 1] !in marks
  }

  lemma {:induction false} TrimLeftCuts(s: seq<byte>, marks: set<byte>) returns (a: nat)
    ensures a <= |s| && TrimLeft(s, marks) == s[a..] && (forall k | 0 <= k < a :: s[k] in marks)
    ensures a < |s| ==> s[a] !in marks
    decreases |s|
  {
    if s != [] && s[0] in marks {
      var b := TrimLeftCuts(s[1..], marks);
      a := b + 1;
      assert s[1..][b..] == s[a..];
      forall k | 0 <= k < a ensures s[k] in marks {
        assert k > 0 ==> s[k] == s[1..][k - 1];
      }
    } else {
      a := 0;
    }
  }

  lemma {:induction false} TrimRightCuts(s: seq<byte>, marks: set<byte>)
    ensures var b := |TrimRight(s, marks)|;
            && b <= |s| && TrimRight(s, marks) == s[..b] && (forall k | b <= k < |s| :: s[k] in marks)
            && (b > 0 ==> s[b - 1] !in marks)
    decreases |s|
  {
    if s != [] && s[|s| - 1] in marks {
      TrimRightCuts(s[..|s| - 1], marks);
      assert forall k | 0 <= k < |s| - 1 :: s[..|s| - 1][k] == s[k];
    }
  }

  lemma TrimCuts(s: seq<byte>, marks: set<byte>) returns (r: Segment)
    ensures r.start <= r.end <= |s| && Trim(s, marks) == s[r.start..r.end]
    ensures AloneAmong(s, r, marks) && Bare(s, r, marks)
  {
    var a := TrimLeftCuts(s, marks);
    var rest := s[a..];
    TrimRightCuts(rest, marks);
    var b := |TrimRight(rest, marks)|;
    hide TrimLeft, TrimRight;
    r := Segment(a, a + b);
    assert forall k | a <= k < |s| :: s[k] == rest[k - a];
    assert rest[..b] == s[a..a + b];
  }

  /** Trimming leaves a segment that ends in no mark exactly when all around it is marks. */
  lemma TrimsTo(s: seq<byte>, r: Segment, marks: set<byte>)
    requires r.start < r.end <= |s| && Bare(s, r, marks)
    ensures Trim(s, marks) == s[r.start..r.end] <==> AloneAmong(s, r, marks)
  {
    var t := TrimCuts(s, marks);
    hide Trim;
    assert t.start <= r.start && r.end <= t.end;
    if Trim(s, marks) == s[r.start..r.end] {
      assert |s[t.start..t.end]| == |s[r.start..r.end]|;
    }
  }

  // ---------------------------------------------------------------- the line rules

  /** After spaces there is one number sign or two, and then a space. */
  predicate HeadedAt(line: seq<byte>, i: nat) {
    && i + 2 <= |line| && (forall k | 0 <= k < i :: line[k] == 0x20) && line[i] == 0x23
    && (line[i + 1] == 0x20 || (i + 3 <= |line| && line[i + 1] == 0x23 && line[i + 2] == 0x20))
  }

  lemma HeadingExactly(line: seq<byte>)
    ensures Heading(line) <==> exists i: nat :: HeadedAt(line, i)
  {
    var a := TrimLeftCuts(line, {0x20});
    var t := line[a..];
    hide TrimLeft;
    assert Heading(line) <==> StartsWith(t, 0, [0x23, 0x20]) || StartsWith(t, 0, [0x23, 0x23, 0x20]);
    StartsWithTwo(t);
    assert forall k | 0 <= k < |t| :: t[k] == line[a + k];
    if i: nat :| HeadedAt(line, i) {
      assert line[i] != 0x20;
      assert a == i;
    }
    if Heading(line) {
      assert HeadedAt(line, a);
    }
  }

  lemma StartsWithTwo(t: seq<byte>)
    ensures StartsWith(t, 0, [0x23, 0x20]) <==> |t| >= 2 && t[0] == 0x23 && t[1] == 0x20
    ensures StartsWith(t, 0, [0x23, 0x23, 0x20]) <==> |t| >= 3 && t[0] == 0x23 && t[1] == 0x23 && t[2] == 0x20
  {
    if |t| >= 2 {
      assert t[0..2] == [t[0], t[1]];
    }
    if |t| >= 3 {
      assert t[0..3] == [t[0], t[1], t[2]];
    }
  }

  /** Between two pipes of a table row there is the run and otherwise only spaces, tabs and the marks of
      emphasis and code. */
  ghost predicate FillsCell(lib: Library, line: seq<byte>, r: Segment, p: int, q: int)
    requires r.start < r.end <= |line|
  {
    && 0 <= p < r.start && r.end <= q < |line| && line[p] == 0x7C && line[q] == 0x7C
    && (forall k | r.start <= k < r.end :: line[k] != 0x7C)
    && (forall k | p < k < r.start || r.end <= k < q :: line[k] in {0x20, 0x09, 0x2A, 0x5F, 0x60})
  }

  lemma CellExactly(lib: Library, line: seq<byte>, r: Segment)
    requires r.start < r.end <= |line| && IsDigit(line[r.start]) && IsDigit(line[r.end - 1])
    ensures Cell(lib, line, r) <==> lib.tableRow(line) && exists p, q :: FillsCell(lib, line, r, p, q)
  {
    hide Trim;
    if Cell(lib, line, r) {
      var p, q :| 0 <= p < r.start <= r.end <= q < |line| && IsPipe(lib, line, p) && IsPipe(lib, line, q)
        && (forall k | p < k < q :: !IsPipe(lib, line, k))
        && Trim(line[p + 1..q], CELL_MARKS) == line[r.start..r.end];
      InsideCell(line, r, p, q);
      forall k | r.start <= k < r.end ensures line[k] != 0x7C {
        assert !IsPipe(lib, line, k);
      }
      assert FillsCell(lib, line, r, p, q);
    }
    if p, q :| lib.tableRow(line) && FillsCell(lib, line, r, p, q) {
      InsideCell(line, r, p, q);
      assert forall k | p < k < q :: !IsPipe(lib, line, k);
      assert IsPipe(lib, line, p) && IsPipe(lib, line, q);
    }
  }

  lemma InsideCell(line: seq<byte>, r: Segment, p: int, q: int)
    requires 0 <= p < r.start < r.end <= q < |line| && IsDigit(line[r.start]) && IsDigit(line[r.end - 1])
    ensures Trim(line[p + 1..q], CELL_MARKS) == line[r.start..r.end]
            <==> forall k | p < k < r.start || r.end <= k < q :: line[k] in CELL_MARKS
  {
    var s, t := line[p + 1..q], Segment(r.start - p - 1, r.end - p - 1);
    assert forall k | p < k < q :: line[k] == s[k - p - 1];
    TrimsTo(s, t, CELL_MARKS);
    assert s[t.start..t.end] == line[r.start..r.end];
    if AloneAmong(s, t, CELL_MARKS) {
      forall k | p < k < r.start || r.end <= k < q ensures line[k] in CELL_MARKS {
        assert line[k] == s[k - p - 1];
      }
    }
    if forall k | p < k < r.start || r.end <= k < q :: line[k] in CELL_MARKS {
      forall k | 0 <= k < t.start || t.end <= k < |s| ensures s[k] in CELL_MARKS {
        assert s[k] == line[k + p + 1];
      }
    }
  }

  /** A run fires the rule for a line of its own when only spaces, tabs and marks of emphasis, code and
      quotation are around it, and otherwise the other rule when it is in a heading or fills a cell. */
  lemma LineRuleExactly(lib: Library, line: seq<byte>, r: Segment)
    requires r.start < r.end <= |line| && IsDigit(line[r.start]) && IsDigit(line[r.end - 1])
    ensures var own := AloneAmong(line, r, {0x20, 0x09, 0x2A, 0x5F, 0x60, 0x3E});
            var other := (exists i: nat :: HeadedAt(line, i))
                         || (lib.tableRow(line) && exists p, q :: FillsCell(lib, line, r, p, q));
            && (own ==> LineRule(lib, line, r) == "mfa.own_line")
            && (!own && other ==> LineRule(lib, line, r) == "mfa.heading_or_cell")
            && (!own && !other ==> LineRule(lib, line, r) == "")
  {
    TrimsTo(line, r, LINE_MARKS);
    HeadingExactly(line);
    CellExactly(lib, line, r);
    hide Trim, Heading, Cell, HeadedAt, FillsCell;
  }

  // ---------------------------------------------------------------- URLs

  /** A URL ends before the run of sentence marks it ends in. */
  lemma UrlEndExactly(text: seq<byte>, u: Segment)
    requires u.start < u.end <= |text|
    ensures var end := UrlEnd(text, u);
            && (forall k | end <= k < u.end :: text[k] in {0x2E, 0x2C, 0x3B, 0x3A, 0x21, 0x3F})
            && (end > u.start ==> text[end - 1] !in {0x2E, 0x2C, 0x3B, 0x3A, 0x21, 0x3F})
  {
    var url := text[u.start..u.end];
    TrimRightCuts(url, SENTENCE_MARKS);
    hide TrimRight;
    assert forall k | u.start <= k < u.end :: text[k] == url[k - u.start];
  }
}
