/** The literal code fence (content/markdown/literal.go) and the reader that sections 2.1 and 4.5 of CommonMark 0.31.2
    give a fenced code block. */
module Literal {
  import opened Wrappers

  function Ticks(n: nat): string {
    seq(n, _ => '`')
  }

  /** n backticks stand together at i. */
  predicate RunAt(s: string, i: nat, n: nat) {
    i + n <= |s| && forall k | i <= k < i + n :: s[k] == '`'
  }

  predicate NoRun(s: string, n: nat) {
    forall i | 0 <= i <= |s| :: !RunAt(s, i, n)
  }

  // ---------------------------------------------------------------- the reader

  /** Where the line that starts at i ends, its line ending not included. */
  function LineEnd(s: string, i: nat): (k: nat)
    requires i <= |s|
    ensures i <= k <= |s| && (k < |s| ==> s[k] == '\n' || s[k] == '\r')
    ensures forall j | i <= j < k :: s[j] != '\n' && s[j] != '\r'
    decreases |s| - i
  {
    if i == |s| || s[i] == '\n' || s[i] == '\r' then i else LineEnd(s, i + 1)
  }

  /** Where the next line starts: after a line feed, a carriage return, or the two together. */
  function NextLine(s: string, k: nat): (n: nat)
    requires k <= |s|
    ensures k <= n <= |s| && (k < |s| ==> k < n)
  {
    if k == |s| then k
    else if s[k] == '\r' && k + 1 < |s| && s[k + 1] == '\n' then k + 2
    else k + 1
  }

  function Spaces(line: string, i: nat): (k: nat)
    requires i <= |line|
    ensures i <= k <= |line| && (k < |line| ==> line[k] != ' ') && forall j | i <= j < k :: line[j] == ' '
    decreases |line| - i
  {
    if i == |line| || line[i] != ' ' then i else Spaces(line, i + 1)
  }

  function TicksFrom(line: string, i: nat): (k: nat)
    requires i <= |line|
    ensures i <= k <= |line| && (k < |line| ==> line[k] != '`') && forall j | i <= j < k :: line[j] == '`'
    decreases |line| - i
  {
    if i == |line| || line[i] != '`' then i else TicksFrom(line, i + 1)
  }

  /** A closing fence: up to three spaces, at least as many backticks as opened the block, then spaces and tabs. */
  predicate Closes(line: string, n: nat) {
    var start := Spaces(line, 0);
    var end := TicksFrom(line, start);
    start <= 3 && end - start >= n && forall j | end <= j < |line| :: line[j] == ' ' || line[j] == '\t'
  }

  /** A code block's content with its line endings as they are, whether a fence closed it, and what follows. */
  datatype Block = Block(content: string, closed: bool, rest: string)

  function ReadContent(s: string, n: nat): Block
    decreases |s|
  {
    if s == "" then Block("", false, "")
    else
      var end := LineEnd(s, 0);
      var next := NextLine(s, end);
      if Closes(s[..end], n) then Block("", true, s[next..])
      else
        var more := ReadContent(s[next..], n);
        more.(content := s[..next] + more.content)
  }

  /** The block a document begins with, when it begins with a fence of backticks, not indented, that no info string
      follows. */
  function ReadBlock(s: string): Option<Block> {
    var end := LineEnd(s, 0);
    var n := TicksFrom(s[..end], 0);
    if n < 3 || n < end then None else Some(ReadContent(s[NextLine(s, end)..], n))
  }

  // ---------------------------------------------------------------- the writer

  function Shown(text: string): string {
    if text != "" && text[|text| - 1] != '\n' then text + "\n" else text
  }

  lemma HasRun(s: string, i: nat, n: nat)
    requires RunAt(s, i, n)
    ensures !NoRun(s, n)
  {
  }

  lemma NoRunInNothing(text: string)
    ensures NoRun(text[..0], 1)
  {
  }

  /** A run in what has been read and one more character is one before it or the one that ends there. */
  lemma Extends(text: string, i: nat, run: nat, longest: nat)
    requires i < |text| && run <= i && run <= longest && RunAt(text, i - run, run)
    requires run < i ==> text[i - run - 1] != '`'
    requires NoRun(text[..i], longest + 1)
    ensures NoRun(text[..i + 1], (if text[i] == '`' && run + 1 > longest then run + 1 else longest) + 1)
  {
    var more := (if text[i] == '`' && run + 1 > longest then run + 1 else longest) + 1;
    var t := text[..i + 1];
    forall j | 0 <= j <= |t| ensures !RunAt(t, j, more) {
      if j + more <= i {
        assert !RunAt(text[..i], j, longest + 1);
        var k :| j <= k < j + longest + 1 && text[..i][k] != '`';
        assert t[k] != '`';
      } else if j + more == i + 1 {
        assert text[i] == '`' ==> j <= i - run - 1;
        assert text[i] == '`' ==> t[i - run - 1] != '`';
        assert text[i] != '`' ==> t[i] != '`';
      }
    }
  }

  method LongestRun(text: string) returns (longest: nat)
    ensures NoRun(text, longest + 1)
    ensures longest > 0 ==> !NoRun(text, longest)
  {
    hide NoRun;
    longest := 0;
    var run := 0;
    NoRunInNothing(text);
    for i := 0 to |text|
      invariant run <= i && run <= longest && RunAt(text, i - run, run)
      invariant run < i ==> text[i - run - 1] != '`'
      invariant NoRun(text[..i], longest + 1)
      invariant longest > 0 ==> !NoRun(text, longest)
    {
      Extends(text, i, run, longest);
      if text[i] != '`' {
        run := 0;
        continue;
      }
      run := run + 1;
      assert RunAt(text, i + 1 - run, run);
      HasRun(text, i + 1 - run, run);
      longest := if run > longest then run else longest;
    }
    assert text[..|text|] == text;
  }

  lemma FewerStillNone(s: string, m: nat, n: nat)
    requires NoRun(s, m) && m <= n
    ensures NoRun(s, n)
  {
    forall i | 0 <= i <= |s| ensures !RunAt(s, i, n) {
      assert !RunAt(s, i, m);
    }
  }

  lemma EndsInFeed(text: string)
    ensures Shown(text) != "" ==> Shown(text)[|Shown(text)| - 1] == '\n'
  {
  }

  lemma ShownHasNoRun(text: string, n: nat)
    requires n >= 1 && NoRun(text, n)
    ensures NoRun(Shown(text), n)
  {
    var t := Shown(text);
    forall i | 0 <= i <= |t| ensures !RunAt(t, i, n) {
      if i + n <= |text| {
        assert !RunAt(text, i, n);
        var k :| i <= k < i + n && text[k] != '`';
        assert t[k] == text[k];
      } else if i + n <= |t| {
        assert t[i + n - 1] == '\n';
      }
    }
  }

  lemma TailHasNoRun(t: string, next: nat, n: nat)
    requires next <= |t| && NoRun(t, n)
    ensures NoRun(t[next..], n)
  {
    forall i | 0 <= i <= |t[next..]| ensures !RunAt(t[next..], i, n) {
      assert !RunAt(t, next + i, n);
      if next + i + n <= |t| {
        var k :| next + i <= k < next + i + n && t[k] != '`';
        assert t[next..][k - next] == t[k];
      }
    }
  }

  lemma FenceCloses(n: nat)
    requires n >= 3
    ensures |Ticks(n)| == n && LineEnd(Ticks(n), 0) == n && NextLine(Ticks(n), n) == n && Closes(Ticks(n)[..n], n)
  {
    var f := Ticks(n);
    assert f[..n] == f;
    assert f[0] == '`';
    assert Spaces(f, 0) == 0;
    assert TicksFrom(f, 0) == n;
  }

  /** A text that ends its last line ends its first within it. */
  lemma LineWithin(t: string, n: nat)
    requires t != "" && t[|t| - 1] == '\n' && n >= 3
    ensures var s := t + Ticks(n);
            LineEnd(s, 0) < |t| && LineEnd(s, 0) < NextLine(s, LineEnd(s, 0)) <= |t|
  {
    var s := t + Ticks(n);
    assert s[|t| - 1] == '\n';
  }

  lemma LineDoesNotClose(t: string, end: nat, n: nat)
    requires end <= |t| && NoRun(t, n)
    ensures !Closes(t[..end], n)
  {
    var line := t[..end];
    var start := Spaces(line, 0);
    assert !RunAt(t, start, n);
    if start + n <= end {
      var k :| start <= k < start + n && t[k] != '`';
      assert line[k] == t[k];
    }
  }

  lemma {:induction false} ContentReadsBack(t: string, n: nat)
    requires n >= 3 && NoRun(t, n) && (t != "" ==> t[|t| - 1] == '\n')
    ensures ReadContent(t + Ticks(n), n) == Block(t, true, "")
    decreases |t|
  {
    hide NoRun, LineEnd, NextLine, Closes, Ticks;
    var s := t + Ticks(n);
    FenceCloses(n);
    if t == "" {
      assert s == Ticks(n) && s[..n] == s && s[n..] == "";
    } else {
      var end := LineEnd(s, 0);
      LineWithin(t, n);
      var next := NextLine(s, end);
      assert s[..end] == t[..end];
      LineDoesNotClose(t, end, n);
      TailHasNoRun(t, next, n);
      assert s[next..] == t[next..] + Ticks(n) && s[..next] == t[..next];
      ContentReadsBack(t[next..], n);
      assert t[..next] + t[next..] == t;
    }
  }

  lemma FenceOpens(n: nat, rest: string)
    ensures var s := Ticks(n) + "\n" + rest;
            && LineEnd(s, 0) == n < |s| && s[n] == '\n'
            && s[..n] == Ticks(n) && s[n + 1..] == rest && TicksFrom(Ticks(n), 0) == n
  {
    var s := Ticks(n) + "\n" + rest;
    assert s[n] == '\n' && forall j | 0 <= j < n :: s[j] == '`';
  }

  /** The fence reads back what it was put around, for any number of backticks the text has no run of. */
  lemma ReadsBack(text: string, n: nat)
    requires n >= 3 && NoRun(text, n)
    ensures ReadBlock(Ticks(n) + "\n" + Shown(text) + Ticks(n)) == Some(Block(Shown(text), true, ""))
  {
    hide NoRun, Shown;
    var t := Shown(text);
    var s := Ticks(n) + "\n" + t + Ticks(n);
    assert s == Ticks(n) + "\n" + (t + Ticks(n));
    FenceOpens(n, t + Ticks(n));
    ShownHasNoRun(text, n);
    EndsInFeed(text);
    ContentReadsBack(t, n);
  }

  /** A document whose first and only block shows the text exactly, closed by its last line, its fence no longer than
      the text needs. */
  method Literal(text: string) returns (out: string)
    ensures ReadBlock(out) == Some(Block(Shown(text), true, ""))
    ensures exists n :: n >= 3 && out == Ticks(n) + "\n" + Shown(text) + Ticks(n) && (n > 3 ==> !NoRun(text, n - 1))
  {
    hide NoRun, ReadBlock, Ticks;
    var longest := LongestRun(text);
    var n := if longest + 1 > 3 then longest + 1 else 3;
    FewerStillNone(text, longest + 1, n);
    var fence := Ticks(n);
    out := fence + "\n" + text;
    if text != "" && text[|text| - 1] != '\n' {
      out := out + "\n";
    }
    assert out == fence + "\n" + Shown(text);
    out := out + fence;
    ReadsBack(text, n);
  }
}
