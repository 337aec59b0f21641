/** What a policy restricts, said over the rows it is read from alone (core/policy/policy.go,
    core/classify/classify.go). */
module PolicyRules {
  import opened Wrappers
  import opened Policy
  import opened Classify
  import PathNames

  /** The sender is under the name of one of the suffixes. */
  predicate IsUnderOne(suffixes: seq<string>, sender: string, l: Lookups) {
    exists x <- suffixes :: Under(sender, SuffixName(x, l))
  }

  /** Some row naming no account, or the account, has a suffix whose name the sender is under. */
  predicate RowRestricts(rows: seq<Row>, account: string, sender: string, l: Lookups) {
    exists i :: 0 <= i < |rows| && (rows[i].account == "" || rows[i].account == account)
                && IsUnderOne(rows[i].suffixes, sender, l)
  }

  lemma KeptRuleMatches(rows: seq<Row>, account: string, scope: Scope, rules: seq<Rule>, sender: string, l: Lookups)
    requires KeepsRows(rows, account, scope, rules)
    ensures (exists r <- rules :: Matches(sender, r, l)) <==>
            exists i :: 0 <= i < |rows| && rows[i].account == account && IsUnderOne(rows[i].suffixes, sender, l)
  {
    forall r ensures Matches(sender, r, l) <==> IsUnderOne(r.suffixes, sender, l) { }
    hide Matches, IsUnderOne;
    var at: seq<nat> :| RulesAt(rows, account, scope, at, rules);
    if i :| 0 <= i < |rows| && rows[i].account == account && IsUnderOne(rows[i].suffixes, sender, l) {
      var k :| 0 <= k < |at| && at[k] == i;
      assert Matches(sender, rules[k], l);
    }
    if r :| r in rules && Matches(sender, r, l) {
      var k :| 0 <= k < |rules| && rules[k] == r;
      assert at[k] in at;
      assert IsUnderOne(rows[at[k]].suffixes, sender, l);
    }
  }

  /** Of a snapshot built from rows, a sender is normal for an account exactly when its name can be read
      and no row that names no account, or that one, has a suffix whose name the sender is under. */
  lemma NormalFromRows(s: Snapshot, rows: seq<Row>, account: string, address: string, l: Lookups)
    requires BuiltFrom(s, rows) && account != ""
    ensures IsNormal(For(s, account), address, l) <==>
            Sender(address, l).Some? && !RowRestricts(rows, account, Sender(address, l).value, l)
  {
    if Sender(address, l).Some? {
      var sender := Sender(address, l).value;
      BuiltKeepsRows(s, rows, account);
      KeptRuleMatches(rows, "", BaseScope, s.base, sender, l);
      KeptRuleMatches(rows, account, AccountScope, Overlay(s, account), sender, l);
      assert s.loaded;
      hide BuiltFrom, KeepsRows, Matches, Under, SuffixName, Overlay, Sender;
    }
  }

  // ---------------------------------------------------------------- what a name's writing makes no difference to

  /** Names are read alike however they are cased. */
  ghost predicate CaseBlind(l: Lookups) {
    forall d, e | l.lower(d) == l.lower(e) ::
      && (l.toUnicode(d).Some? <==> l.toUnicode(e).Some?)
      && (l.toUnicode(d).Some? ==> l.lower(l.toUnicode(d).value) == l.lower(l.toUnicode(e).value))
  }

  predicate Undotted(d: string) {
    d != "" && d[|d| - 1] != '.'
  }

  /** Two writings of a domain that differ in case, in one trailing dot, or in both. */
  ghost predicate WrittenAlike(d: string, e: string, l: Lookups) {
    exists x, y :: Undotted(x) && Undotted(y) && l.lower(x) == l.lower(y) && (d == x || d == x + ".")
                   && (e == y || e == y + ".")
  }

  lemma NormalizedOf(d: string, x: string, l: Lookups)
    requires Undotted(x) && (d == x || d == x + ".")
    ensures Normalize(d, l)
            == if l.toUnicode(x).None? then None else Some(l.lower(l.toUnicode(x).value))
  {
    assert d == x + "." ==> d[|d| - 1] == '.' && d[..|d| - 1] == x;
  }

  /** A domain's name is the same however it is cased and with a trailing dot or without, and so is that of
      a suffix that can be decoded. */
  lemma WritingIsNothing(d: string, e: string, l: Lookups)
    requires CaseBlind(l) && WrittenAlike(d, e, l)
    ensures SenderName(d, l) == SenderName(e, l)
    ensures Normalize(d, l).Some? ==> SuffixName(d, l) == SuffixName(e, l)
    ensures Undotted(d) && Undotted(e) ==> SuffixName(d, l) == SuffixName(e, l)
  {
    var x, y :| Undotted(x) && Undotted(y) && l.lower(x) == l.lower(y) && (d == x || d == x + ".")
                && (e == y || e == y + ".");
    NormalizedOf(d, x, l);
    NormalizedOf(e, y, l);
    hide Normalize;
  }

  /** A suffix that cannot be decoded keeps its dot, so there a trailing one does make a difference unless
      lower-casing loses it. */
  lemma UndecodableKeepsItsDot(d: string, l: Lookups)
    requires Undotted(d) && l.toUnicode(d).None?
    ensures SuffixName(d, l) == SuffixName(d + ".", l) <==> l.lower(d) == l.lower(d + ".")
  {
    NormalizedOf(d, d, l);
    NormalizedOf(d + ".", d, l);
    hide Normalize;
  }

  lemma LastAtIs(s: string, k: nat)
    requires k < |s| && s[k] == '@' && forall j | k < j < |s| :: s[j] != '@'
    ensures LastAt(s) == k
  {
    hide LastAt;
    assert s[k] in s;
  }

  lemma LastAtOf(head: string, domain: string)
    requires '@' !in domain
    ensures LastAt(head + "@" + domain) == |head|
  {
    var s := head + "@" + domain;
    assert s[|head|] == "@"[0] == '@';
    forall j | |head| < j < |s| ensures s[j] != '@' {
      assert s[j] == domain[j - |head| - 1] && s[j] in domain;
    }
    LastAtIs(s, |head|);
  }

  /** What an address is read as: the domain after its last at sign, without one trailing dot, in lower-case
      Unicode, if all three lookups know it. An address with no at sign or no domain is not read. */
  lemma SenderReadExactly(head: string, d: string, x: string, l: Lookups)
    requires '@' !in d && (d == x + "." || (d == x && (x == "" || x[|x| - 1] != '.')))
    ensures Sender(d, l) == None
    ensures Sender(head + "@" + d, l)
            == if x == "" || l.toUnicode(x).None? then None
               else
                 var name := l.lower(l.toUnicode(x).value);
                 if l.toASCII(name).Some? && l.registrable(l.toASCII(name).value).Some? then Some(name) else None
  {
    LastAtOf(head, d);
    var a := head + "@" + d;
    assert a[|head| + 1..] == d;
    assert d == x + "." ==> d[|d| - 1] == '.' && d[..|d| - 1] == x;
    assert LastAt(d) == |d|;
    hide LastAt;
  }

  /** So two addresses at one domain, however it is written, meet the same verdict under every policy. */
  lemma SendersWrittenAlike(c: Composed, head: string, head': string, d: string, e: string, l: Lookups)
    requires CaseBlind(l) && WrittenAlike(d, e, l) && '@' !in d && '@' !in e
    ensures Sender(head + "@" + d, l) == Sender(head' + "@" + e, l)
    ensures IsNormal(c, head + "@" + d, l) <==> IsNormal(c, head' + "@" + e, l)
  {
    LastAtOf(head, d);
    LastAtOf(head', e);
    var a, b := head + "@" + d, head' + "@" + e;
    assert a[|head| + 1..] == d && b[|head'| + 1..] == e;
    WritingIsNothing(d, e, l);
    hide SenderName, LastAt;
  }

  /** And two rules whose suffixes are the same domains, each of which can be decoded, restrict the same
      senders. */
  lemma RulesWrittenAlike(r: Rule, q: Rule, sender: string, l: Lookups)
    requires CaseBlind(l) && |r.suffixes| == |q.suffixes|
    requires forall i | 0 <= i < |r.suffixes| ::
               WrittenAlike(r.suffixes[i], q.suffixes[i], l) && Normalize(r.suffixes[i], l).Some?
    ensures Matches(sender, r, l) <==> Matches(sender, q, l)
  {
    forall i | 0 <= i < |r.suffixes| ensures SuffixName(r.suffixes[i], l) == SuffixName(q.suffixes[i], l) {
      WritingIsNothing(r.suffixes[i], q.suffixes[i], l);
    }
    hide SuffixName, Under;
    if Matches(sender, r, l) {
      var i :| 0 <= i < |r.suffixes| && Under(sender, SuffixName(r.suffixes[i], l));
      assert q.suffixes[i] in q.suffixes;
    }
    if Matches(sender, q, l) {
      var i :| 0 <= i < |q.suffixes| && Under(sender, SuffixName(q.suffixes[i], l));
      assert r.suffixes[i] in r.suffixes;
    }
  }

  // ---------------------------------------------------------------- what a suffix is shaped like

  /** No empty label: no dot at either end and no two together. */
  predicate DotsApart(s: string) {
    s != "" && s[0] != '.' && s[|s| - 1] != '.' && forall i | 0 <= i < |s| - 1 :: !(s[i] == '.' && s[i + 1] == '.')
  }

  lemma DotsApartCut(a: string, rest: string)
    requires '.' !in a
    ensures DotsApart(a + "." + rest) <==> a != "" && DotsApart(rest)
  {
    var s := a + "." + rest;
    assert s[|a|] == '.';
    assert forall j | 0 <= j < |rest| :: s[|a| + 1 + j] == rest[j];
    if DotsApart(rest) && a != "" {
      forall i | 0 <= i < |s| - 1 ensures !(s[i] == '.' && s[i + 1] == '.') {
        if i < |a| {
          assert s[i] == a[i];
        } else if i > |a| {
          assert s[i] == rest[i - |a| - 1] && s[i + 1] == rest[i - |a|];
        }
      }
    }
    assert rest == "" ==> s[|s| - 1] == '.';
    if DotsApart(s) {
      assert rest != "" ==> s[|a| + 1] == rest[0];
      forall i | 0 <= i < |rest| - 1 ensures !(rest[i] == '.' && rest[i + 1] == '.') {
        assert rest[i] == s[|a| + 1 + i] && rest[i + 1] == s[|a| + 1 + i + 1];
      }
    }
  }

  predicate LabelShaped(s: string, t: Tables) {
    s != "" && forall c <- s :: t.labelCharacter(c)
  }

  lemma ValidIsLabelShaped(s: string, t: Tables)
    ensures ValidSuffix(s, t) <==> s != "" && forall l <- PathNames.Split(s, ".") :: LabelShaped(l, t)
  {
    hide PathNames.Split;
    if s != "" && !ValidSuffix(s, t) {
      var l :| l in PathNames.Split(s, ".") && !(l != "" && forall c <- l :: t.labelCharacter(c));
      assert !LabelShaped(l, t);
    }
  }

  lemma OneLabel(s: string, t: Tables)
    requires '.' !in s
    ensures ValidSuffix(s, t) <==> LabelShaped(s, t)
  {
    forall j | 0 <= j < |s| ensures !PathNames.At(s, ".", j) {
      assert s[j] in s && s[j + 0] != "."[0];
    }
    PathNames.FirstIs(s, ".", |s|);
    assert PathNames.Split(s, ".") == [s];
    ValidIsLabelShaped(s, t);
  }

  lemma FirstLabel(a: string, rest: string, t: Tables)
    requires '.' !in a
    ensures ValidSuffix(a + "." + rest, t) <==> LabelShaped(a, t) && ValidSuffix(rest, t)
  {
    var s := a + "." + rest;
    ValidIsLabelShaped(s, t);
    ValidIsLabelShaped(rest, t);
    FirstCut(a, rest);
    if rest == "" {
      assert PathNames.Split(rest, ".") == [""] && !LabelShaped("", t);
    }
    hide PathNames.Split, ValidSuffix, LabelShaped;
    var labels := PathNames.Split(rest, ".");
    assert forall l :: l in [a] + labels <==> l == a || l in labels;
  }

  lemma FirstCut(a: string, rest: string)
    requires '.' !in a
    ensures PathNames.Split(a + "." + rest, ".") == [a] + PathNames.Split(rest, ".")
  {
    var s := a + "." + rest;
    assert s[|a| + 0] == "."[0] && PathNames.At(s, ".", |a|);
    forall j | 0 <= j < |a| ensures !PathNames.At(s, ".", j) {
      assert s[j + 0] == a[j] && "."[0] == '.';
    }
    PathNames.FirstIs(s, ".", |a|);
    assert s[..|a|] == a && s[|a| + 1..] == rest;
  }

  /** A suffix is valid exactly when it holds only label characters and dots, and no label is empty. */
  lemma {:induction false} ValidSuffixExactly(s: string, t: Tables)
    requires Sound(t)
    ensures ValidSuffix(s, t) <==> DotsApart(s) && forall c <- s :: c == '.' || t.labelCharacter(c)
    decreases |s|
  {
    if '.' !in s {
      OneLabel(s, t);
      hide ValidSuffix;
    } else {
      var k :| 0 <= k < |s| && s[k] == '.' && '.' !in s[..k] by { FirstDot(s); }
      var a, rest := s[..k], s[k + 1..];
      assert s == a + "." + rest;
      ValidSuffixExactly(rest, t);
      FirstLabel(a, rest, t);
      DotsApartCut(a, rest);
      hide ValidSuffix, DotsApart;
      assert forall c :: c in s <==> c in a || c == '.' || c in rest;
    }
  }

  lemma {:induction false} FirstDot(s: string)
    requires '.' in s
    ensures exists k :: 0 <= k < |s| && s[k] == '.' && '.' !in s[..k]
    decreases |s|
  {
    var init := s[..|s| - 1];
    assert s == init + [s[|s| - 1]];
    if '.' in init {
      FirstDot(init);
      var k :| 0 <= k < |init| && init[k] == '.' && '.' !in init[..k];
      assert s[k] == '.' && s[..k] == init[..k];
    } else {
      assert s[..|s| - 1] == init;
    }
  }
}
