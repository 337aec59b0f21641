/** The policy rules: validation, composition, the swap and equality by value (core/policy/policy.go). */
module Policy {
  import opened Wrappers
  import opened Quoting
  import PathNames
  import SearchText
  import TextOrder

  const RESTRICTED := "restricted"

  datatype Row = Row(account: string, id: string, kind: string, suffixes: seq<string>)

  datatype Scope = BaseScope | AccountScope

  datatype Rule = Rule(id: string, suffixes: seq<string>, scope: Scope)

  datatype Snapshot = Snapshot(loaded: bool, base: seq<Rule>, overlays: map<string, seq<Rule>>)

  /** The zero value, not loaded, restricts every sender. */
  datatype Composed = Composed(loaded: bool, rules: seq<Rule>)

  const NO_SNAPSHOT := Snapshot(false, [], map[])
  const NO_POLICY := Composed(false, [])

  /** The Unicode tables validation reads: which characters a label may hold, letters, digits, marks and the hyphen,
      and which are space. */
  datatype Tables = Tables(labelCharacter: char -> bool, space: char -> bool)

  ghost predicate Sound(t: Tables) {
    !t.labelCharacter(' ') && !t.labelCharacter('.')
  }

  // ---------------------------------------------------------------- validation

  datatype ProblemKind = BlankIdentifier | RepeatedIdentifier | OtherClass | NoSuffix | InvalidSuffix

  datatype Problem = Problem(row: nat, kind: ProblemKind, suffix: string)

  predicate Blank(id: string, t: Tables) {
    id == "" || t.space(id[0]) || t.space(id[|id| - 1])
  }

  predicate ValidSuffix(suffix: string, t: Tables) {
    suffix != "" && forall l <- PathNames.Split(suffix, ".") :: l != "" && forall c <- l :: t.labelCharacter(c)
  }

  predicate Repeats(rows: seq<Row>, i: nat)
    requires i < |rows|
  {
    exists j | 0 <= j < i :: rows[j].account == rows[i].account && rows[j].id == rows[i].id
  }

  /** What is wrong with a row. */
  predicate Fails(rows: seq<Row>, p: Problem, t: Tables) {
    p.row < |rows| &&
    var row := rows[p.row];
    match p.kind
    case BlankIdentifier => Blank(row.id, t) && p.suffix == ""
    case RepeatedIdentifier => Repeats(rows, p.row) && p.suffix == ""
    case OtherClass => row.kind != RESTRICTED && p.suffix == ""
    case NoSuffix => row.suffixes == [] && p.suffix == ""
    case InvalidSuffix => p.suffix in row.suffixes && !ValidSuffix(p.suffix, t)
  }

  predicate ValidRows(rows: seq<Row>, t: Tables) {
    && (forall r <- rows ::
          !Blank(r.id, t) && r.kind == RESTRICTED && r.suffixes != [] && forall s <- r.suffixes :: ValidSuffix(s, t))
    && forall i, j :: 0 <= i < j < |rows| ==> !(rows[i].account == rows[j].account && rows[i].id == rows[j].id)
  }

  lemma SeenRepeats(rows: seq<Row>, i: nat, seen: set<(string, string)>)
    requires i < |rows| && seen == set j | 0 <= j < i :: (rows[j].account, rows[j].id)
    ensures (rows[i].account, rows[i].id) in seen <==> Repeats(rows, i)
  {
  }

  lemma Appended(a: seq<Problem>, b: seq<Problem>, i: nat)
    requires forall x, y :: 0 <= x < y < |a| ==> a[x].row <= a[y].row
    requires (forall p <- a :: p.row < i) && forall p <- b :: p.row == i
    ensures forall x, y :: 0 <= x < y < |a + b| ==> (a + b)[x].row <= (a + b)[y].row
  {
    forall x, y | 0 <= x < y < |a + b| ensures (a + b)[x].row <= (a + b)[y].row {
      if x < |a| <= y {
        assert a[x] in a && b[y - |a|] in b;
      } else if |a| <= x {
        assert b[x - |a|] in b && b[y - |a|] in b;
      }
    }
  }

  method ValidateRow(rows: seq<Row>, i: nat, repeats: bool, t: Tables) returns (found: seq<Problem>)
    requires i < |rows| && (repeats <==> Repeats(rows, i))
    ensures forall p :: p in found <==> p.row == i && Fails(rows, p, t)
  {
    hide Blank, ValidSuffix, Repeats;
    var row := rows[i];
    found := [];
    if Blank(row.id, t) {
      found := found + [Problem(i, BlankIdentifier, "")];
    }
    if repeats {
      found := found + [Problem(i, RepeatedIdentifier, "")];
    }
    if row.kind != RESTRICTED {
      found := found + [Problem(i, OtherClass, "")];
    }
    if row.suffixes == [] {
      found := found + [Problem(i, NoSuffix, "")];
    }
    var invalid: seq<Problem> := [];
    for k := 0 to |row.suffixes|
      invariant forall p :: p in invalid <==>
                  p.row == i && p.kind == InvalidSuffix && p.suffix in row.suffixes[..k] && !ValidSuffix(p.suffix, t)
    {
      assert row.suffixes[..k + 1] == row.suffixes[..k] + [row.suffixes[k]];
      if !ValidSuffix(row.suffixes[k], t) {
        invalid := invalid + [Problem(i, InvalidSuffix, row.suffixes[k])];
      }
    }
    assert row.suffixes[..|row.suffixes|] == row.suffixes;
    found := found + invalid;
  }

  /** Every problem of every row is found and nothing else, in row order. */
  method Validate(rows: seq<Row>, t: Tables) returns (problems: seq<Problem>)
    ensures forall p :: p in problems <==> Fails(rows, p, t)
    ensures forall a, b :: 0 <= a < b < |problems| ==> problems[a].row <= problems[b].row
  {
    hide Blank, ValidSuffix;
    problems := [];
    var seen := {};
    for i := 0 to |rows|
      invariant forall p :: p in problems <==> p.row < i && Fails(rows, p, t)
      invariant forall a, b :: 0 <= a < b < |problems| ==> problems[a].row <= problems[b].row
      invariant seen == set j | 0 <= j < i :: (rows[j].account, rows[j].id)
    {
      var key := (rows[i].account, rows[i].id);
      SeenRepeats(rows, i, seen);
      var found := ValidateRow(rows, i, key in seen, t);
      Appended(problems, found, i);
      problems := problems + found;
      seen := seen + {key};
    }
  }

  /** There is no problem exactly when the rows are valid. */
  lemma NoProblemExactly(rows: seq<Row>, t: Tables)
    ensures (forall p :: !Fails(rows, p, t)) <==> ValidRows(rows, t)
  {
    hide Blank, ValidSuffix;
    if forall p :: !Fails(rows, p, t) {
      forall r <- rows
        ensures !Blank(r.id, t) && r.kind == RESTRICTED && r.suffixes != []
                && forall s <- r.suffixes :: ValidSuffix(s, t)
      {
        var i :| 0 <= i < |rows| && rows[i] == r;
        assert !Fails(rows, Problem(i, BlankIdentifier, ""), t) && !Fails(rows, Problem(i, OtherClass, ""), t);
        assert !Fails(rows, Problem(i, NoSuffix, ""), t);
        forall s <- r.suffixes ensures ValidSuffix(s, t) {
          assert !Fails(rows, Problem(i, InvalidSuffix, s), t);
        }
      }
      forall i, j | 0 <= i < j < |rows|
        ensures !(rows[i].account == rows[j].account && rows[i].id == rows[j].id)
      {
        assert !Fails(rows, Problem(j, RepeatedIdentifier, ""), t);
      }
    } else {
      var p :| Fails(rows, p, t);
      assert rows[p.row] in rows;
    }
  }

  // ---------------------------------------------------------------- building and composing

  function Own(rows: seq<Row>, account: string): seq<Row> {
    if rows == [] then []
    else
      var earlier, last := Own(rows[..|rows| - 1], account), rows[|rows| - 1];
      if last.account == account then earlier + [last] else earlier
  }

  function RulesOf(rows: seq<Row>, scope: Scope): seq<Rule> {
    seq(|rows|, i requires 0 <= i < |rows| => Rule(rows[i].id, rows[i].suffixes, scope))
  }

  function Overlay(s: Snapshot, account: string): seq<Rule> {
    if account in s.overlays then s.overlays[account] else []
  }

  /** The base rules are the rows that name no account, each overlay its account's, in their order. */
  ghost predicate BuiltFrom(s: Snapshot, rows: seq<Row>) {
    && s.loaded
    && s.base == RulesOf(Own(rows, ""), BaseScope)
    && forall account :: account != "" ==> Overlay(s, account) == RulesOf(Own(rows, account), AccountScope)
  }

  /** Each rule has its row's identifier and every one of its suffixes, in the order of the rows at these
      indexes, which are exactly those that name the account. */
  predicate RulesAt(rows: seq<Row>, account: string, scope: Scope, at: seq<nat>, rules: seq<Rule>) {
    && Increasing(at) && |rules| == |at|
    && (forall i: nat | i < |rows| :: i in at <==> rows[i].account == account)
    && (forall k | 0 <= k < |at| ::
          at[k] < |rows| && rules[k] == Rule(rows[at[k]].id, rows[at[k]].suffixes, scope))
  }

  ghost predicate KeepsRows(rows: seq<Row>, account: string, scope: Scope, rules: seq<Rule>) {
    exists at: seq<nat> :: RulesAt(rows, account, scope, at, rules)
  }

  lemma RulesAtMore(rows: seq<Row>, account: string, scope: Scope, at: seq<nat>, rules: seq<Rule>)
    requires rows != [] && RulesAt(rows[..|rows| - 1], account, scope, at, rules)
    ensures var n := |rows| - 1;
            if rows[n].account == account
            then RulesAt(rows, account, scope, at + [n], rules + [Rule(rows[n].id, rows[n].suffixes, scope)])
            else RulesAt(rows, account, scope, at, rules)
  {
    var n := |rows| - 1;
    var init := rows[..n];
    assert forall i | 0 <= i < n :: init[i] == rows[i];
    assert n !in at;
    if rows[n].account == account {
      var more: seq<nat> := at + [n];
      assert forall i :: i in more <==> i in at || i == n;
    }
  }

  lemma {:induction false} RulesKeepRows(rows: seq<Row>, account: string, scope: Scope) returns (at: seq<nat>)
    ensures RulesAt(rows, account, scope, at, RulesOf(Own(rows, account), scope))
    decreases |rows|
  {
    if rows == [] {
      at := [];
    } else {
      var n := |rows| - 1;
      at := RulesKeepRows(rows[..n], account, scope);
      RulesAtMore(rows, account, scope, at, RulesOf(Own(rows[..n], account), scope));
      hide RulesAt;
      var before, rule := RulesOf(Own(rows[..n], account), scope), Rule(rows[n].id, rows[n].suffixes, scope);
      if rows[n].account == account {
        at := at + [n];
        assert RulesOf(Own(rows, account), scope) == before + [rule];
      }
    }
  }

  /** What a snapshot built from rows holds, said over the rows. */
  lemma BuiltKeepsRows(s: Snapshot, rows: seq<Row>, account: string)
    requires BuiltFrom(s, rows) && account != ""
    ensures KeepsRows(rows, "", BaseScope, s.base) && KeepsRows(rows, account, AccountScope, Overlay(s, account))
  {
    hide RulesAt, RulesOf, Own;
    var base := RulesKeepRows(rows, "", BaseScope);
    var own := RulesKeepRows(rows, account, AccountScope);
  }

  method Build(rows: seq<Row>) returns (s: Snapshot)
    ensures BuiltFrom(s, rows)
    ensures KeepsRows(rows, "", BaseScope, s.base)
    ensures forall account :: account != "" ==> KeepsRows(rows, account, AccountScope, Overlay(s, account))
  {
    s := Snapshot(true, [], map[]);
    for i := 0 to |rows|
      invariant BuiltFrom(s, rows[..i])
    {
      var row := rows[i];
      assert rows[..i + 1][..i] == rows[..i];
      if row.account == "" {
        s := s.(base := s.base + [Rule(row.id, row.suffixes, BaseScope)]);
      } else {
        var rules := Overlay(s, row.account) + [Rule(row.id, row.suffixes, AccountScope)];
        s := s.(overlays := s.overlays[row.account := rules]);
      }
      forall account | account != "" && account != row.account
        ensures Own(rows[..i + 1], account) == Own(rows[..i], account)
      {
      }
    }
    assert rows[..|rows|] == rows;
    BuiltKeepsRows(s, rows, "account");
    forall account | account != "" ensures KeepsRows(rows, account, AccountScope, Overlay(s, account)) {
      BuiltKeepsRows(s, rows, account);
    }
  }

  function For(s: Snapshot, account: string): Composed {
    if !s.loaded || account == "" then NO_POLICY else Composed(true, s.base + Overlay(s, account))
  }

  method Load(rows: seq<Row>, t: Tables) returns (s: Snapshot, problems: seq<Problem>)
    ensures problems == [] <==> ValidRows(rows, t)
    ensures BuiltFrom(s, rows)
  {
    problems := Validate(rows, t);
    NoProblemExactly(rows, t);
    if problems != [] {
      assert problems[0] in problems;
    }
    s := Build(rows);
  }

  method Swap(active: Snapshot, rows: seq<Row>, t: Tables) returns (next: Snapshot, accepted: bool)
    ensures accepted <==> ValidRows(rows, t)
    ensures if accepted then BuiltFrom(next, rows) else next == active
  {
    hide ValidRows, BuiltFrom;
    var s, problems := Load(rows, t);
    if |problems| > 0 {
      return active, false;
    }
    next, accepted := s, true;
  }

  // ---------------------------------------------------------------- equality by value

  function Entry(r: Rule, printable: Printable): string {
    Quote(r.id, printable) + " " + SearchText.Join(TextOrder.Sorted(r.suffixes), " ")
  }

  function Entries(rules: seq<Rule>, printable: Printable): seq<string> {
    seq(|rules|, i requires 0 <= i < |rules| => Entry(rules[i], printable))
  }

  method Canonical(rules: seq<Rule>, printable: Printable) returns (out: seq<string>)
    ensures out == TextOrder.Sorted(Entries(rules, printable))
  {
    out := [];
    for i := 0 to |rules|
      invariant out == Entries(rules[..i], printable)
    {
      out := out + [Quote(rules[i].id, printable) + " " + SearchText.Join(TextOrder.Sorted(rules[i].suffixes), " ")];
    }
    assert rules[..|rules|] == rules;
    out := TextOrder.Sorted(out);
  }

  /** A rule apart from its scope and the order of its suffixes. */
  type Content = (string, multiset<string>)

  function ContentOf(r: Rule): Content {
    (r.id, multiset(r.suffixes))
  }

  function Contents(rules: seq<Rule>): seq<Content> {
    seq(|rules|, i requires 0 <= i < |rules| => ContentOf(rules[i]))
  }

  /** What validation leaves a rule: at least one suffix, and none with a space. */
  predicate Spaceless(r: Rule) {
    r.suffixes != [] && forall s <- r.suffixes :: ' ' !in s
  }

  predicate Composable(c: Composed) {
    (!c.loaded ==> c.rules == []) && forall r <- c.rules :: Spaceless(r)
  }

  lemma SpacelessDecodable(a: seq<string>)
    requires a != [] && forall s <- a :: ' ' !in s
    ensures PathNames.Decodable(a, " ")
  {
    forall i, j | 0 <= i < |a| && 0 <= j < |a[i]|
      ensures !PathNames.At(a[i] + " ", " ", j) && !PathNames.At(a[i], " ", j)
    {
      assert a[i] in a && a[i][j] in a[i];
      assert (a[i] + " ")[j + 0] == a[i][j] == a[i][j + 0] && " "[0] == ' ';
    }
  }

  lemma SuffixesJoin(a: seq<string>, b: seq<string>)
    requires a != [] && b != [] && (forall s <- a :: ' ' !in s) && (forall s <- b :: ' ' !in s)
    requires SearchText.Join(a, " ") == SearchText.Join(b, " ")
    ensures a == b
  {
    SpacelessDecodable(a);
    SpacelessDecodable(b);
    PathNames.SplitOfJoin(a, " ");
    PathNames.SplitOfJoin(b, " ");
  }

  lemma SortedSpaceless(r: Rule)
    requires Spaceless(r)
    ensures TextOrder.Sorted(r.suffixes) != [] && forall s <- TextOrder.Sorted(r.suffixes) :: ' ' !in s
  {
    var sorted := TextOrder.Sorted(r.suffixes);
    TextOrder.SortedSorts(r.suffixes);
    assert |multiset(sorted)| == |multiset(r.suffixes)|;
    forall s <- sorted ensures ' ' !in s {
      assert s in multiset(sorted);
      assert s in r.suffixes;
    }
  }

  /** Two rules are written alike exactly when they have the same content. */
  lemma EntryDecides(r: Rule, q: Rule, printable: Printable)
    requires Spaceless(r) && Spaceless(q)
    ensures Entry(r, printable) == Entry(q, printable) <==> ContentOf(r) == ContentOf(q)
  {
    hide Quote, SearchText.Join, TextOrder.Sorted;
    var a, b := TextOrder.Sorted(r.suffixes), TextOrder.Sorted(q.suffixes);
    TextOrder.SortedIsCanonical(r.suffixes, q.suffixes);
    SortedSpaceless(r);
    SortedSpaceless(q);
    if Entry(r, printable) == Entry(q, printable) {
      var x, y := " " + SearchText.Join(a, " "), " " + SearchText.Join(b, " ");
      assert Entry(r, printable) == Quote(r.id, printable) + x && Entry(q, printable) == Quote(q.id, printable) + y;
      QuoteDelimits(r.id, q.id, x, y, printable);
      assert x[1..] == SearchText.Join(a, " ") && y[1..] == SearchText.Join(b, " ");
      SuffixesJoin(a, b);
    }
  }

  /** Items f sees alike g sees alike. */
  predicate Finer<T, A(==), B(==)>(f: T -> A, g: T -> B, a: seq<T>, b: seq<T>) {
    forall i, j | 0 <= i < |a| && 0 <= j < |b| :: f(a[i]) == f(b[j]) ==> g(a[i]) == g(b[j])
  }

  function Mapped<T, A>(f: T -> A, s: seq<T>): seq<A> {
    seq(|s|, i requires 0 <= i < |s| => f(s[i]))
  }

  function Drop<T>(s: seq<T>, j: nat): (r: seq<T>)
    requires j < |s|
    ensures |r| == |s| - 1
  {
    s[..j] + s[j + 1..]
  }

  lemma FinerStill<T, A, B>(f: T -> A, g: T -> B, a: seq<T>, b: seq<T>, j: nat)
    requires Finer(f, g, a, b) && a != [] && j < |b|
    ensures Finer(f, g, Drop(a, 0), Drop(b, j))
  {
    var x, y := Drop(a, 0), Drop(b, j);
    forall i, k | 0 <= i < |x| && 0 <= k < |y| && f(x[i]) == f(y[k])
      ensures g(x[i]) == g(y[k])
    {
      assert x[i] == a[i + 1] && y[k] == if k < j then b[k] else b[k + 1];
    }
  }

  lemma Match<T, A>(f: T -> A, a: seq<T>, b: seq<T>) returns (j: nat)
    requires a != [] && multiset(Mapped(f, a)) == multiset(Mapped(f, b))
    ensures j < |b| && f(b[j]) == f(a[0])
  {
    assert Mapped(f, a)[0] in multiset(Mapped(f, b));
    j :| 0 <= j < |b| && Mapped(f, b)[j] == f(a[0]);
  }

  lemma Without<T, A>(f: T -> A, s: seq<T>, j: nat)
    requires j < |s|
    ensures multiset(Mapped(f, s)) == multiset{f(s[j])} + multiset(Mapped(f, Drop(s, j)))
  {
    var m := Mapped(f, s);
    assert Mapped(f, Drop(s, j)) == m[..j] + m[j + 1..];
    assert m == m[..j] + [m[j]] + m[j + 1..];
  }

  /** Equal groups stay equal, or come to be, when one item seen alike leaves, or joins, both. */
  lemma DropAlike<T, A>(f: T -> A, a: seq<T>, b: seq<T>, i: nat, j: nat)
    requires i < |a| && j < |b| && f(a[i]) == f(b[j])
    ensures multiset(Mapped(f, a)) == multiset(Mapped(f, b))
            <==> multiset(Mapped(f, Drop(a, i))) == multiset(Mapped(f, Drop(b, j)))
  {
    hide Mapped, Drop;
    Without(f, a, i);
    Without(f, b, j);
    var x, y := multiset(Mapped(f, Drop(a, i))), multiset(Mapped(f, Drop(b, j)));
    assert multiset(Mapped(f, a)) - multiset{f(a[i])} == x && multiset(Mapped(f, b)) - multiset{f(b[j])} == y;
  }

  /** Two ways of seeing items that tell the same items apart group any two lists alike. */
  lemma {:induction false} GroupedAlike<T, A, B>(f: T -> A, g: T -> B, a: seq<T>, b: seq<T>)
    requires Finer(f, g, a, b)
    requires multiset(Mapped(f, a)) == multiset(Mapped(f, b))
    ensures multiset(Mapped(g, a)) == multiset(Mapped(g, b))
    decreases |a|
  {
    if a == [] {
      assert |Mapped(f, b)| == |multiset(Mapped(f, b))| == |multiset(Mapped(f, a))| == 0;
    } else {
      var j := Match(f, a, b);
      assert g(a[0]) == g(b[j]);
      hide Mapped, Finer, Drop;
      FinerStill(f, g, a, b, j);
      DropAlike(f, a, b, 0, j);
      DropAlike(g, a, b, 0, j);
      GroupedAlike(f, g, Drop(a, 0), Drop(b, j));
    }
  }

  lemma CanonicalDecides(a: seq<Rule>, b: seq<Rule>, printable: Printable)
    requires (forall r <- a :: Spaceless(r)) && (forall r <- b :: Spaceless(r))
    ensures TextOrder.Sorted(Entries(a, printable)) == TextOrder.Sorted(Entries(b, printable))
            <==> multiset(Contents(a)) == multiset(Contents(b))
  {
    hide Entry, ContentOf, TextOrder.Sorted, Spaceless;
    var f, g := (r: Rule) => Entry(r, printable), (r: Rule) => ContentOf(r);
    TextOrder.SortedIsCanonical(Entries(a, printable), Entries(b, printable));
    forall x, y | x in a && y in b ensures f(x) == f(y) <==> g(x) == g(y) {
      EntryDecides(x, y, printable);
    }
    assert Finer(f, g, a, b) && Finer(g, f, a, b);
    assert Mapped(f, a) == Entries(a, printable) && Mapped(f, b) == Entries(b, printable);
    assert Mapped(g, a) == Contents(a) && Mapped(g, b) == Contents(b);
    if multiset(Mapped(f, a)) == multiset(Mapped(f, b)) {
      GroupedAlike(f, g, a, b);
    }
    if multiset(Mapped(g, a)) == multiset(Mapped(g, b)) {
      GroupedAlike(g, f, a, b);
    }
  }

  /** Two policies are equal exactly when both restrict every sender, or both are loaded with the same rules,
      whatever the order of the rules and of each rule's suffixes. */
  method Equal(c: Composed, o: Composed, printable: Printable) returns (equal: bool)
    requires Composable(c) && Composable(o)
    ensures equal <==> c.loaded == o.loaded && (c.loaded ==> multiset(Contents(c.rules)) == multiset(Contents(o.rules)))
  {
    if c.loaded != o.loaded {
      return false;
    }
    var a := Canonical(c.rules, printable);
    var b := Canonical(o.rules, printable);
    CanonicalDecides(c.rules, o.rules, printable);
    equal := a == b;
  }

  lemma {:induction false} OwnRows(rows: seq<Row>, account: string, r: Row)
    ensures r in Own(rows, account) <==> r in rows && r.account == account
  {
    if rows == [] {
    } else {
      OwnRows(rows[..|rows| - 1], account, r);
      assert rows == rows[..|rows| - 1] + [rows[|rows| - 1]];
    }
  }

  lemma {:induction false} JoinSpaceless(parts: seq<string>)
    requires forall p <- parts :: ' ' !in p
    ensures ' ' !in SearchText.Join(parts, ".")
  {
    if |parts| <= 1 {
    } else {
      JoinSpaceless(parts[1..]);
    }
  }

  lemma ValidIsSpaceless(suffix: string, t: Tables)
    requires ValidSuffix(suffix, t) && Sound(t)
    ensures ' ' !in suffix
  {
    var parts := PathNames.Split(suffix, ".");
    PathNames.JoinOfSplit(suffix, ".");
    assert forall p <- parts :: ' ' !in p;
    JoinSpaceless(parts);
  }

  /** Every policy composed from a valid load may be compared. */
  lemma ValidIsComposable(s: Snapshot, rows: seq<Row>, account: string, t: Tables)
    requires BuiltFrom(s, rows) && ValidRows(rows, t) && Sound(t)
    ensures Composable(For(s, account))
  {
    hide ValidSuffix, Own;
    forall r <- For(s, account).rules ensures Spaceless(r) {
      if account != "" {
        var name := if r in s.base then "" else account;
        var own := Own(rows, name);
        var i :| 0 <= i < |own| && own[i].suffixes == r.suffixes;
        OwnRows(rows, name, own[i]);
        forall x <- r.suffixes ensures ' ' !in x { ValidIsSpaceless(x, t); }
      }
    }
  }
}
