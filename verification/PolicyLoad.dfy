/** Reading the policy tables, one transaction an account, and swapping in what was read
    (executioncontext/policyload/load.go). */
module PolicyLoad {
  import opened Wrappers
  import opened Policy
  import opened Classify
  import opened PolicyRules
  import TextOrder

  /** A row as a transaction returns it, a base rule when it names no account. */
  datatype DbRow = DbRow(account: Option<string>, id: string, kind: string, suffixes: seq<string>)

  function ToRow(r: DbRow): Row {
    Row(if r.account.Some? then r.account.value else "", r.id, r.kind, r.suffixes)
  }

  /** What each account's transaction returns on the first and on the second read, none for an error. Edits may land
      between any two of them. */
  type Reads = (nat, string) -> Option<seq<DbRow>>

  function Inherited(rows: seq<DbRow>): seq<Row> {
    if rows == [] then []
    else
      var earlier, last := Inherited(rows[..|rows| - 1]), rows[|rows| - 1];
      if last.account.None? then earlier + [ToRow(last)] else earlier
  }

  function OwnOf(rows: seq<DbRow>): seq<Row> {
    if rows == [] then []
    else
      var earlier, last := OwnOf(rows[..|rows| - 1]), rows[|rows| - 1];
      if last.account.Some? then earlier + [ToRow(last)] else earlier
  }

  /** The row as it is stored, with no account for a base rule. */
  predicate IsRowOf(row: Row, r: DbRow) {
    && row.account == (if r.account.Some? then r.account.value else "")
    && (row.id, row.kind, row.suffixes) == (r.id, r.kind, r.suffixes)
  }

  /** These are the rows at these indexes, which are exactly those that name an account, or exactly those
      that name none. */
  predicate RowsAt(read: seq<DbRow>, own: bool, at: seq<nat>, rows: seq<Row>) {
    && Increasing(at) && |rows| == |at|
    && (forall i: nat | i < |read| :: i in at <==> read[i].account.Some? == own)
    && (forall k | 0 <= k < |at| :: at[k] < |read| && IsRowOf(rows[k], read[at[k]]))
  }

  lemma RowsAtMore(read: seq<DbRow>, own: bool, at: seq<nat>, rows: seq<Row>)
    requires read != [] && RowsAt(read[..|read| - 1], own, at, rows)
    ensures var n := |read| - 1;
            if read[n].account.Some? == own then RowsAt(read, own, at + [n], rows + [ToRow(read[n])])
            else RowsAt(read, own, at, rows)
  {
    var n := |read| - 1;
    var init := read[..n];
    assert forall i | 0 <= i < n :: init[i] == read[i];
    assert n !in at;
    if read[n].account.Some? == own {
      var more: seq<nat> := at + [n];
      assert forall i :: i in more <==> i in at || i == n;
    }
  }

  function Part(read: seq<DbRow>, own: bool): seq<Row> {
    if own then OwnOf(read) else Inherited(read)
  }

  lemma PartMore(read: seq<DbRow>, own: bool)
    requires read != []
    ensures var init, last := read[..|read| - 1], read[|read| - 1];
            Part(read, own) == if last.account.Some? == own then Part(init, own) + [ToRow(last)] else Part(init, own)
  {
  }

  /** The base rules and the account's own are each the rows that are, in their order. */
  lemma {:induction false} SplitKeepsRows(read: seq<DbRow>, own: bool) returns (at: seq<nat>)
    ensures RowsAt(read, own, at, Part(read, own))
    decreases |read|
  {
    if read == [] {
      at := [];
    } else {
      var n := |read| - 1;
      at := SplitKeepsRows(read[..n], own);
      RowsAtMore(read, own, at, Part(read[..n], own));
      PartMore(read, own);
      hide RowsAt, Part, ToRow;
      at := if read[n].account.Some? == own then at + [n] else at;
    }
  }

  /** A transaction sees no other account's own rules. */
  ghost predicate Isolated(db: Reads) {
    forall k, account, r :: db(k, account).Some? && r in db(k, account).value && r.account.Some?
      ==> r.account.value == account
  }

  // ---------------------------------------------------------------- the accounts

  function Compact(s: seq<string>): seq<string> {
    if |s| <= 1 then s
    else if s[|s| - 1] == s[|s| - 2] then Compact(s[..|s| - 1])
    else Compact(s[..|s| - 1]) + [s[|s| - 1]]
  }

  function Readable(accounts: seq<string>): Option<seq<string>> {
    if accounts == [] || "" in accounts then None else Some(Compact(TextOrder.Sorted(accounts)))
  }

  lemma {:induction false} CompactKeeps(s: seq<string>)
    requires TextOrder.InOrder(s)
    ensures Distinct(Compact(s)) && (forall x :: x in Compact(s) <==> x in s)
  {
    hide TextOrder.Leq;
    if |s| <= 1 {
    } else {
      var init, last := s[..|s| - 1], s[|s| - 1];
      CompactKeeps(init);
      assert s == init + [last];
      if last != s[|s| - 2] {
        forall x <- init ensures x != last {
          var i :| 0 <= i < |init| && init[i] == x;
          if x == last {
            assert s[i] == last && TextOrder.Leq(last, s[|s| - 2]) by { TextOrder.Total(last, last); }
            TextOrder.Total(s[|s| - 2], last);
          }
        }
        assert last !in init && last !in Compact(init);
      } else {
        assert last in init;
      }
    }
  }

  /** The accounts read are those given, each once. */
  lemma ReadableIsEach(accounts: seq<string>)
    requires Readable(accounts).Some?
    ensures var read := Readable(accounts).value;
            Distinct(read) && read != [] && forall x :: x in read <==> x in accounts
  {
    var sorted := TextOrder.Sorted(accounts);
    TextOrder.SortedSorts(accounts);
    CompactKeeps(sorted);
    forall x ensures x in Compact(sorted) <==> x in accounts {
      assert x in multiset(sorted) <==> x in multiset(accounts);
    }
    assert accounts[0] in accounts;
  }

  // ---------------------------------------------------------------- one read

  datatype ReadResult = ReadRows(rows: seq<Row>) | ReadFailed | TornBase

  /** Every account's transaction returned, and all returned the same base rules. */
  predicate Trusted(db: Reads, k: nat, accounts: seq<string>) {
    forall a <- accounts ::
      db(k, a).Some? && db(k, accounts[0]).Some?
      && Inherited(db(k, a).value) == Inherited(db(k, accounts[0]).value)
  }

  /** The first account whose transaction failed or whose base rules are others, if there is one. */
  predicate Torn(db: Reads, k: nat, accounts: seq<string>) {
    exists i | 0 < i < |accounts| ::
      && Trusted(db, k, accounts[..i])
      && db(k, accounts[i]).Some?
      && Inherited(db(k, accounts[i]).value) != Inherited(db(k, accounts[0]).value)
  }

  function Owned(db: Reads, k: nat, accounts: seq<string>): seq<Row>
    requires forall a <- accounts :: db(k, a).Some?
  {
    if accounts == [] then []
    else Owned(db, k, accounts[..|accounts| - 1]) + OwnOf(db(k, accounts[|accounts| - 1]).value)
  }

  function RowsRead(db: Reads, k: nat, accounts: seq<string>): seq<Row>
    requires accounts != [] && Trusted(db, k, accounts)
  {
    Inherited(db(k, accounts[0]).value) + Owned(db, k, accounts)
  }

  lemma {:induction false} OwnedHolds(db: Reads, k: nat, accounts: seq<string>, row: Row)
    requires forall a <- accounts :: db(k, a).Some?
    ensures row in Owned(db, k, accounts) <==>
            exists a, i :: a in accounts && 0 <= i < |db(k, a).value| && db(k, a).value[i].account.Some?
                           && IsRowOf(row, db(k, a).value[i])
  {
    if accounts == [] {
    } else {
      var init, last := accounts[..|accounts| - 1], accounts[|accounts| - 1];
      OwnedHolds(db, k, init, row);
      PartHolds(db(k, last).value, true, row);
      hide OwnOf, Inherited, IsRowOf;
      assert accounts == init + [last];
    }
  }

  lemma PartHolds(read: seq<DbRow>, own: bool, row: Row)
    ensures row in Part(read, own) <==>
            exists i :: 0 <= i < |read| && read[i].account.Some? == own && IsRowOf(row, read[i])
  {
    var at := SplitKeepsRows(read, own);
    hide Part;
    var rows := Part(read, own);
    if i :| 0 <= i < |read| && read[i].account.Some? == own && IsRowOf(row, read[i]) {
      var k :| 0 <= k < |at| && at[k] == i;
      assert rows[k] == row;
    }
    if row in rows {
      var k :| 0 <= k < |rows| && rows[k] == row;
      assert at[k] in at;
    }
  }

  /** The rows a trusted read gives are exactly those the accounts' transactions returned. */
  lemma RowsReadExactly(db: Reads, k: nat, accounts: seq<string>, row: Row)
    requires accounts != [] && Trusted(db, k, accounts)
    ensures row in RowsRead(db, k, accounts) <==>
            exists a, i :: a in accounts && 0 <= i < |db(k, a).value| && IsRowOf(row, db(k, a).value[i])
  {
    OwnedHolds(db, k, accounts, row);
    forall a <- accounts
      ensures row in Inherited(db(k, accounts[0]).value) <==>
              exists i :: 0 <= i < |db(k, a).value| && db(k, a).value[i].account.None?
                          && IsRowOf(row, db(k, a).value[i])
    {
      PartHolds(db(k, a).value, false, row);
      assert Part(db(k, a).value, false) == Inherited(db(k, accounts[0]).value);
    }
    hide Inherited, Owned, IsRowOf;
    assert accounts[0] in accounts;
  }

  method Split(read: seq<DbRow>) returns (inherited: seq<Row>, own: seq<Row>)
    ensures inherited == Inherited(read) && own == OwnOf(read)
  {
    inherited, own := [], [];
    for i := 0 to |read|
      invariant inherited == Inherited(read[..i]) && own == OwnOf(read[..i])
    {
      assert read[..i + 1][..i] == read[..i];
      if read[i].account.Some? {
        own := own + [ToRow(read[i])];
      } else {
        inherited := inherited + [ToRow(read[i])];
      }
    }
    assert read[..|read|] == read;
  }

  lemma FailsThere(db: Reads, k: nat, accounts: seq<string>, i: nat)
    requires i < |accounts| && Trusted(db, k, accounts[..i]) && db(k, accounts[i]).None?
    ensures !Trusted(db, k, accounts) && !Torn(db, k, accounts)
  {
    assert accounts[i] in accounts;
    forall j | 0 < j < |accounts| && Trusted(db, k, accounts[..j]) && db(k, accounts[j]).Some?
      ensures Inherited(db(k, accounts[j]).value) == Inherited(db(k, accounts[0]).value)
    {
      if j <= i {
        assert accounts[..i][j] == accounts[j] && accounts[..i][0] == accounts[0];
      }
    }
  }

  lemma NotTorn(db: Reads, k: nat, accounts: seq<string>)
    requires Trusted(db, k, accounts)
    ensures !Torn(db, k, accounts)
  {
  }

  method Read(db: Reads, k: nat, accounts: seq<string>) returns (r: ReadResult)
    requires accounts != []
    ensures r.ReadRows? <==> Trusted(db, k, accounts)
    ensures r.ReadRows? ==> r.rows == RowsRead(db, k, accounts)
    ensures r.TornBase? <==> Torn(db, k, accounts)
  {
    hide Inherited, OwnOf;
    var rows, base := [], [];
    for i := 0 to |accounts|
      invariant Trusted(db, k, accounts[..i])
      invariant if i == 0 then rows == base == [] else
                  && base == Inherited(db(k, accounts[0]).value)
                  && rows == RowsRead(db, k, accounts[..i])
    {
      var account := accounts[i];
      assert accounts[..i + 1] == accounts[..i] + [account] && accounts[..i + 1][..i] == accounts[..i];
      var answer := db(k, account);
      if answer.None? {
        FailsThere(db, k, accounts, i);
        return ReadFailed;
      }
      var inherited, own := Split(answer.value);
      if i == 0 {
        base := inherited;
        rows := rows + base;
      } else if base != inherited {
        assert Torn(db, k, accounts);
        assert account in accounts;
        return TornBase;
      }
      assert Trusted(db, k, accounts[..i + 1]);
      rows := rows + own;
    }
    assert accounts[..|accounts|] == accounts;
    NotTorn(db, k, accounts);
    r := ReadRows(rows);
  }

  // ---------------------------------------------------------------- what the rows compose to

  lemma {:induction false} OwnJoined(a: seq<Row>, b: seq<Row>, account: string)
    ensures Own(a + b, account) == Own(a, account) + Own(b, account)
  {
    if b == [] {
      assert a + b == a;
    } else {
      OwnJoined(a, b[..|b| - 1], account);
      assert (a + b)[..|a + b| - 1] == a + b[..|b| - 1];
    }
  }

  lemma {:induction false} OwnAll(rows: seq<Row>, account: string)
    requires forall r <- rows :: r.account == account
    ensures Own(rows, account) == rows
    ensures forall other | other != account :: Own(rows, other) == []
  {
    if rows == [] {
    } else {
      OwnAll(rows[..|rows| - 1], account);
      assert rows == rows[..|rows| - 1] + [rows[|rows| - 1]];
    }
  }

  lemma {:induction false} InheritedNamesNone(read: seq<DbRow>)
    ensures forall r <- Inherited(read) :: r.account == ""
  {
    if read == [] {
    } else {
      InheritedNamesNone(read[..|read| - 1]);
    }
  }

  lemma {:induction false} OwnNamesAccount(read: seq<DbRow>, account: string)
    requires forall r <- read :: r.account.Some? ==> r.account.value == account
    ensures forall r <- OwnOf(read) :: r.account == account
  {
    if read == [] {
    } else {
      OwnNamesAccount(read[..|read| - 1], account);
    }
  }

  lemma {:induction false} OwnedApart(db: Reads, k: nat, accounts: seq<string>, account: string)
    requires Isolated(db) && Distinct(accounts) && forall a <- accounts :: db(k, a).Some?
    ensures Own(Owned(db, k, accounts), account) == if account in accounts then OwnOf(db(k, account).value) else []
  {
    if accounts == [] {
    } else {
      var init, last := accounts[..|accounts| - 1], accounts[|accounts| - 1];
      OwnedApart(db, k, init, account);
      OwnNamesAccount(db(k, last).value, last);
      OwnAll(OwnOf(db(k, last).value), last);
      OwnJoined(Owned(db, k, init), OwnOf(db(k, last).value), account);
      assert accounts == init + [last];
    }
  }

  /** The policy of one transaction: the base and own rules it returned. */
  function OneRead(read: seq<DbRow>): Composed {
    Composed(true, RulesOf(Inherited(read), BaseScope) + RulesOf(OwnOf(read), AccountScope))
  }

  /** A snapshot built from a trusted read gives each account exactly the rules its own transaction returned. */
  lemma ComposesOneRead(s: Snapshot, db: Reads, k: nat, accounts: seq<string>, account: string)
    requires Isolated(db) && Distinct(accounts) && "" !in accounts && account in accounts
    requires Trusted(db, k, accounts) && BuiltFrom(s, RowsRead(db, k, accounts))
    ensures Policy.For(s, account) == OneRead(db(k, account).value)
  {
    hide Inherited, OwnOf, RulesOf;
    var base := Inherited(db(k, accounts[0]).value);
    var owned := Owned(db, k, accounts);
    InheritedNamesNone(db(k, accounts[0]).value);
    OwnAll(base, "");
    OwnJoined(base, owned, "");
    OwnJoined(base, owned, account);
    OwnedApart(db, k, accounts, "");
    OwnedApart(db, k, accounts, account);
    assert base + [] == base && [] + OwnOf(db(k, account).value) == OwnOf(db(k, account).value);
  }

  /** Each rule has a row's identifier and every one of its suffixes: those of the rows that name no
      account in the base's scope, or those of the rows that do in the account's, in the rows' order. */
  predicate ReadRulesAt(read: seq<DbRow>, own: bool, at: seq<nat>, rules: seq<Rule>) {
    && Increasing(at) && |rules| == |at|
    && (forall i: nat | i < |read| :: i in at <==> read[i].account.Some? == own)
    && (forall k | 0 <= k < |at| ::
          && at[k] < |read|
          && rules[k] == Rule(read[at[k]].id, read[at[k]].suffixes, if own then AccountScope else BaseScope))
  }

  /** A policy that is the base rules one transaction returned and then the account's own. */
  ghost predicate ComposedFrom(read: seq<DbRow>, c: Composed) {
    c.loaded && exists base: seq<Rule>, own: seq<Rule>, at: seq<nat>, ownAt: seq<nat> ::
      c.rules == base + own && ReadRulesAt(read, false, at, base) && ReadRulesAt(read, true, ownAt, own)
  }

  lemma OneReadIsComposedFrom(read: seq<DbRow>)
    ensures ComposedFrom(read, OneRead(read))
  {
    var at := SplitKeepsRows(read, false);
    var ownAt := SplitKeepsRows(read, true);
    var base, own := RulesOf(Inherited(read), BaseScope), RulesOf(OwnOf(read), AccountScope);
    hide Inherited, OwnOf;
    assert ReadRulesAt(read, false, at, base);
    assert ReadRulesAt(read, true, ownAt, own);
  }

  lemma ReadRuleMatches(read: seq<DbRow>, own: bool, at: seq<nat>, rules: seq<Rule>, sender: string, l: Lookups)
    requires ReadRulesAt(read, own, at, rules)
    ensures (exists r <- rules :: Matches(sender, r, l)) <==>
            exists i :: 0 <= i < |read| && read[i].account.Some? == own && IsUnderOne(read[i].suffixes, sender, l)
  {
    forall r ensures Matches(sender, r, l) <==> IsUnderOne(r.suffixes, sender, l) { }
    hide Matches, IsUnderOne;
    if i :| 0 <= i < |read| && read[i].account.Some? == own && IsUnderOne(read[i].suffixes, sender, l) {
      var k :| 0 <= k < |at| && at[k] == i;
      assert Matches(sender, rules[k], l);
    }
    if r :| r in rules && Matches(sender, r, l) {
      var k :| 0 <= k < |rules| && rules[k] == r;
      assert at[k] in at;
      assert IsUnderOne(read[at[k]].suffixes, sender, l);
    }
  }

  /** Of such a policy, a sender is normal exactly when its name can be read and no row the transaction
      returned has a suffix whose name the sender is under. */
  lemma NormalFromRead(read: seq<DbRow>, c: Composed, address: string, l: Lookups)
    requires ComposedFrom(read, c)
    ensures IsNormal(c, address, l) <==>
            && Sender(address, l).Some?
            && forall i | 0 <= i < |read| :: !IsUnderOne(read[i].suffixes, Sender(address, l).value, l)
  {
    if Sender(address, l).Some? {
      var sender := Sender(address, l).value;
      var base: seq<Rule>, own: seq<Rule>, at: seq<nat>, ownAt: seq<nat> :|
        c.rules == base + own && ReadRulesAt(read, false, at, base) && ReadRulesAt(read, true, ownAt, own);
      ReadRuleMatches(read, false, at, base, sender, l);
      ReadRuleMatches(read, true, ownAt, own, sender, l);
      hide ReadRulesAt, Matches, IsUnderOne, Sender;
    }
  }

  // ---------------------------------------------------------------- the loader

  datatype Active = Active(policy: Snapshot, prepared: map<string, PreparedPolicy>)

  /** The policy an account's decisions are made against, which restricts every sender for one never read. */
  function PolicyFor(active: Active, account: string): PreparedPolicy {
    if account in active.prepared then active.prepared[account] else PreparedPolicy(NO_POLICY, [])
  }

  datatype Outcome = Reloaded | Cancelled | Untrusted | Invalid

  lemma AllAnswered(db: Reads, k: nat, accounts: seq<string>)
    requires Trusted(db, k, accounts)
    ensures forall a <- accounts :: db(k, a).Some?
  {
  }

  lemma BuiltIsLoaded(s: Snapshot, rows: seq<Row>)
    requires BuiltFrom(s, rows)
    ensures s.loaded
  {
  }

  /** An account's policy is the base and then its own rules. */
  lemma BaseThenOwn(policy: Snapshot, a: string, lookups: Lookups)
    requires a != "" && policy.loaded
    ensures PreparedOf(Policy.For(policy, a), lookups).composed.rules == policy.base + Overlay(policy, a)
  {
  }

  lemma PreparedIsOf(c: Composed, lookups: Lookups)
    ensures PreparedOf(c, lookups).composed == c
  {
  }

  class Loader {
    const lookups: Lookups
    const tables: Tables
    var accounts: seq<string>
    var active: Active
    var failing: bool

    /** Every prepared policy is the one composed for its account from the one active snapshot. */
    ghost predicate Valid()
      reads this
    {
      && accounts != [] && Distinct(accounts) && "" !in accounts
      && forall a <- active.prepared ::
           a != "" && active.policy.loaded && active.prepared[a] == PreparedOf(Policy.For(active.policy, a), lookups)
    }

    constructor (read: seq<string>, lookups: Lookups, tables: Tables)
      requires Readable(read).Some?
      ensures Valid() && accounts == Readable(read).value && active == Active(NO_SNAPSHOT, map[]) && !failing
      ensures this.lookups == lookups && this.tables == tables
    {
      ReadableIsEach(read);
      this.lookups, this.tables := lookups, tables;
      accounts := Readable(read).value;
      active := Active(NO_SNAPSHOT, map[]);
      failing := false;
    }

    method SetAccounts(given: seq<string>) returns (ok: bool)
      requires Valid()
      modifies this`accounts
      ensures Valid()
      ensures ok <==> given != [] && "" !in given
      ensures if ok then accounts == Readable(given).value else accounts == old(accounts)
    {
      ok := Readable(given).Some?;
      if ok {
        ReadableIsEach(given);
        accounts := Readable(given).value;
      }
    }

    /** The read that decides is the first, or the second when the first's base rules differ. It swaps in a policy
        giving each account what one transaction of that read returned, or changes nothing. */
    method Reload(db: Reads, cancelled: bool) returns (out: Outcome)
      requires Valid() && Isolated(db)
      modifies this`active, this`failing
      ensures Valid()
      ensures var k := if Torn(db, 0, accounts) then 1 else 0;
              var trusted := Trusted(db, k, accounts);
              && (out == Reloaded <==> trusted && ValidRows(RowsRead(db, k, accounts), tables))
              && (out == Cancelled <==> !trusted && cancelled)
              && (out == Untrusted <==> !trusted && !cancelled)
              && (out == Reloaded ==>
                    && active.prepared.Keys == (set a <- accounts)
                    && forall a <- accounts :: PolicyFor(active, a) == PreparedOf(OneRead(db(k, a).value), lookups))
      ensures out == Reloaded ==>
                forall a <- accounts ::
                  PolicyFor(active, a).composed.rules == active.policy.base + Overlay(active.policy, a)
      ensures out == Reloaded ==>
                var k := if Torn(db, 0, accounts) then 1 else 0;
                forall a <- accounts :: db(k, a).Some? && ComposedFrom(db(k, a).value, PolicyFor(active, a).composed)
      ensures out != Reloaded ==> active == old(active)
      ensures failing == if out == Cancelled then old(failing) else out != Reloaded
    {
      hide ComposedFrom, Trusted, Torn, RowsRead, ValidRows, BuiltFrom, OneRead, Policy.For, PreparedOf, Isolated;
      var read := Read(db, 0, accounts);
      ghost var k := 0;
      if read.TornBase? {
        read := Read(db, 1, accounts);
        k := 1;
      }
      if !read.ReadRows? && cancelled {
        return Cancelled;
      }
      if !read.ReadRows? {
        failing := true;
        return Untrusted;
      }
      var next, accepted := Swap(active.policy, read.rows, tables);
      if !accepted {
        failing := true;
        return Invalid;
      }
      BuiltIsLoaded(next, read.rows);
      var prepared := map[];
      for i := 0 to |accounts|
        invariant prepared.Keys == set a <- accounts[..i]
        invariant forall a <- prepared :: prepared[a] == PreparedOf(Policy.For(next, a), lookups)
      {
        assert accounts[..i + 1] == accounts[..i] + [accounts[i]];
        var p := Prepare(Policy.For(next, accounts[i]), lookups);
        prepared := prepared[accounts[i] := p];
      }
      assert accounts[..|accounts|] == accounts;
      AllAnswered(db, k, accounts);
      forall a <- accounts ensures Policy.For(next, a) == OneRead(db(k, a).value) {
        ComposesOneRead(next, db, k, accounts, a);
      }
      forall a <- accounts
        ensures ComposedFrom(db(k, a).value, PreparedOf(OneRead(db(k, a).value), lookups).composed)
      {
        OneReadIsComposedFrom(db(k, a).value);
        PreparedIsOf(OneRead(db(k, a).value), lookups);
      }
      forall a <- accounts
        ensures PreparedOf(Policy.For(next, a), lookups).composed.rules == next.base + Overlay(next, a)
      {
        BaseThenOwn(next, a, lookups);
      }
      active := Active(next, prepared);
      failing := false;
      out := Reloaded;
    }
  }

  /** An account no reload read has every sender restricted. */
  lemma UnreadRestrictsEveryone(active: Active, account: string, address: string, l: Lookups)
    requires account !in active.prepared
    ensures PolicyFor(active, account) == PreparedOf(NO_POLICY, l)
    ensures !IsNormal(PolicyFor(active, account).composed, address, l)
  {
  }
}
