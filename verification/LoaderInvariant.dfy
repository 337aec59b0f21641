/** What every operation of the account loader keeps, and what survives it. */
module LoaderInvariant {
  import opened Wrappers
  import opened Sealing
  import opened AccountLoad

  /** The known bytes open to the baseline, and every stamp was issued. */
  ghost predicate HeldOpens(ring: Keyring, l: LoaderState, account: string)
    requires account in l.accounts
  {
    var h := l.accounts[account];
    ring.Open(h.known, AccountCredential(account)) == Some(h.baseline) && 1 <= h.adoption <= l.adoptions
  }

  /** A published account carries exactly the plaintext and stamp held for it, or neither. */
  predicate ServedMatches(accounts: map<string, Held>, s: Served) {
    if s.id in accounts
    then s.credential == accounts[s.id].plaintext && s.adoption == accounts[s.id].adoption
    else s.credential == "" && s.adoption == 0
  }

  /** A published account reaches no client but the one its row names. */
  predicate NamesItsClient(s: Served) {
    s.client.Some? ==> s.client.value.name == s.clientName && s.clientName != "" && !s.withoutClient
  }

  ghost predicate Inv(ring: Keyring, l: LoaderState) {
    && (forall a <- l.accounts :: HeldOpens(ring, l, a))
    && (forall a, b | a in l.accounts && b in l.accounts && a != b :: l.accounts[a].adoption != l.accounts[b].adoption)
    && (forall i | 0 <= i < |l.active| :: ServedMatches(l.accounts, l.active[i]) && NamesItsClient(l.active[i]))
  }

  predicate UniqueIds(rows: seq<Row>) {
    forall i, j | 0 <= i < j < |rows| :: rows[i].id != rows[j].id
  }

  // ---------------------------------------------------------------- write-back, re-read and re-seal

  lemma HoldKeepsInv(ring: Keyring, l: LoaderState, account: string, h: Held)
    requires Inv(ring, l)
    requires ring.Open(h.known, AccountCredential(account)) == Some(h.baseline) && 1 <= h.adoption <= l.adoptions
    requires forall a | a in l.accounts && a != account :: l.accounts[a].adoption != h.adoption
    ensures Inv(ring, Hold(l, account, h))
  {
    var l' := Hold(l, account, h);
    forall i | 0 <= i < |l'.active| ensures ServedMatches(l'.accounts, l'.active[i]) && NamesItsClient(l'.active[i]) {
      assert ServedMatches(l.accounts, l.active[i]) && NamesItsClient(l.active[i]);
    }
    forall a <- l'.accounts ensures HeldOpens(ring, l', a) {
      assert a != account ==> HeldOpens(ring, l, a);
    }
  }

  lemma ReadoptKeepsInv(ring: Keyring, l: LoaderState, account: string, stored: Option<Sealed>)
    requires Inv(ring, l)
    ensures Inv(ring, Readopt(ring, l, account, stored))
  {
    var (h, n) := Adopt(ring, l.accounts, l.adoptions, account, stored);
    var l' := Readopt(ring, l, account, stored);
    match h {
      case None =>
        forall i | 0 <= i < |l'.active|
          ensures ServedMatches(l'.accounts, l'.active[i]) && NamesItsClient(l'.active[i])
        {
          assert ServedMatches(l.accounts, l.active[i]) && NamesItsClient(l.active[i]);
        }
        forall a <- l'.accounts ensures HeldOpens(ring, l', a) {
          assert HeldOpens(ring, l, a);
        }
      case Some(held) =>
        var counted := l.(adoptions := n);
        forall a <- counted.accounts ensures HeldOpens(ring, counted, a) {
          assert HeldOpens(ring, l, a);
        }
        assert account in l.accounts ==> HeldOpens(ring, l, account);
        HoldKeepsInv(ring, counted, account, held);
    }
  }

  lemma PersistKeepsInv(ring: Keyring, l: LoaderState, account: string, current: Plain, io: WriteIO)
    requires ring.Valid() && account != "" && Inv(ring, l)
    ensures Inv(ring, Persist(ring, l, account, current, io).0)
  {
    if IsRotation(l, account, current) {
      assert HeldOpens(ring, l, account);
      var held := HoldRotation(l, account, current);
      HoldKeepsInv(ring, l, account, l.accounts[account].(plaintext := current));
      if io.nonce.Some? && io.cas.Landed? {
        var sealed := ring.Seal(current, AccountCredential(account), io.nonce.value);
        HoldKeepsInv(ring, held, account, held.accounts[account].(known := sealed, baseline := current));
      } else if io.nonce.Some? && io.cas.Missed? && io.read.Some? {
        ReadoptKeepsInv(ring, held, account, io.read.value);
      }
    }
  }

  lemma HandOverKeepsInv(ring: Keyring, l: LoaderState, account: string, adoption: nat, current: Plain, io: WriteIO)
    requires ring.Valid() && account != "" && Inv(ring, l)
    ensures Inv(ring, HandOver(ring, l, account, adoption, current, io).0)
  {
    if !Stale(l, account, adoption) {
      PersistKeepsInv(ring, l, account, current, io);
    }
  }

  lemma FirstClientNamed(clients: seq<ClientRow>, name: string)
    ensures FirstClient(clients, name).Some? ==> FirstClient(clients, name).value.name == name
  {
  }

  lemma OpenedNamedIsNamed(ring: Keyring, clients: seq<ClientRow>, name: string)
    ensures forall n <- OpenedNamed(ring, clients, name) :: n == name && OpenedNamed(ring, clients, name)[n].name == n
  {
    FirstClientNamed(clients, name);
  }

  lemma RereadKeepsInv(cfg: Config, l: LoaderState, account: string, stored: Option<Sealed>, listing: Listing)
    requires Inv(cfg.ring, l)
    ensures Inv(cfg.ring, Reread(cfg, l, account, stored, listing).0)
  {
    var (l', b) := Reread(cfg, l, account, stored, listing);
    var next := Readopt(cfg.ring, l, account, stored);
    ReadoptKeepsInv(cfg.ring, l, account, stored);
    var at := Lookup(l.active, account);
    var name := if listing.listed.Some? then listing.listed.value.1 else at.clientName;
    OpenedNamedIsNamed(cfg.ring, listing.clients, name);
    assert NamesItsClient(b);
    forall i | 0 <= i < |l'.active| ensures ServedMatches(l'.accounts, l'.active[i]) && NamesItsClient(l'.active[i]) {
      assert ServedMatches(next.accounts, next.active[i]) && NamesItsClient(next.active[i]);
    }
    forall a <- l'.accounts ensures HeldOpens(cfg.ring, l', a) {
      assert HeldOpens(cfg.ring, next, a);
    }
  }

  lemma ResealOneKeepsInv(ring: Keyring, l: LoaderState, account: string, io: WriteIO)
    requires ring.Valid() && Inv(ring, l)
    ensures Inv(ring, ResealOne(ring, l, account, io))
  {
    if account in l.accounts && ring.OnOldKey(l.accounts[account].known) && io.nonce.Some? {
      assert HeldOpens(ring, l, account);
      var sealed := ring.Reseal(l.accounts[account].known, AccountCredential(account), io.nonce.value).value;
      if io.cas.Landed? {
        var l' := ResealLanded(ring, l, account, sealed);
        forall a <- l'.accounts ensures HeldOpens(ring, l', a) {
          assert HeldOpens(ring, l, a);
        }
        forall i | 0 <= i < |l'.active|
          ensures ServedMatches(l'.accounts, l'.active[i]) && NamesItsClient(l'.active[i])
        {
          assert ServedMatches(l.accounts, l.active[i]) && NamesItsClient(l.active[i]);
        }
      } else if io.cas.Missed? && io.read.Some? {
        ReadoptKeepsInv(ring, l, account, io.read.value);
        var next := Readopt(ring, l, account, io.read.value);
        var l' := ResealMissed(ring, l, account, io.read.value);
        forall a <- l'.accounts ensures HeldOpens(ring, l', a) {
          assert HeldOpens(ring, next, a);
        }
      }
    }
  }

  lemma {:induction false} ResealKeepsInv(ring: Keyring, l: LoaderState, order: seq<string>, io: seq<WriteIO>)
    requires ring.Valid() && Inv(ring, l) && |io| == |order|
    ensures Inv(ring, Reseal(ring, l, order, io))
    decreases |order|
  {
    if order == [] {
    } else {
      var n := |order| - 1;
      ResealKeepsInv(ring, l, order[..n], io[..n]);
      ResealOneKeepsInv(ring, Reseal(ring, l, order[..n], io[..n]), order[n], io[n]);
    }
  }

  lemma RereadClientKeepsInv(cfg: Config, l: LoaderState, name: string, rows: seq<ClientRow>)
    requires Inv(cfg.ring, l)
    ensures var l' := RereadClient(cfg, l, name, rows);
            Inv(cfg.ring, l') && l'.accounts == l.accounts && l'.adoptions == l.adoptions
  {
    var l' := RereadClient(cfg, l, name, rows);
    OpenedNamedIsNamed(cfg.ring, rows, name);
    forall a <- l'.accounts ensures HeldOpens(cfg.ring, l', a) {
      assert HeldOpens(cfg.ring, l, a);
    }
    forall i | 0 <= i < |l'.active| ensures ServedMatches(l'.accounts, l'.active[i]) && NamesItsClient(l'.active[i]) {
      assert ServedMatches(l.accounts, l.active[i]) && NamesItsClient(l.active[i]);
    }
  }

  lemma ResealClientKeepsInv(cfg: Config, l: LoaderState, name: string, io: ClientIO)
    requires Inv(cfg.ring, l)
    ensures var l' := ResealClient(cfg, l, name, io);
            Inv(cfg.ring, l') && l'.accounts == l.accounts && l'.adoptions == l.adoptions
  {
    hide RereadClient;
    var l' := ResealClient(cfg, l, name, io);
    if io.read.Some? {
      RereadClientKeepsInv(cfg, l, name, io.read.value);
    }
    if l'.active == l.active && l'.accounts == l.accounts {
      forall a <- l'.accounts ensures HeldOpens(cfg.ring, l', a) {
        assert HeldOpens(cfg.ring, l, a);
      }
    }
  }

  lemma {:induction false} ResealClientsKeepsInv(cfg: Config, l: LoaderState, names: seq<string>, io: seq<ClientIO>)
    requires Inv(cfg.ring, l) && |io| == |names|
    ensures Inv(cfg.ring, ResealClients(cfg, l, names, io))
    ensures ResealClients(cfg, l, names, io).accounts == l.accounts
    decreases |names|
  {
    if names == [] {
    } else {
      var n := |names| - 1;
      ResealClientsKeepsInv(cfg, l, names[..n], io[..n]);
      ResealClientKeepsInv(cfg, ResealClients(cfg, l, names[..n], io[..n]), names[n], io[n]);
    }
  }

  // ---------------------------------------------------------------- load

  /** What a load makes of one row: bytes it knew keep what it held, any other bytes that open are
      adopted under a stamp never issued before, and nothing else is held. */
  ghost predicate RowLoaded(ring: Keyring, l: LoaderState, r: Row, known: map<string, Held>) {
    if r.stored.Some? && r.id in l.accounts && l.accounts[r.id].known == r.stored.value then
      r.id in known && known[r.id] == l.accounts[r.id]
    else if r.stored.Some? && ring.Open(r.stored.value, AccountCredential(r.id)).Some? then
      var p := ring.Open(r.stored.value, AccountCredential(r.id)).value;
      && r.id in known && known[r.id] == Held(r.stored.value, p, p, known[r.id].adoption)
      && known[r.id].adoption > l.adoptions
    else
      r.id !in known
  }

  lemma {:induction false} OpenedClientsNamed(ring: Keyring, rows: seq<ClientRow>)
    ensures forall n <- OpenedClients(ring, rows) :: OpenedClients(ring, rows)[n].name == n
    decreases |rows|
  {
    if rows == [] {
    } else {
      OpenedClientsNamed(ring, rows[..|rows| - 1]);
    }
  }

  function RowIds(rows: seq<Row>): set<string> {
    set r <- rows :: r.id
  }

  /** Every held account's stamp is its own: the one it had, or a new one. */
  ghost predicate StampsLoaded(l: LoaderState, a: Accounts) {
    && a.adoptions >= l.adoptions
    && (forall id <- a.known :: a.known[id].adoption <= a.adoptions)
    && (forall x, y | x in a.known && y in a.known && x != y :: a.known[x].adoption != a.known[y].adoption)
    && (forall id <- a.known ::
          a.known[id].adoption <= l.adoptions ==> id in l.accounts && a.known[id] == l.accounts[id])
  }

  ghost predicate AccountsLoaded(ring: Keyring, l: LoaderState, rows: seq<Row>, a: Accounts) {
    && |a.served| == |rows|
    && a.known.Keys <= RowIds(rows)
    && StampsLoaded(l, a)
    && (forall i | 0 <= i < |rows| :: RowLoaded(ring, l, rows[i], a.known))
    && (forall i | 0 <= i < |rows| ::
          a.served[i].id == rows[i].id && ServedMatches(a.known, a.served[i]) && NamesItsClient(a.served[i]))
  }

  lemma LastRowIsNew(rows: seq<Row>)
    requires rows != [] && UniqueIds(rows)
    ensures rows[|rows| - 1].id !in RowIds(rows[..|rows| - 1])
    ensures RowIds(rows) == RowIds(rows[..|rows| - 1]) + {rows[|rows| - 1].id}
  {
    assert rows == rows[..|rows| - 1] + [rows[|rows| - 1]];
  }

  /** One step adds its own account under the stamp it had, or under a new one. */
  lemma LoadOneAdds(cfg: Config, l: LoaderState, clients: map<string, Client>, a: Accounts, r: Row)
    requires Inv(cfg.ring, l) && r.id !in a.known && a.adoptions >= l.adoptions
    ensures var a' := LoadOne(cfg, l.accounts, clients, a, r);
            && a'.known.Keys <= a.known.Keys + {r.id}
            && a'.adoptions >= a.adoptions
            && (forall id <- a.known :: id in a'.known && a'.known[id] == a.known[id])
            && (r.id in a'.known ==>
                  (r.id in l.accounts && a'.known[r.id] == l.accounts[r.id] && a'.known[r.id].adoption <= l.adoptions)
                  || (a'.known[r.id].adoption == a'.adoptions > a.adoptions))
  {
    assert r.id in l.accounts ==> HeldOpens(cfg.ring, l, r.id);
  }

  lemma LoadOneStamps(cfg: Config, l: LoaderState, clients: map<string, Client>, a: Accounts, r: Row)
    requires Inv(cfg.ring, l) && r.id !in a.known && StampsLoaded(l, a)
    ensures StampsLoaded(l, LoadOne(cfg, l.accounts, clients, a, r))
  {
    hide LoadOne;
    LoadOneAdds(cfg, l, clients, a, r);
    var a' := LoadOne(cfg, l.accounts, clients, a, r);
    forall x <- a'.known | x != r.id && r.id in a'.known ensures a'.known[x].adoption != a'.known[r.id].adoption {
      assert x in a.known;
      if a.known[x].adoption <= l.adoptions {
        assert a.known[x] == l.accounts[x];
      }
    }
  }

  /** One step leaves every other account as it was, and is exact about its own row. */
  lemma LoadOneIsLocal(cfg: Config, l: LoaderState, clients: map<string, Client>, a: Accounts, r: Row)
    requires Inv(cfg.ring, l) && a.adoptions >= l.adoptions && r.id !in a.known
    requires forall n <- clients :: clients[n].name == n
    ensures var a' := LoadOne(cfg, l.accounts, clients, a, r);
            && a'.known - {r.id} == a.known
            && |a'.served| == |a.served| + 1 && a'.served[..|a.served|] == a.served
            && RowLoaded(cfg.ring, l, r, a'.known)
            && a'.served[|a.served|].id == r.id
            && ServedMatches(a'.known, a'.served[|a.served|]) && NamesItsClient(a'.served[|a.served|])
  {
    assert r.id in l.accounts ==> HeldOpens(cfg.ring, l, r.id);
  }

  lemma LoadedStays(ring: Keyring, l: LoaderState, rows: seq<Row>, a: Accounts, a': Accounts)
    requires rows != [] && UniqueIds(rows)
    requires AccountsLoaded(ring, l, rows[..|rows| - 1], a)
    requires a'.known - {rows[|rows| - 1].id} == a.known
    requires |a'.served| == |a.served| + 1 && a'.served[..|a.served|] == a.served
    ensures forall i | 0 <= i < |rows| - 1 ::
              && RowLoaded(ring, l, rows[i], a'.known)
              && a'.served[i].id == rows[i].id && ServedMatches(a'.known, a'.served[i]) && NamesItsClient(a'.served[i])
  {
    var n := |rows| - 1;
    forall i | 0 <= i < n
      ensures RowLoaded(ring, l, rows[i], a'.known)
      ensures a'.served[i].id == rows[i].id && ServedMatches(a'.known, a'.served[i]) && NamesItsClient(a'.served[i])
    {
      assert rows[..n][i] == rows[i] && rows[i].id != rows[n].id;
      assert a'.served[i] == a.served[i];
      assert rows[i].id in a'.known <==> rows[i].id in a.known;
      assert rows[i].id in a.known ==> a'.known[rows[i].id] == a.known[rows[i].id];
    }
  }

  lemma LoadOneLoads(cfg: Config, l: LoaderState, clients: map<string, Client>, rows: seq<Row>, a: Accounts)
    requires Inv(cfg.ring, l) && rows != [] && UniqueIds(rows)
    requires forall n <- clients :: clients[n].name == n
    requires AccountsLoaded(cfg.ring, l, rows[..|rows| - 1], a)
    ensures AccountsLoaded(cfg.ring, l, rows, LoadOne(cfg, l.accounts, clients, a, rows[|rows| - 1]))
  {
    var n := |rows| - 1;
    LastRowIsNew(rows);
    LoadOneStamps(cfg, l, clients, a, rows[n]);
    LoadOneAdds(cfg, l, clients, a, rows[n]);
    LoadOneIsLocal(cfg, l, clients, a, rows[n]);
    LoadedStays(cfg.ring, l, rows, a, LoadOne(cfg, l.accounts, clients, a, rows[n]));
  }

  lemma {:induction false} LoadRowsLoads(cfg: Config, l: LoaderState, clients: map<string, Client>, rows: seq<Row>)
    requires Inv(cfg.ring, l) && UniqueIds(rows)
    requires forall n <- clients :: clients[n].name == n
    ensures AccountsLoaded(cfg.ring, l, rows, LoadRows(cfg, l, clients, rows))
    decreases |rows|
  {
    if rows == [] {
    } else {
      LoadRowsLoads(cfg, l, clients, rows[..|rows| - 1]);
      LoadOneLoads(cfg, l, clients, rows, LoadRows(cfg, l, clients, rows[..|rows| - 1]));
    }
  }

  /** A load keeps the invariant and makes of every row exactly what RowLoaded says. */
  lemma LoadKeepsInv(cfg: Config, l: LoaderState, rows: seq<Row>, clients: seq<ClientRow>)
    requires Inv(cfg.ring, l) && UniqueIds(rows)
    ensures Inv(cfg.ring, Load(cfg, l, rows, clients))
    ensures AccountsLoaded(cfg.ring, l, rows, LoadRows(cfg, l, OpenedClients(cfg.ring, clients), rows))
  {
    OpenedClientsNamed(cfg.ring, clients);
    LoadRowsLoads(cfg, l, OpenedClients(cfg.ring, clients), rows);
    var l' := Load(cfg, l, rows, clients);
    forall a <- l'.accounts ensures HeldOpens(cfg.ring, l', a) {
      var i :| 0 <= i < |rows| && rows[i].id == a;
      assert RowLoaded(cfg.ring, l, rows[i], l'.accounts);
      assert a in l.accounts ==> HeldOpens(cfg.ring, l, a);
    }
  }

  // ---------------------------------------------------------------- what survives

  /** As long as the row and the loader agree on the bytes, whatever is held for the account, a
      rotation whose write-back has not landed included, survives a reload, a re-read, and a re-seal
      of any accounts, with its stamp. */
  lemma HeldSurvivesLoad(cfg: Config, l: LoaderState, rows: seq<Row>, clients: seq<ClientRow>, i: nat)
    requires Inv(cfg.ring, l) && UniqueIds(rows) && i < |rows|
    requires rows[i].id in l.accounts && rows[i].stored == Some(l.accounts[rows[i].id].known)
    ensures var l' := Load(cfg, l, rows, clients);
            && rows[i].id in l'.accounts && l'.accounts[rows[i].id] == l.accounts[rows[i].id]
            && l'.active[i].credential == l.accounts[rows[i].id].plaintext
            && l'.active[i].adoption == l.accounts[rows[i].id].adoption
  {
    LoadKeepsInv(cfg, l, rows, clients);
    assert RowLoaded(cfg.ring, l, rows[i], Load(cfg, l, rows, clients).accounts);
  }

  lemma HeldSurvivesReread(cfg: Config, l: LoaderState, account: string, listing: Listing)
    requires account in l.accounts
    ensures Reread(cfg, l, account, Some(l.accounts[account].known), listing).0.accounts == l.accounts
    ensures forall other, stored | other != account ::
              var l' := Reread(cfg, l, other, stored, listing).0;
              account in l'.accounts && l'.accounts[account] == l.accounts[account]
  {
  }

  /** A re-seal that lands changes the known bytes alone. */
  lemma HeldSurvivesReseal(ring: Keyring, l: LoaderState, target: string, account: string, io: WriteIO)
    requires account in l.accounts
    requires target == account && io.cas.Missed? && io.read.Some? ==> io.read.value == Some(l.accounts[account].known)
    ensures var l' := ResealOne(ring, l, target, io);
            && account in l'.accounts
            && l'.accounts[account].(known := l.accounts[account].known) == l.accounts[account]
  {
  }

  /** A unit handing over the credential the row already holds disturbs no newer rotation. */
  lemma HeldSurvivesUnrotatedHandOver(ring: Keyring, l: LoaderState, account: string, adoption: nat, io: WriteIO)
    requires account in l.accounts
    ensures HandOver(ring, l, account, adoption, l.accounts[account].baseline, io).0 == l
  {
  }

  // ---------------------------------------------------------------- what the stamp is for

  /** The stamp is what keeps a replaced credential from being put back. With the row holding what the
      loader adopted, a unit that took its credential before the adoption is discarded by HandOver,
      whatever it holds, while Persist, which names no stamp, writes any rotation over the adopted
      value. */
  lemma OnlyTheStampRefusesAReplacedCredential(ring: Keyring, l: LoaderState, account: string, before: nat,
                                               current: Plain, nonce: nat)
    requires IsRotation(l, account, current)
    ensures var io := WriteIO(Some(nonce), Landed, None);
            && Persist(ring, l, account, current, io).0.accounts[account].known
               == ring.Seal(current, AccountCredential(account), nonce)
            && (HandOver(ring, l, account, before, current, io) == (l, Holds(l.accounts[account].plaintext))
                || before == l.accounts[account].adoption)
  {
  }
}
