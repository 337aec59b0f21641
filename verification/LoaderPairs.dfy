/** What the accounts served carry, said over the rows read and what the keyring opens alone
    (executioncontext/accountload). */
module LoaderPairs {
  import opened Wrappers
  import opened Sealing
  import opened AccountLoad
  import opened LoaderInvariant

  predicate OpensAs(ring: Keyring, c: ClientRow, name: string) {
    c.name == name && ring.Open(c.secret, ClientSecret(name)).Some?
  }

  /** The last row of the name whose secret opens, and the first row of the name whatever its secret does. */
  ghost predicate LastOpening(ring: Keyring, rows: seq<ClientRow>, name: string, k: int) {
    && 0 <= k < |rows| && OpensAs(ring, rows[k], name)
    && forall j | k < j < |rows| :: !OpensAs(ring, rows[j], name)
  }

  ghost predicate LastNamed(rows: seq<ClientRow>, name: string, k: int) {
    0 <= k < |rows| && rows[k].name == name && forall j | k < j < |rows| :: rows[j].name != name
  }

  ghost predicate FirstNamed(rows: seq<ClientRow>, name: string, k: int) {
    0 <= k < |rows| && rows[k].name == name && forall j | 0 <= j < k :: rows[j].name != name
  }

  /** The account carries the row's client: its name, provider and identifier, and its secret opened. */
  ghost predicate Carries(ring: Keyring, c: ClientRow, s: Served) {
    && ring.Open(c.secret, ClientSecret(c.name)).Some?
    && s.client == Some(Client(c.name, c.provider, c.id, ring.Open(c.secret, ClientSecret(c.name)).value))
  }

  /** The account has no client, and is not connected when its provider authenticates through one. */
  predicate Lacks(cfg: Config, s: Served) {
    s.client.None? && (s.withoutClient <==> s.provider in cfg.throughClient)
  }

  /** Among the rows a load reads, an account carries the client of the last row of the name it names
      whose secret opens, and lacks one exactly when it names none or no row of the name opens. */
  ghost predicate PairedByLoad(cfg: Config, rows: seq<ClientRow>, s: Served) {
    && (s.client.Some? <==>
        s.clientName != "" && exists k :: 0 <= k < |rows| && OpensAs(cfg.ring, rows[k], s.clientName))
    && (forall k | s.clientName != "" && LastOpening(cfg.ring, rows, s.clientName, k) ::
          Carries(cfg.ring, rows[k], s) && !s.withoutClient)
    && (s.client.None? ==> Lacks(cfg, s))
  }

  /** Among the rows a re-read meets, it carries the client of the first row of the name, if that opens. */
  ghost predicate PairedByReread(cfg: Config, rows: seq<ClientRow>, s: Served) {
    && (s.client.Some? <==>
        s.clientName != "" && exists k :: FirstNamed(rows, s.clientName, k) && OpensAs(cfg.ring, rows[k], s.clientName))
    && (forall k ::
          s.clientName != "" && FirstNamed(rows, s.clientName, k) && OpensAs(cfg.ring, rows[k], s.clientName) ==>
          Carries(cfg.ring, rows[k], s) && !s.withoutClient)
    && (s.client.None? ==> Lacks(cfg, s))
  }

  /** Two accounts that differ in no more than their credential and its stamp. */
  predicate SamePairing(s: Served, t: Served) {
    s.(credential := t.credential, adoption := t.adoption) == t
  }

  /** Two accounts that differ in no more than the client they name and carry. */
  predicate SameIdentity(s: Served, t: Served) {
    s.(clientName := t.clientName, client := t.client, withoutClient := t.withoutClient) == t
  }

  // ---------------------------------------------------------------- a load

  ghost predicate OpenedFrom(ring: Keyring, rows: seq<ClientRow>, name: string, clients: map<string, Client>) {
    && (name in clients <==> exists k :: 0 <= k < |rows| && OpensAs(ring, rows[k], name))
    && (forall k | LastOpening(ring, rows, name, k) ::
          && name in clients
          && clients[name]
             == Client(name, rows[k].provider, rows[k].id, ring.Open(rows[k].secret, ClientSecret(name)).value))
  }

  lemma {:induction false} OpenedLast(ring: Keyring, rows: seq<ClientRow>, name: string)
    ensures OpenedFrom(ring, rows, name, OpenedClients(ring, rows))
    decreases |rows|
  {
    if rows == [] {
    } else {
      var n := |rows| - 1;
      OpenedLast(ring, rows[..n], name);
      hide LastOpening;
      LastOpeningOfMore(ring, rows, name);
    }
  }

  lemma LastOpeningOfMore(ring: Keyring, rows: seq<ClientRow>, name: string)
    requires rows != []
    ensures var n := |rows| - 1;
            && ((exists k :: 0 <= k < |rows| && OpensAs(ring, rows[k], name))
                <==> OpensAs(ring, rows[n], name) || exists k :: 0 <= k < n && OpensAs(ring, rows[..n][k], name))
            && forall k | LastOpening(ring, rows, name, k) ::
                 if OpensAs(ring, rows[n], name) then k == n else LastOpening(ring, rows[..n], name, k)
  {
    hide OpensAs;
    var n := |rows| - 1;
    forall k | 0 <= k < n ensures rows[..n][k] == rows[k] { }
    if k :| 0 <= k < n && OpensAs(ring, rows[..n][k], name) {
      assert OpensAs(ring, rows[k], name);
    }
    if k :| 0 <= k < |rows| && OpensAs(ring, rows[k], name) {
      assert k < n ==> OpensAs(ring, rows[..n][k], name);
    }
  }

  lemma PairedIsByLoad(cfg: Config, rows: seq<ClientRow>, a: Served, name: string)
    ensures PairedByLoad(cfg, rows, Paired(cfg, a, name, OpenedClients(cfg.ring, rows)))
  {
    OpenedLast(cfg.ring, rows, name);
  }

  /** Each account served is its row's, in order, and carries the client its row names or lacks one,
      which PairedByLoad says over the rows alone. */
  ghost predicate RowServed(cfg: Config, clients: seq<ClientRow>, r: Row, s: Served) {
    && s.id == r.id && s.provider == r.provider && s.clientName == r.clientName
    && PairedByLoad(cfg, clients, s)
  }

  lemma LoadOnePairs(cfg: Config, l: LoaderState, clients: seq<ClientRow>, before: Accounts, r: Row)
    ensures var served := LoadOne(cfg, l.accounts, OpenedClients(cfg.ring, clients), before, r).served;
            && |served| == |before.served| + 1 && served[..|before.served|] == before.served
            && RowServed(cfg, clients, r, served[|before.served|])
  {
    hide OpensAs, LastOpening;
    PairedIsByLoad(cfg, clients, Served(r.id, r.provider, "", None, false, "", 0), r.clientName);
  }

  lemma {:induction false} LoadRowsPair(cfg: Config, l: LoaderState, rows: seq<Row>, clients: seq<ClientRow>)
    ensures var served := LoadRows(cfg, l, OpenedClients(cfg.ring, clients), rows).served;
            forall i | 0 <= i < |rows| :: RowServed(cfg, clients, rows[i], served[i])
    decreases |rows|
  {
    if rows == [] {
    } else {
      hide RowServed;
      var n := |rows| - 1;
      LoadRowsPair(cfg, l, rows[..n], clients);
      var before := LoadRows(cfg, l, OpenedClients(cfg.ring, clients), rows[..n]);
      LoadOnePairs(cfg, l, clients, before, rows[n]);
      hide LoadOne;
      var after := LoadRows(cfg, l, OpenedClients(cfg.ring, clients), rows);
      forall i | 0 <= i < |rows| ensures RowServed(cfg, clients, rows[i], after.served[i]) {
        if i < n {
          assert rows[..n][i] == rows[i] && after.served[i] == before.served[i];
        }
      }
    }
  }

  /** Each account served is its row's, in the rows' order, and carries the client its row names or
      lacks one, as PairedByLoad says over the rows of the clients alone. */
  lemma LoadPairs(cfg: Config, l: LoaderState, rows: seq<Row>, clients: seq<ClientRow>)
    ensures var served := Load(cfg, l, rows, clients).active;
            && |served| == |rows|
            && forall i | 0 <= i < |rows| ::
                 && served[i].id == rows[i].id && served[i].provider == rows[i].provider
                 && served[i].clientName == rows[i].clientName
                 && PairedByLoad(cfg, clients, served[i])
  {
    LoadRowsPair(cfg, l, rows, clients);
  }

  /** An account a load serves is connected exactly when what is held for it is not empty and, where its
      provider authenticates through a client, its row names one whose secret opens. */
  lemma ConnectedExactly(cfg: Config, l: LoaderState, rows: seq<Row>, clients: seq<ClientRow>, i: nat)
    requires Inv(cfg.ring, l) && UniqueIds(rows) && i < |rows|
    ensures var l' := Load(cfg, l, rows, clients);
            var through := rows[i].clientName != ""
                           && exists k :: 0 <= k < |clients| && OpensAs(cfg.ring, clients[k], rows[i].clientName);
            var held := rows[i].id in l'.accounts && l'.accounts[rows[i].id].plaintext != "";
            && l'.active[i].Connected() == (held && (rows[i].provider in cfg.throughClient ==> through))
  {
    LoadKeepsInv(cfg, l, rows, clients);
    LoadPairs(cfg, l, rows, clients);
    if exists k :: 0 <= k < |clients| && OpensAs(cfg.ring, clients[k], rows[i].clientName) {
      LastOpeningExists(cfg.ring, clients, rows[i].clientName);
    }
    hide OpensAs, Load, LoadRows, LastOpening, Carries;
    assert ServedMatches(Load(cfg, l, rows, clients).accounts, Load(cfg, l, rows, clients).active[i]);
    assert PairedByLoad(cfg, clients, Load(cfg, l, rows, clients).active[i]);
  }

  lemma {:induction false} LastOpeningExists(ring: Keyring, rows: seq<ClientRow>, name: string)
    requires exists k :: 0 <= k < |rows| && OpensAs(ring, rows[k], name)
    ensures exists k :: LastOpening(ring, rows, name, k)
    decreases |rows|
  {
    hide OpensAs;
    var n := |rows| - 1;
    if OpensAs(ring, rows[n], name) {
      assert LastOpening(ring, rows, name, n);
    } else {
      LastOpeningOfMore(ring, rows, name);
      LastOpeningExists(ring, rows[..n], name);
      var k :| LastOpening(ring, rows[..n], name, k);
      assert forall j | 0 <= j < n :: rows[..n][j] == rows[j];
      assert LastOpening(ring, rows, name, k);
    }
  }

  ghost predicate SealedFrom(ring: Keyring, rows: seq<ClientRow>, name: string, secrets: map<string, Sealed>) {
    && (name in secrets <==> exists k :: 0 <= k < |rows| && OpensAs(ring, rows[k], name))
    && (forall k | LastOpening(ring, rows, name, k) :: name in secrets && secrets[name] == rows[k].secret)
  }

  lemma {:induction false} SealedLast(ring: Keyring, rows: seq<ClientRow>, name: string)
    ensures SealedFrom(ring, rows, name, SealedClients(ring, rows))
    decreases |rows|
  {
    if rows == [] {
    } else {
      SealedLast(ring, rows[..|rows| - 1], name);
      hide LastOpening;
      LastOpeningOfMore(ring, rows, name);
    }
  }

  ghost predicate ScannedFrom(ring: Keyring, rows: seq<ClientRow>, name: string, scan: map<string, bool>) {
    && (name in scan <==> exists k :: 0 <= k < |rows| && rows[k].name == name)
    && (forall k | LastNamed(rows, name, k) ::
          && name in scan
          && (scan[name] <==> !OpensAs(ring, rows[k], name) || ring.OnOldKey(rows[k].secret)))
  }

  lemma {:induction false} ScannedLast(ring: Keyring, rows: seq<ClientRow>, name: string)
    ensures ScannedFrom(ring, rows, name, ScannedClients(ring, rows))
    decreases |rows|
  {
    if rows == [] {
    } else {
      var n := |rows| - 1;
      ScannedLast(ring, rows[..n], name);
      forall k | LastNamed(rows, name, k) && k < n ensures LastNamed(rows[..n], name, k) {
        assert rows[..n][k] == rows[k];
      }
      if k :| 0 <= k < n && rows[k].name == name {
        assert rows[..n][k] == rows[k];
      }
      if k :| 0 <= k < n && rows[..n][k].name == name {
        assert rows[k].name == name;
      }
      if rows[n].name == name {
        assert forall k | LastNamed(rows, name, k) :: k == n;
      }
    }
  }

  ghost predicate RowScanned(ring: Keyring, r: Row, known: map<string, Held>, scan: map<string, bool>) {
    r.id in scan && (scan[r.id] <==> r.stored.Some? && (r.id !in known || ring.OnOldKey(r.stored.value)))
  }

  lemma LoadOneScans(cfg: Config, l: LoaderState, clients: map<string, Client>, a: Accounts, r: Row)
    requires r.id !in a.known
    ensures var a' := LoadOne(cfg, l.accounts, clients, a, r);
            && RowScanned(cfg.ring, r, a'.known, a'.scan)
            && a'.scan.Keys == a.scan.Keys + {r.id} && a'.known.Keys <= a.known.Keys + {r.id}
            && a'.scan - {r.id} == a.scan - {r.id} && a'.known - {r.id} == a.known - {r.id}
  {
  }

  lemma OtherRowStays(ring: Keyring, r: Row, other: string, a: Accounts, a': Accounts)
    requires r.id != other && RowScanned(ring, r, a.known, a.scan)
    requires a'.scan - {other} == a.scan - {other} && a'.known - {other} == a.known - {other}
    ensures RowScanned(ring, r, a'.known, a'.scan)
  {
    assert r.id in a'.scan - {other};
    assert r.id in a'.known <==> r.id in a'.known - {other};
    assert r.id in a.known <==> r.id in a.known - {other};
  }

  ghost predicate RowsScanned(ring: Keyring, rows: seq<Row>, a: Accounts) {
    && a.scan.Keys == RowIds(rows) && a.known.Keys <= RowIds(rows)
    && forall i | 0 <= i < |rows| :: RowScanned(ring, rows[i], a.known, a.scan)
  }

  lemma NextRowScanned(ring: Keyring, rows: seq<Row>, a: Accounts, a': Accounts)
    requires rows != [] && UniqueIds(rows) && RowsScanned(ring, rows[..|rows| - 1], a)
    requires var r := rows[|rows| - 1];
             && RowScanned(ring, r, a'.known, a'.scan)
             && a'.scan.Keys == a.scan.Keys + {r.id} && a'.known.Keys <= a.known.Keys + {r.id}
             && a'.scan - {r.id} == a.scan - {r.id} && a'.known - {r.id} == a.known - {r.id}
    ensures RowsScanned(ring, rows, a')
  {
    hide RowScanned, RowIds;
    var n := |rows| - 1;
    LastRowIsNew(rows);
    forall i | 0 <= i < n ensures RowScanned(ring, rows[i], a'.known, a'.scan) {
      assert rows[..n][i] == rows[i] && rows[i].id != rows[n].id;
      OtherRowStays(ring, rows[i], rows[n].id, a, a');
    }
  }

  lemma {:induction false} AccountsScanned(cfg: Config, l: LoaderState, clients: map<string, Client>, rows: seq<Row>)
    requires UniqueIds(rows)
    ensures RowsScanned(cfg.ring, rows, LoadRows(cfg, l, clients, rows))
    decreases |rows|
  {
    if rows == [] {
    } else {
      var n := |rows| - 1;
      AccountsScanned(cfg, l, clients, rows[..n]);
      LastRowIsNew(rows);
      var a := LoadRows(cfg, l, clients, rows[..n]);
      assert rows[n].id !in a.known;
      LoadOneScans(cfg, l, clients, a, rows[n]);
      hide LoadOne, RowScanned, RowsScanned;
      NextRowScanned(cfg.ring, rows, a, LoadRows(cfg, l, clients, rows));
    }
  }

  /** What a load knows of the clients' secrets is what the last opening row of each name holds, and
      its scan reads true of exactly the rows whose value does not open or is on an old key. */
  lemma LoadScans(cfg: Config, l: LoaderState, rows: seq<Row>, clients: seq<ClientRow>)
    requires UniqueIds(rows)
    ensures var l' := Load(cfg, l, rows, clients);
            && (forall name ::
                  && SealedFrom(cfg.ring, clients, name, l'.clients)
                  && ScannedFrom(cfg.ring, clients, name, l'.scan.clients))
            && l'.scan.accounts.Keys == RowIds(rows)
            && (forall i | 0 <= i < |rows| :: RowScanned(cfg.ring, rows[i], l'.accounts, l'.scan.accounts))
  {
    var l' := Load(cfg, l, rows, clients);
    AccountsScanned(cfg, l, OpenedClients(cfg.ring, clients), rows);
    forall name
      ensures SealedFrom(cfg.ring, clients, name, l'.clients)
      ensures ScannedFrom(cfg.ring, clients, name, l'.scan.clients)
    {
      SealedLast(cfg.ring, clients, name);
      ScannedLast(cfg.ring, clients, name);
    }
  }

  // ---------------------------------------------------------------- a re-read

  lemma {:induction false} FirstClientIsFirst(rows: seq<ClientRow>, name: string)
    ensures FirstClient(rows, name).Some? <==> exists k :: 0 <= k < |rows| && rows[k].name == name
    ensures forall k | FirstNamed(rows, name, k) :: FirstClient(rows, name) == Some(rows[k])
    ensures FirstClient(rows, name).Some? ==> exists k :: FirstNamed(rows, name, k)
    decreases |rows|
  {
    if rows == [] {
    } else {
      var rest := rows[1..];
      FirstClientIsFirst(rest, name);
      assert forall k | 1 <= k < |rows| :: rows[k] == rest[k - 1];
      if rows[0].name == name {
        assert FirstNamed(rows, name, 0);
      } else {
        forall k | FirstNamed(rows, name, k) ensures FirstNamed(rest, name, k - 1) {
          assert forall j | 0 <= j < k - 1 :: rest[j] == rows[j + 1];
        }
        if k :| FirstNamed(rest, name, k) {
          assert FirstNamed(rows, name, k + 1);
        }
      }
    }
  }

  lemma PairedIsByReread(cfg: Config, rows: seq<ClientRow>, a: Served, name: string)
    ensures PairedByReread(cfg, rows, Paired(cfg, a, name, OpenedNamed(cfg.ring, rows, name)))
  {
    FirstClientIsFirst(rows, name);
  }

  ghost predicate FirstServed(active: seq<Served>, account: string, k: int) {
    0 <= k < |active| && active[k].id == account && forall j | 0 <= j < k :: active[j].id != account
  }

  lemma {:induction false} LookupIsFirst(active: seq<Served>, account: string)
    ensures forall k | FirstServed(active, account, k) :: Lookup(active, account) == active[k]
    ensures (forall k | 0 <= k < |active| :: active[k].id != account) ==>
              Lookup(active, account) == Served(account, "", "", None, false, "", 0)
    decreases |active|
  {
    if active == [] {
    } else {
      var rest := active[1..];
      LookupIsFirst(rest, account);
      assert forall k | 0 <= k < |rest| :: rest[k] == active[k + 1];
      forall k | FirstServed(active, account, k) && k > 0 ensures FirstServed(rest, account, k - 1) { }
    }
  }

  /** A row just read makes of its account what a load would, and of no other anything. */
  lemma ReadoptLoads(ring: Keyring, l: LoaderState, account: string, stored: Option<Sealed>)
    ensures var l' := Readopt(ring, l, account, stored);
            && RowLoaded(ring, l, Row(account, "", "", stored), l'.accounts)
            && l'.accounts - {account} == l.accounts - {account}
            && |l'.active| == |l.active|
            && (forall i | 0 <= i < |l.active| ::
                  && SamePairing(l'.active[i], l.active[i])
                  && (if l.active[i].id == account then ServedMatches(l'.accounts, l'.active[i])
                      else l'.active[i] == l.active[i]))
  {
  }

  ghost predicate NamedAsServed(active: seq<Served>, account: string, s: Served) {
    && (forall k | FirstServed(active, account, k) ::
          s.provider == active[k].provider && s.clientName == active[k].clientName)
    && ((forall k | 0 <= k < |active| :: active[k].id != account) ==> s.provider == "" && s.clientName == "")
  }

  /** An entry served takes the client of another, and stays all else but a credential that is held. */
  predicate TakesClient(accounts: map<string, Held>, s: Served, s': Served, b: Served) {
    && s'.clientName == b.clientName && s'.client == b.client && s'.withoutClient == b.withoutClient
    && s'.id == s.id && s'.provider == s.provider && ServedMatches(accounts, s')
  }

  lemma RereadAccountPairs(cfg: Config, l: LoaderState, account: string, listing: Listing)
    ensures var a := RereadAccount(cfg, l, account, listing);
            && a.id == account
            && (listing.listed.Some? ==> (a.provider, a.clientName) == listing.listed.value)
            && (listing.listed.None? ==> NamedAsServed(l.active, account, a))
            && PairedByReread(cfg, listing.clients, a)
  {
    LookupId(l.active, account);
    LookupIsFirst(l.active, account);
    var at := Lookup(l.active, account);
    var provider := if listing.listed.Some? then listing.listed.value.0 else at.provider;
    var name := if listing.listed.Some? then listing.listed.value.1 else at.clientName;
    hide PairedByReread;
    PairedIsByReread(cfg, listing.clients, at.(provider := provider), name);
  }

  /** The account a re-read returns has the listing's provider and client, or those it was served with
      when it is listed no longer. It carries that client or lacks one, as PairedByReread says over the
      rows of the clients alone, and the entries served of the account then do. Its credential is the
      one held, which is what a load of the row would hold. */
  lemma RereadPairs(cfg: Config, l: LoaderState, account: string, stored: Option<Sealed>, listing: Listing)
    ensures var (l', b) := Reread(cfg, l, account, stored, listing);
            && b.id == account
            && (listing.listed.Some? ==> (b.provider, b.clientName) == listing.listed.value)
            && (listing.listed.None? ==> NamedAsServed(l.active, account, b))
            && PairedByReread(cfg, listing.clients, b)
            && RowLoaded(cfg.ring, l, Row(account, b.provider, b.clientName, stored), l'.accounts)
            && l'.accounts - {account} == l.accounts - {account}
            && b.credential == (if account in l'.accounts then l'.accounts[account].plaintext else "")
            && b.adoption == (if b.credential != "" then l'.accounts[account].adoption else 0)
            && |l'.active| == |l.active|
            && (forall i | 0 <= i < |l.active| ::
                  if l.active[i].id == account then TakesClient(l'.accounts, l.active[i], l'.active[i], b)
                  else l'.active[i] == l.active[i])
  {
    var a := RereadAccount(cfg, l, account, listing);
    RereadAccountPairs(cfg, l, account, listing);
    ReadoptLoads(cfg.ring, l, account, stored);
    hide RereadAccount, Readopt, OpensAs, FirstNamed, FirstServed;
    var (l', b) := Reread(cfg, l, account, stored, listing);
    assert SamePairing(b, a);
  }

  ghost predicate RereadSealed(ring: Keyring, rows: seq<ClientRow>, name: string, l: LoaderState) {
    && (name in l.clients <==> exists k :: FirstNamed(rows, name, k) && OpensAs(ring, rows[k], name))
    && (name in l.scan.clients <==> exists k :: FirstNamed(rows, name, k))
    && (forall k | FirstNamed(rows, name, k) ::
          && (name in l.clients ==> l.clients[name] == rows[k].secret)
          && (name in l.scan.clients ==>
                (l.scan.clients[name] <==> !OpensAs(ring, rows[k], name) || ring.OnOldKey(rows[k].secret))))
  }

  /** A client secret read again pairs exactly the accounts that name the client anew, and changes what
      is known and scanned of that client alone. */
  lemma RereadClientPairs(cfg: Config, l: LoaderState, name: string, rows: seq<ClientRow>)
    ensures var l' := RereadClient(cfg, l, name, rows);
            && |l'.active| == |l.active|
            && (forall i | 0 <= i < |l.active| ::
                  if l.active[i].clientName == name
                  then && SameIdentity(l'.active[i], l.active[i]) && l'.active[i].clientName == name
                       && PairedByReread(cfg, rows, l'.active[i])
                  else l'.active[i] == l.active[i])
            && RereadSealed(cfg.ring, rows, name, l')
            && l'.clients - {name} == l.clients - {name}
            && l'.scan.clients - {name} == l.scan.clients - {name}
            && (l'.accounts, l'.adoptions, l'.scan.accounts) == (l.accounts, l.adoptions, l.scan.accounts)
  {
    var l' := RereadClient(cfg, l, name, rows);
    forall i | 0 <= i < |l.active| && l.active[i].clientName == name
      ensures PairedByReread(cfg, rows, l'.active[i]) && SameIdentity(l'.active[i], l.active[i])
    {
      PairedIsByReread(cfg, rows, l.active[i], name);
    }
    hide PairedByReread;
    FirstClientIsFirst(rows, name);
  }

  // ---------------------------------------------------------------- write-back and re-seal

  ghost predicate PairingsKept(l: LoaderState, l': LoaderState) {
    && |l'.active| == |l.active|
    && (forall i | 0 <= i < |l.active| :: SamePairing(l'.active[i], l.active[i]))
    && l'.clients == l.clients && l'.scan.clients == l.scan.clients
  }

  /** What a hand-over replies, and what it leaves held. A stale one, and one of what the row opened
      to, change nothing. A rotation is held whatever becomes of its write, is known and on the current
      key once the write landed, and gives way to the row when the write missed. */
  lemma HandOverReplies(ring: Keyring, l: LoaderState, account: string, adoption: nat, current: Plain, io: WriteIO)
    requires ring.Valid() && account != ""
    ensures var (l', reply) := HandOver(ring, l, account, adoption, current, io);
            && l'.accounts - {account} == l.accounts - {account} && PairingsKept(l, l') && l'.scan == l.scan
            && (account !in l.accounts ==> reply == NotConnected && l' == l)
            && (account in l.accounts ==>
                  var h := l.accounts[account];
                  if h.adoption != adoption then reply == Holds(h.plaintext) && l' == l
                  else if current == "" then reply == EmptyCredential && l' == l
                  else if current == h.baseline then reply == Holds(current) && l' == l
                  else if io.nonce.None? || io.cas.CasFailed? || (io.cas.Missed? && io.read.None?) then
                    reply == WriteFailed(current) && account in l'.accounts
                    && l'.accounts[account] == h.(plaintext := current)
                  else if io.cas.Landed? then
                    reply == Holds(current) && account in l'.accounts
                    && var known := l'.accounts[account].known;
                       && l'.accounts[account] == Held(known, current, current, h.adoption)
                       && ring.Open(known, AccountCredential(account)) == Some(current) && !ring.OnOldKey(known)
                  else
                    var held := l.(accounts := l.accounts[account := h.(plaintext := current)]);
                    && RowLoaded(ring, held, Row(account, "", "", io.read.value), l'.accounts)
                    && reply == Holds(if account in l'.accounts then l'.accounts[account].plaintext else ""))
  {
    if IsRotation(l, account, current) && io.read.Some? {
      ReadoptLoads(ring, HoldRotation(l, account, current), account, io.read.value);
    }
    hide RowLoaded, Readopt;
  }

  /** What a re-seal writes of one account, all else staying as it is. */
  ghost predicate ResealsAlone(l: LoaderState, l': LoaderState, account: string) {
    && l'.accounts - {account} == l.accounts - {account} && PairingsKept(l, l')
    && l'.scan.accounts - {account} == l.scan.accounts - {account}
  }

  /** A re-seal changes nothing of a value on the current key, nor when it cannot seal or write. */
  lemma ResealWritesNothing(ring: Keyring, l: LoaderState, account: string, io: WriteIO)
    requires account in l.accounts && ring.OnOldKey(l.accounts[account].known) ==>
               io.nonce.None? || io.cas.CasFailed? || (io.cas.Missed? && io.read.None?)
    ensures ResealOne(ring, l, account, io) == l
  {
  }

  /** One that lands leaves the value on the current key, opening to what it did, and its scan entry
      reads false. */
  lemma ResealLands(ring: Keyring, l: LoaderState, account: string, io: WriteIO)
    requires ring.Valid() && Inv(ring, l)
    requires account in l.accounts && ring.OnOldKey(l.accounts[account].known) && io.nonce.Some? && io.cas.Landed?
    ensures var l' := ResealOne(ring, l, account, io);
            && ResealsAlone(l, l', account)
            && l'.active == l.active && l'.adoptions == l.adoptions && account in l'.accounts
            && account in l'.scan.accounts && !l'.scan.accounts[account]
            && var h := l'.accounts[account];
               && h == l.accounts[account].(known := h.known)
               && !ring.OnOldKey(h.known) && ring.Open(h.known, AccountCredential(account)) == Some(h.baseline)
  {
    assert HeldOpens(ring, l, account);
  }

  /** One that misses takes what the row holds as a load would, and its scan entry says whether that
      still does not open or is on an old key. */
  lemma ResealMisses(ring: Keyring, l: LoaderState, account: string, io: WriteIO)
    requires Inv(ring, l)
    requires account in l.accounts && ring.OnOldKey(l.accounts[account].known)
    requires io.nonce.Some? && io.cas.Missed? && io.read.Some?
    ensures var l' := ResealOne(ring, l, account, io);
            var row := Row(account, "", "", io.read.value);
            && ResealsAlone(l, l', account)
            && RowLoaded(ring, l, row, l'.accounts) && RowScanned(ring, row, l'.accounts, l'.scan.accounts)
  {
    assert HeldOpens(ring, l, account);
    ReadoptLoads(ring, l, account, io.read.value);
    hide RowLoaded, Readopt;
  }

  /** A client's re-seal that lands leaves its secret on the current key, opening to what it did, and
      changes nothing else but its scan entry, which reads false. */
  lemma ClientResealLands(cfg: Config, l: LoaderState, name: string, io: ClientIO)
    requires cfg.ring.Valid() && name in l.clients && cfg.ring.OnOldKey(l.clients[name])
    requires cfg.ring.Open(l.clients[name], ClientSecret(name)).Some? && io.nonce.Some? && io.cas.Landed?
    ensures var l' := ResealClient(cfg, l, name, io);
            && l'.clients - {name} == l.clients - {name} && name in l'.clients
            && !cfg.ring.OnOldKey(l'.clients[name])
            && cfg.ring.Open(l'.clients[name], ClientSecret(name)) == cfg.ring.Open(l.clients[name], ClientSecret(name))
            && l'.scan.clients == l.scan.clients[name := false]
            && l' == l.(clients := l'.clients, scan := l.scan.(clients := l'.scan.clients))
  {
  }

  /** One that misses is the client read again, and any other changes nothing. */
  lemma ClientResealMisses(cfg: Config, l: LoaderState, name: string, io: ClientIO)
    requires io.nonce.None? || !io.cas.Landed?
    ensures ResealClient(cfg, l, name, io)
            == if && name in l.clients && cfg.ring.OnOldKey(l.clients[name])
                  && cfg.ring.Open(l.clients[name], ClientSecret(name)).Some?
                  && io.nonce.Some? && io.cas.Missed? && io.read.Some?
               then RereadClient(cfg, l, name, io.read.value)
               else l
  {
  }
}
