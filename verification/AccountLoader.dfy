/** The account loader as it runs: fields updated in place under its lock
    (executioncontext/accountload/load.go, writeback.go, reseal.go). Each method leaves the loader in
    the state its transition in AccountLoad describes. */
module AccountLoader {
  import opened Wrappers
  import opened Sealing
  import opened AccountLoad
  import opened LoaderPairs

  class Loader {
    const cfg: Config
    var accounts: map<string, Held>
    var adoptions: nat
    var clients: map<string, Sealed>
    var scan: Scan
    var active: seq<Served>

    ghost function State(): LoaderState
      reads this
    {
      LoaderState(accounts, adoptions, clients, scan, active)
    }

    constructor (cfg: Config)
      ensures this.cfg == cfg && State() == UNLOADED
    {
      this.cfg := cfg;
      accounts, adoptions, clients, scan, active := map[], 0, map[], Scan(map[], map[]), [];
    }

    method PublishHeld(account: string, credential: Plain, adoption: nat)
      modifies this`active
      ensures active == Publish(old(active), account, credential, adoption)
    {
      var next := active;
      for i := 0 to |next|
        invariant |next| == |active|
        invariant forall k | 0 <= k < |next| ::
                    next[k] == if k < i then Publish(active, account, credential, adoption)[k] else active[k]
      {
        if next[i].id == account {
          next := next[i := next[i].(credential := credential, adoption := adoption)];
        }
      }
      active := next;
    }

    method PublishNamed(a: Served)
      modifies this`active
      ensures active == PublishClient(old(active), a)
    {
      var next := active;
      for i := 0 to |next|
        invariant |next| == |active|
        invariant forall k | 0 <= k < |next| :: next[k] == if k < i then PublishClient(active, a)[k] else active[k]
      {
        if next[i].id == a.id {
          next := next[i := next[i].(clientName := a.clientName, client := a.client, withoutClient := a.withoutClient)];
        }
      }
      active := next;
    }

    method HoldValue(account: string, h: Held)
      modifies this`accounts, this`active
      ensures State() == Hold(old(State()), account, h)
    {
      accounts := accounts[account := h];
      PublishHeld(account, h.plaintext, h.adoption);
    }

    method AdoptValue(account: string, stored: Option<Sealed>) returns (h: Option<Held>)
      modifies this`adoptions
      ensures (h, adoptions) == Adopt(cfg.ring, accounts, old(adoptions), account, stored)
    {
      if stored.None? {
        return None;
      }
      if account in accounts && accounts[account].known == stored.value {
        return Some(accounts[account]);
      }
      var plaintext := cfg.ring.Open(stored.value, AccountCredential(account));
      if plaintext.None? {
        return None;
      }
      adoptions := adoptions + 1;
      return Some(Held(stored.value, plaintext.value, plaintext.value, adoptions));
    }

    method ReadoptValue(account: string, stored: Option<Sealed>) returns (credential: Plain)
      modifies this`accounts, this`active, this`adoptions
      ensures State() == Readopt(cfg.ring, old(State()), account, stored)
      ensures credential == if account in accounts then accounts[account].plaintext else ""
    {
      var h := AdoptValue(account, stored);
      if h.None? {
        accounts := accounts - {account};
        PublishHeld(account, "", 0);
        return "";
      }
      HoldValue(account, h.value);
      return h.value.plaintext;
    }

    method PersistRotation(account: string, current: Plain, io: WriteIO) returns (reply: Reply)
      modifies this
      ensures (State(), reply) == Persist(cfg.ring, old(State()), account, current, io)
    {
      if account !in accounts {
        return NotConnected;
      }
      if current == "" {
        return EmptyCredential;
      }
      var h := accounts[account];
      if current == h.baseline {
        return Holds(h.baseline);
      }
      h := h.(plaintext := current);
      HoldValue(account, h);
      if io.nonce.None? {
        return WriteFailed(current);
      }
      var sealed := cfg.ring.Seal(current, AccountCredential(account), io.nonce.value);
      if io.cas.CasFailed? {
        return WriteFailed(current);
      }
      if io.cas.Landed? {
        h := h.(known := sealed, baseline := h.plaintext);
        HoldValue(account, h);
        return Holds(h.plaintext);
      }
      if io.read.None? {
        return WriteFailed(current);
      }
      var credential := ReadoptValue(account, io.read.value);
      return Holds(credential);
    }

    method HandOverCredential(account: string, adoption: nat, current: Plain, io: WriteIO) returns (reply: Reply)
      modifies this
      ensures (State(), reply) == HandOver(cfg.ring, old(State()), account, adoption, current, io)
    {
      if account in accounts && accounts[account].adoption != adoption {
        return Holds(accounts[account].plaintext);
      }
      reply := PersistRotation(account, current, io);
    }

    /** Re-reads the account's row. A read that fails changes nothing and returns no account. */
    method RereadAccountRow(account: string, stored: Option<Option<Sealed>>, listing: Option<Listing>)
      returns (r: Option<Served>)
      modifies this
      ensures stored.None? || listing.None? ==> r.None? && State() == old(State())
      ensures stored.Some? && listing.Some? ==>
        r.Some? && (State(), r.value) == Reread(cfg, old(State()), account, stored.value, listing.value)
      ensures r.Some? && listing.Some? ==> r.value.id == account && PairedByReread(cfg, listing.value.clients, r.value)
    {
      if stored.None? || listing.None? {
        return None;
      }
      var a := RereadAccount(cfg, LoaderState(accounts, adoptions, clients, scan, active), account, listing.value);
      var credential := ReadoptValue(account, stored.value);
      if credential == "" {
        a := a.(credential := "", adoption := 0);
      } else {
        var h := accounts[account];
        a := a.(credential := h.plaintext, adoption := h.adoption);
      }
      RereadAccountPairs(cfg, old(State()), account, listing.value);
      PublishNamed(a);
      return Some(a);
    }

    /** Loads, or, when a read fails, changes nothing. */
    method LoadSnapshot(read: Option<(seq<Row>, seq<ClientRow>)>) returns (ok: bool)
      modifies this
      ensures ok == read.Some?
      ensures State() == if read.None? then old(State())
                         else AccountLoad.Load(cfg, old(State()), read.value.0, read.value.1)
      ensures read.Some? ==>
                && |active| == |read.value.0|
                && forall i | 0 <= i < |active| :: RowServed(cfg, read.value.1, read.value.0[i], active[i])
    {
      if read.None? {
        return false;
      }
      var (rows, clientRows) := read.value;
      var openedClients, sealedClients, clientScan := map[], map[], map[];
      for i := 0 to |clientRows|
        invariant openedClients == OpenedClients(cfg.ring, clientRows[..i])
        invariant sealedClients == SealedClients(cfg.ring, clientRows[..i])
        invariant clientScan == ScannedClients(cfg.ring, clientRows[..i])
      {
        var c := clientRows[i];
        assert clientRows[..i + 1][..i] == clientRows[..i];
        var client := OpenClient(cfg.ring, c);
        clientScan := clientScan[c.name := client.None? || cfg.ring.OnOldKey(c.secret)];
        if client.Some? {
          openedClients := openedClients[c.name := client.value];
          sealedClients := sealedClients[c.name := c.secret];
        }
      }
      assert clientRows[..|clientRows|] == clientRows;
      var known, accountScan, served := map[], map[], [];
      ghost var l := State();
      for i := 0 to |rows|
        invariant accounts == l.accounts && State() == l.(adoptions := adoptions)
        invariant Accounts(known, adoptions, accountScan, served) == LoadRows(cfg, l, openedClients, rows[..i])
      {
        var r := rows[i];
        assert rows[..i + 1][..i] == rows[..i];
        var a := Paired(cfg, Served(r.id, r.provider, "", None, false, "", 0), r.clientName, openedClients);
        var h := AdoptValue(r.id, r.stored);
        if h.Some? {
          a := a.(credential := h.value.plaintext, adoption := h.value.adoption);
          known := known[r.id := h.value];
        }
        accountScan := accountScan[r.id := r.stored.Some? && (h.None? || cfg.ring.OnOldKey(r.stored.value))];
        served := served + [a];
      }
      assert rows[..|rows|] == rows;
      accounts, clients, scan, active := known, sealedClients, Scan(accountScan, clientScan), served;
      LoadRowsPair(cfg, l, rows, clientRows);
      return true;
    }

    method ResealAccounts(order: seq<string>, io: seq<WriteIO>)
      requires |io| == |order|
      modifies this
      ensures State() == AccountLoad.Reseal(cfg.ring, old(State()), order, io)
    {
      ghost var l := State();
      for i := 0 to |order|
        invariant State() == AccountLoad.Reseal(cfg.ring, l, order[..i], io[..i])
      {
        assert order[..i + 1][..i] == order[..i] && io[..i + 1][..i] == io[..i];
        ResealAccount(order[i], io[i]);
      }
      assert order[..|order|] == order && io[..|io|] == io;
    }

    method ResealAccount(account: string, io: WriteIO)
      modifies this
      ensures State() == ResealOne(cfg.ring, old(State()), account, io)
    {
      if account !in accounts || !cfg.ring.OnOldKey(accounts[account].known) || io.nonce.None? {
        return;
      }
      var h := accounts[account];
      var sealed := cfg.ring.Reseal(h.known, AccountCredential(account), io.nonce.value);
      if sealed.None? || io.cas.CasFailed? {
        return;
      }
      if io.cas.Landed? {
        accounts := accounts[account := h.(known := sealed.value)];
        scan := scan.(accounts := scan.accounts[account := cfg.ring.OnOldKey(sealed.value)]);
        return;
      }
      if io.read.Some? {
        var _ := ReadoptValue(account, io.read.value);
        var stored := io.read.value;
        scan := scan.(accounts := scan.accounts[account :=
          stored.Some? && (account !in accounts || cfg.ring.OnOldKey(stored.value))]);
      }
    }

    method ResealClientSecrets(names: seq<string>, io: seq<ClientIO>)
      requires |io| == |names|
      modifies this
      ensures State() == AccountLoad.ResealClients(cfg, old(State()), names, io)
    {
      ghost var l := State();
      for i := 0 to |names|
        invariant State() == AccountLoad.ResealClients(cfg, l, names[..i], io[..i])
      {
        assert names[..i + 1][..i] == names[..i] && io[..i + 1][..i] == io[..i];
        ResealClientSecret(names[i], io[i]);
      }
      assert names[..|names|] == names && io[..|io|] == io;
    }

    method ResealClientSecret(name: string, io: ClientIO)
      modifies this
      ensures State() == ResealClient(cfg, old(State()), name, io)
    {
      if name !in clients || !cfg.ring.OnOldKey(clients[name]) || io.nonce.None? {
        return;
      }
      var sealed := cfg.ring.Reseal(clients[name], ClientSecret(name), io.nonce.value);
      if sealed.None? || io.cas.CasFailed? {
        return;
      }
      if io.cas.Landed? {
        clients := clients[name := sealed.value];
        scan := scan.(clients := scan.clients[name := cfg.ring.OnOldKey(sealed.value)]);
      } else if io.read.Some? {
        RereadClientSecret(name, io.read.value);
      }
    }

    method RereadClientSecret(name: string, rows: seq<ClientRow>)
      modifies this
      ensures State() == RereadClient(cfg, old(State()), name, rows)
      ensures |active| == |old(active)|
      ensures forall i | 0 <= i < |active| ::
                if old(active)[i].clientName == name then PairedByReread(cfg, rows, active[i])
                else active[i] == old(active)[i]
    {
      hide PairedByReread, RereadSealed, SameIdentity;
      var first := FirstClient(rows, name);
      var named := OpenedNamed(cfg.ring, rows, name);
      clients := clients - {name};
      scan := scan.(clients := scan.clients - {name});
      if first.Some? {
        scan := scan.(clients := scan.clients[name := name !in named || cfg.ring.OnOldKey(first.value.secret)]);
        if name in named {
          clients := clients[name := first.value.secret];
        }
      }
      ghost var goal := RereadClient(cfg, old(State()), name, rows);
      assert clients == goal.clients;
      assert scan.clients == goal.scan.clients;
      var next := active;
      for i := 0 to |next|
        invariant |next| == |active|
        invariant forall k | 0 <= k < |next| :: next[k] == if k < i then goal.active[k] else active[k]
      {
        if next[i].clientName == name {
          next := next[i := Paired(cfg, next[i], name, named)];
        }
      }
      active := next;
      RereadClientPairs(cfg, old(State()), name, rows);
    }
  }
}
