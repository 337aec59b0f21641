/** The account loader's state and its transitions (executioncontext/accountload).

    Every transaction the loader runs is a parameter: what a compare-and-set reported, what a read
    returned, whether either failed. The transitions below are what the loader does with those
    answers, and class Loader in AccountLoader.dfy performs them on its fields. */
module AccountLoad {
  import opened Wrappers
  import opened Sealing

  datatype Client = Client(name: string, provider: string, id: string, secret: Plain)

  /** A row of oauth_clients. */
  datatype ClientRow = ClientRow(name: string, provider: string, id: string, secret: Sealed)

  /** One account of a snapshot. The empty credential is none. */
  datatype Served = Served(id: string, provider: string, clientName: string, client: Option<Client>,
                           withoutClient: bool, credential: Plain, adoption: nat)
  {
    predicate Connected() { credential != "" && !withoutClient }
    function Credential(): Plain { if Connected() then credential else "" }
  }

  /** One account's value: the sealed bytes last seen in its row, what they open to in baseline, and in plaintext
      the credential in use, which differs from it from a rotation until its write lands. */
  datatype Held = Held(known: Sealed, baseline: Plain, plaintext: Plain, adoption: nat)

  datatype Scan = Scan(accounts: map<string, bool>, clients: map<string, bool>)

  datatype Config = Config(ring: Keyring, throughClient: set<string>)

  datatype LoaderState = LoaderState(accounts: map<string, Held>, adoptions: nat,
                                     clients: map<string, Sealed>, scan: Scan, active: seq<Served>)

  const UNLOADED := LoaderState(map[], 0, map[], Scan(map[], map[]), [])

  /** A listed account with what its state row held when it was read. */
  datatype Row = Row(id: string, provider: string, clientName: string, stored: Option<Sealed>)

  /** The answers to one write: the seal's randomness or a failed seal, the compare-and-set's report,
      and the value a read after a miss returned, or a failed read. */
  datatype Cas = Landed | Missed | CasFailed
  datatype WriteIO = WriteIO(nonce: Option<nat>, cas: Cas, read: Option<Option<Sealed>>)

  datatype Reply = Holds(credential: Plain) | WriteFailed(credential: Plain) | NotConnected | EmptyCredential

  // ---------------------------------------------------------------- publishing

  function Publish(active: seq<Served>, account: string, credential: Plain, adoption: nat): (r: seq<Served>)
    ensures |r| == |active|
  {
    seq(|active|, i requires 0 <= i < |active| =>
      if active[i].id == account then active[i].(credential := credential, adoption := adoption) else active[i])
  }

  function PublishClient(active: seq<Served>, a: Served): (r: seq<Served>)
    ensures |r| == |active|
  {
    seq(|active|, i requires 0 <= i < |active| =>
      if active[i].id == a.id
      then active[i].(clientName := a.clientName, client := a.client, withoutClient := a.withoutClient)
      else active[i])
  }

  function Hold(l: LoaderState, account: string, h: Held): LoaderState {
    l.(accounts := l.accounts[account := h], active := Publish(l.active, account, h.plaintext, h.adoption))
  }

  // ---------------------------------------------------------------- adopting a stored value

  /** What the loader holds for a row holding stored, and the count of outside values after it. */
  function Adopt(ring: Keyring, accounts: map<string, Held>, adoptions: nat, account: string, stored: Option<Sealed>)
    : (Option<Held>, nat)
  {
    if stored.None? then (None, adoptions)
    else if account in accounts && accounts[account].known == stored.value then (Some(accounts[account]), adoptions)
    else match ring.Open(stored.value, AccountCredential(account))
      case None => (None, adoptions)
      case Some(p) => (Some(Held(stored.value, p, p, adoptions + 1)), adoptions + 1)
  }

  /** What a fresh read of the row makes of the account, in what is held and in what is served. */
  function Readopt(ring: Keyring, l: LoaderState, account: string, stored: Option<Sealed>): LoaderState {
    var (h, n) := Adopt(ring, l.accounts, l.adoptions, account, stored);
    match h
    case None => l.(accounts := l.accounts - {account}, active := Publish(l.active, account, "", 0))
    case Some(held) => Hold(l.(adoptions := n), account, held)
  }

  // ---------------------------------------------------------------- writing a rotation back

  /** Whether a credential handed over is a rotation, so it must be written. */
  predicate IsRotation(l: LoaderState, account: string, current: Plain) {
    account in l.accounts && current != "" && current != l.accounts[account].baseline
  }

  function HoldRotation(l: LoaderState, account: string, current: Plain): LoaderState
    requires account in l.accounts
  {
    Hold(l, account, l.accounts[account].(plaintext := current))
  }

  /** The compare-and-set landed: what it wrote is what the row holds. */
  function Land(l: LoaderState, account: string, sealed: Sealed): LoaderState
    requires account in l.accounts
  {
    var h := l.accounts[account];
    Hold(l, account, h.(known := sealed, baseline := h.plaintext))
  }

  function Persist(ring: Keyring, l: LoaderState, account: string, current: Plain, io: WriteIO): (LoaderState, Reply) {
    if account !in l.accounts then (l, NotConnected)
    else if current == "" then (l, EmptyCredential)
    else if current == l.accounts[account].baseline then (l, Holds(current))
    else
      var held := HoldRotation(l, account, current);
      if io.nonce.None? || io.cas.CasFailed? then (held, WriteFailed(current))
      else if io.cas.Landed? then
        (Land(held, account, ring.Seal(current, AccountCredential(account), io.nonce.value)), Holds(current))
      else if io.read.None? then (held, WriteFailed(current))
      else
        var next := Readopt(ring, held, account, io.read.value);
        (next, Holds(if account in next.accounts then next.accounts[account].plaintext else ""))
  }

  /** Whether a hand-over naming adoption is stale beside what the loader has adopted since. */
  predicate Stale(l: LoaderState, account: string, adoption: nat) {
    account in l.accounts && l.accounts[account].adoption != adoption
  }

  function HandOver(ring: Keyring, l: LoaderState, account: string, adoption: nat, current: Plain, io: WriteIO)
    : (LoaderState, Reply)
  {
    if Stale(l, account, adoption) then (l, Holds(l.accounts[account].plaintext))
    else Persist(ring, l, account, current, io)
  }

  // ---------------------------------------------------------------- pairing an account with its client

  function OpenClient(ring: Keyring, c: ClientRow): Option<Client> {
    match ring.Open(c.secret, ClientSecret(c.name))
    case None => None
    case Some(secret) => Some(Client(c.name, c.provider, c.id, secret))
  }

  function Pair(name: string, clients: map<string, Client>): Option<Client> {
    if name != "" && name in clients then Some(clients[name]) else None
  }

  function Paired(cfg: Config, a: Served, name: string, clients: map<string, Client>): Served {
    var client := Pair(name, clients);
    a.(clientName := name, client := client, withoutClient := a.provider in cfg.throughClient && client.None?)
  }

  // ---------------------------------------------------------------- Load

  function OpenedClients(ring: Keyring, rows: seq<ClientRow>): map<string, Client> {
    if rows == [] then map[]
    else
      var c := rows[|rows| - 1];
      var before := OpenedClients(ring, rows[..|rows| - 1]);
      match OpenClient(ring, c)
      case None => before
      case Some(client) => before[c.name := client]
  }

  function SealedClients(ring: Keyring, rows: seq<ClientRow>): map<string, Sealed> {
    if rows == [] then map[]
    else
      var c := rows[|rows| - 1];
      var before := SealedClients(ring, rows[..|rows| - 1]);
      if OpenClient(ring, c).None? then before else before[c.name := c.secret]
  }

  function ScannedClients(ring: Keyring, rows: seq<ClientRow>): map<string, bool> {
    if rows == [] then map[]
    else
      var c := rows[|rows| - 1];
      ScannedClients(ring, rows[..|rows| - 1])[c.name := OpenClient(ring, c).None? || ring.OnOldKey(c.secret)]
  }

  /** The accounts part of a load, row by row. */
  datatype Accounts = Accounts(known: map<string, Held>, adoptions: nat, scan: map<string, bool>, served: seq<Served>)

  function LoadOne(cfg: Config, accounts: map<string, Held>, clients: map<string, Client>, before: Accounts,
                   r: Row): Accounts {
    var a := Paired(cfg, Served(r.id, r.provider, "", None, false, "", 0), r.clientName, clients);
    var (h, n) := Adopt(cfg.ring, accounts, before.adoptions, r.id, r.stored);
    Accounts(if h.Some? then before.known[r.id := h.value] else before.known,
             n,
             before.scan[r.id := r.stored.Some? && (h.None? || cfg.ring.OnOldKey(r.stored.value))],
             before.served + [if h.Some? then a.(credential := h.value.plaintext, adoption := h.value.adoption) else a])
  }

  function LoadRows(cfg: Config, l: LoaderState, clients: map<string, Client>, rows: seq<Row>): (r: Accounts)
    ensures r.adoptions >= l.adoptions
    ensures |r.served| == |rows|
  {
    if rows == [] then Accounts(map[], l.adoptions, map[], [])
    else LoadOne(cfg, l.accounts, clients, LoadRows(cfg, l, clients, rows[..|rows| - 1]), rows[|rows| - 1])
  }

  function Load(cfg: Config, l: LoaderState, rows: seq<Row>, clients: seq<ClientRow>): LoaderState {
    var a := LoadRows(cfg, l, OpenedClients(cfg.ring, clients), rows);
    LoaderState(a.known, a.adoptions, SealedClients(cfg.ring, clients), Scan(a.scan, ScannedClients(cfg.ring, clients)),
                a.served)
  }

  // ---------------------------------------------------------------- Reread

  function Lookup(active: seq<Served>, id: string): Served {
    if active == [] then Served(id, "", "", None, false, "", 0)
    else if active[0].id == id then active[0]
    else Lookup(active[1..], id)
  }

  lemma LookupId(active: seq<Served>, id: string)
    ensures Lookup(active, id).id == id
  {
  }

  function FirstClient(clients: seq<ClientRow>, name: string): Option<ClientRow> {
    if clients == [] then None
    else if clients[0].name == name then Some(clients[0])
    else FirstClient(clients[1..], name)
  }

  /** The one client a re-read opens, keyed on its name. */
  function OpenedNamed(ring: Keyring, clients: seq<ClientRow>, name: string): map<string, Client> {
    match FirstClient(clients, name)
    case None => map[]
    case Some(c) => match OpenClient(ring, c)
      case None => map[]
      case Some(client) => map[name := client]
  }

  /** The listing's row of the account, or none, with the clients stored then. */
  datatype Listing = Listing(listed: Option<(string, string)>, clients: seq<ClientRow>)

  /** The account a re-read returns, with the client it now names, before its credential. */
  function RereadAccount(cfg: Config, l: LoaderState, account: string, listing: Listing): Served {
    var a := Lookup(l.active, account);
    var provider := if listing.listed.Some? then listing.listed.value.0 else a.provider;
    var name := if listing.listed.Some? then listing.listed.value.1 else a.clientName;
    Paired(cfg, a.(provider := provider), name, OpenedNamed(cfg.ring, listing.clients, name))
  }

  function Reread(cfg: Config, l: LoaderState, account: string, stored: Option<Sealed>, listing: Listing)
    : (LoaderState, Served)
  {
    var a := RereadAccount(cfg, l, account, listing);
    var next := Readopt(cfg.ring, l, account, stored);
    var b := if account in next.accounts && next.accounts[account].plaintext != ""
             then a.(credential := next.accounts[account].plaintext, adoption := next.accounts[account].adoption)
             else a.(credential := "", adoption := 0);
    (next.(active := PublishClient(next.active, b)), b)
  }

  // ---------------------------------------------------------------- Reseal

  function ResealLanded(ring: Keyring, l: LoaderState, account: string, sealed: Sealed): LoaderState
    requires account in l.accounts
  {
    l.(accounts := l.accounts[account := l.accounts[account].(known := sealed)],
       scan := l.scan.(accounts := l.scan.accounts[account := ring.OnOldKey(sealed)]))
  }

  function ResealMissed(ring: Keyring, l: LoaderState, account: string, stored: Option<Sealed>): LoaderState {
    var next := Readopt(ring, l, account, stored);
    next.(scan := l.scan.(accounts := l.scan.accounts[account :=
      stored.Some? && (account !in next.accounts || ring.OnOldKey(stored.value))]))
  }

  /** What is written, if the account's value is on an old key and seals again. */
  function Resealed(ring: Keyring, l: LoaderState, account: string, nonce: Option<nat>): Option<Sealed> {
    if account !in l.accounts || !ring.OnOldKey(l.accounts[account].known) || nonce.None? then None
    else ring.Reseal(l.accounts[account].known, AccountCredential(account), nonce.value)
  }

  function ResealOne(ring: Keyring, l: LoaderState, account: string, io: WriteIO): LoaderState {
    match Resealed(ring, l, account, io.nonce)
    case None => l
    case Some(sealed) =>
      match io.cas
      case CasFailed => l
      case Landed => ResealLanded(ring, l, account, sealed)
      case Missed => if io.read.None? then l else ResealMissed(ring, l, account, io.read.value)
  }

  /** The whole re-seal, over the accounts in the order the loop met them. */
  function Reseal(ring: Keyring, l: LoaderState, order: seq<string>, io: seq<WriteIO>): LoaderState
    requires |io| == |order|
  {
    if order == [] then l
    else
      var n := |order| - 1;
      ResealOne(ring, Reseal(ring, l, order[..n], io[..n]), order[n], io[n])
  }

  /** A client secret replaced by someone else, read again with the clients stored then. */
  function RereadClient(cfg: Config, l: LoaderState, name: string, rows: seq<ClientRow>): LoaderState {
    var first := FirstClient(rows, name);
    var named := OpenedNamed(cfg.ring, rows, name);
    var scan := if first.None? then l.scan.clients - {name}
                else l.scan.clients[name := name !in named || cfg.ring.OnOldKey(first.value.secret)];
    l.(clients := if name in named then l.clients[name := first.value.secret] else l.clients - {name},
       scan := l.scan.(clients := scan),
       active := seq(|l.active|, i requires 0 <= i < |l.active| =>
         if l.active[i].clientName == name then Paired(cfg, l.active[i], name, named) else l.active[i]))
  }

  /** The answers to one client's re-seal: the read is the clients stored after a miss. */
  datatype ClientIO = ClientIO(nonce: Option<nat>, cas: Cas, read: Option<seq<ClientRow>>)

  function ResealClient(cfg: Config, l: LoaderState, name: string, io: ClientIO): LoaderState {
    if name !in l.clients || !cfg.ring.OnOldKey(l.clients[name]) || io.nonce.None? then l
    else match cfg.ring.Reseal(l.clients[name], ClientSecret(name), io.nonce.value)
      case None => l
      case Some(sealed) =>
        match io.cas
        case CasFailed => l
        case Missed => if io.read.None? then l else RereadClient(cfg, l, name, io.read.value)
        case Landed =>
          l.(clients := l.clients[name := sealed],
             scan := l.scan.(clients := l.scan.clients[name := cfg.ring.OnOldKey(sealed)]))
  }

  function ResealClients(cfg: Config, l: LoaderState, names: seq<string>, io: seq<ClientIO>): LoaderState
    requires |io| == |names|
  {
    if names == [] then l
    else
      var n := |names| - 1;
      ResealClient(cfg, ResealClients(cfg, l, names[..n], io[..n]), names[n], io[n])
  }
}
