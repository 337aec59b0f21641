/** The write-back protocol, one transaction at a time.

    One process's loader, the sources and sessions of its units of work, the stored rows, and
    whatever else writes those rows: an operator, or another process. Each action is one step no other
    step can divide. The loader's lock is the program counter pc, so only one loader operation is under
    way, while outside writes, rotations, openings and captured hand-overs fall between its
    transactions. A failed write may have been applied.

    A credential's lineage is the outside store it was stored by or rotated from. Nothing in the
    process reads it. */
module WriteBack {
  import opened Wrappers
  import opened Sealing
  import opened AccountLoad
  import opened AccountSession

  /** The outside store a credential descends from: the n-th one to the account's row. */
  datatype Lineage = Lineage(account: string, store: nat)

  /** An account's credentials with the stamp they came with, from a snapshot or a re-read. */
  datatype Offer = Offer(account: string, stamp: nat, creds: Credentials)
  datatype KeptSource = KeptSource(built: Credentials, source: nat)
  datatype Unit = Unit(account: string, stamp: nat, source: nat)
  /** A hand-over's arguments, captured before it has the lock. */
  datatype Call = Call(account: string, stamp: nat, current: Plain)
  datatype Listed = Listed(id: string, provider: string, clientName: string)

  datatype Pc =
    | Idle
    | Writing(call: Call, sealed: Sealed)
    | Missing(account: string)
    | Loading(listed: seq<Listed>, clients: seq<ClientRow>, read: seq<Row>)
    | Rereading(account: string, stored: Option<Sealed>)
    | Resealing(todo: set<string>)
    | ResealWriting(account: string, sealed: Sealed, todo: set<string>)
    | ResealMissing(account: string, todo: set<string>)
    | ResealingClients(clientsToDo: set<string>)
    | ClientMissing(client: string, clientsToDo: set<string>)

  datatype World = World(
    rows: map<string, Sealed>,
    stores: map<string, nat>,
    lineage: map<Plain, Lineage>,
    loader: LoaderState,
    stamps: map<nat, Plain>,
    offers: set<Offer>,
    sources: map<nat, Plain>,
    kept: map<string, KeptSource>,
    units: map<nat, Unit>,
    calls: set<Call>,
    pc: Pc)
  {
    function Stores(account: string): nat { if account in stores then stores[account] else 0 }
    function Stored(account: string): Option<Sealed> { if account in rows then Some(rows[account]) else None }
    predicate Descend(p: Plain, q: Plain) { p in lineage && q in lineage && lineage[p] == lineage[q] }
  }

  /** The world outside the process: an operator, or another process. */
  datatype OutsideAction =
    | OutsideStore(account: string, value: Sealed)
    | OutsideRewrite(account: string, value: Sealed)
    | OutsideRemove(account: string)

  /** Units of work. */
  datatype UnitAction =
    | TakeSnapshot(entry: nat)
    | OpenUnit(id: nat, offer: Offer, hold: bool, into: nat)
    | GoOn(id: nat, offer: Offer, hold: bool, into: nat)
    | Rotate(source: nat, to: Plain)
    | Capture(id: nat)

  /** The transactions of a hand-over. */
  datatype HandOverAction =
    | BeginHandOver(call: Call, nonce: Option<nat>)
    | WriteLands
    | WriteMisses
    | WriteFails(applied: bool)
    | ReadAfterMiss(ok: bool)

  /** The transactions of a load and of a re-read. */
  datatype ReadAction =
    | BeginLoad(listed: seq<Listed>, clients: seq<ClientRow>)
    | LoadReads
    | EndLoad
    | ReadFails
    | BeginReread(account: string)
    | EndReread(listing: Listing)

  /** The transactions of a re-seal. */
  datatype ResealAction =
    | BeginReseal
    | ResealStarts(account: string, nonce: Option<nat>)
    | ResealLands
    | ResealMisses
    | ResealFails(applied: bool)
    | ResealReads(ok: bool)
    | EndReseal

  /** The transactions of a re-seal of client secrets, whose rows are read with the answer. */
  datatype ClientAction =
    | BeginResealClients
    | ResealClientWrites(name: string, nonce: Option<nat>, cas: Cas)
    | ResealClientReads(clients: Option<seq<ClientRow>>)
    | EndResealClients

  datatype Action =
    | Outside(outside: OutsideAction)
    | InUnit(unit: UnitAction)
    | InHandOver(handOver: HandOverAction)
    | InRead(read: ReadAction)
    | InReseal(reseal: ResealAction)
    | InClients(clients: ClientAction)

  predicate UniqueListing(listed: seq<Listed>) {
    forall i, j | 0 <= i < j < |listed| :: listed[i].id != listed[j].id
  }

  /** Whether the row holds what the loader would compare it with. */
  predicate RowIsKnown(w: World, account: string) {
    account in w.rows && account in w.loader.accounts && w.rows[account] == w.loader.accounts[account].known
  }

  /** An outside credential is fresh. A rewrite is another process writing back or re-sealing a
      credential of the row's own lineage. */
  predicate OutsideEnabled(w: World, act: OutsideAction) {
    match act
    case OutsideStore(a, v) => v.Sealed? ==> v.plain !in w.lineage
    case OutsideRewrite(a, v) =>
      v.Sealed? && (v.plain in w.lineage ==> w.lineage[v.plain] == Lineage(a, w.Stores(a)))
    case OutsideRemove(a) => true
  }

  /** A rotation stays in its grant: it is fresh, or a credential of the same lineage. */
  predicate UnitEnabled(w: World, act: UnitAction) {
    match act
    case TakeSnapshot(i) => i < |w.loader.active| && w.loader.active[i].Connected()
    case OpenUnit(id, o, _, n) => id !in w.units && o in w.offers && n !in w.sources
    case GoOn(id, o, _, n) => id in w.units && o in w.offers && o.account == w.units[id].account && n !in w.sources
    case Rotate(s, p) => s in w.sources && (p in w.lineage ==> w.Descend(p, w.sources[s]))
    case Capture(id) => id in w.units && w.units[id].source in w.sources
  }

  predicate HandOverEnabled(w: World, act: HandOverAction) {
    match act
    case BeginHandOver(c, nonce) => w.pc.Idle? && c in w.calls && (c.account == "" ==> nonce.None?)
    case WriteLands => w.pc.Writing? && RowIsKnown(w, w.pc.call.account)
    case WriteMisses => w.pc.Writing? && !RowIsKnown(w, w.pc.call.account)
    case WriteFails(applied) => w.pc.Writing? && (applied ==> RowIsKnown(w, w.pc.call.account))
    case ReadAfterMiss(_) => w.pc.Missing?
  }

  predicate ReadEnabled(w: World, act: ReadAction) {
    match act
    case BeginLoad(listed, _) => w.pc.Idle? && UniqueListing(listed)
    case LoadReads => w.pc.Loading? && |w.pc.read| < |w.pc.listed|
    case EndLoad => w.pc.Loading? && |w.pc.read| == |w.pc.listed|
    case ReadFails => w.pc.Loading? || w.pc.Rereading?
    case BeginReread(_) => w.pc.Idle?
    case EndReread(_) => w.pc.Rereading?
  }

  predicate ResealEnabled(w: World, act: ResealAction) {
    match act
    case BeginReseal => w.pc.Idle?
    case ResealStarts(a, _) => w.pc.Resealing? && a in w.pc.todo
    case ResealLands => w.pc.ResealWriting? && RowIsKnown(w, w.pc.account)
    case ResealMisses => w.pc.ResealWriting? && !RowIsKnown(w, w.pc.account)
    case ResealFails(applied) => w.pc.ResealWriting? && (applied ==> RowIsKnown(w, w.pc.account))
    case ResealReads(_) => w.pc.ResealMissing?
    case EndReseal => w.pc.Resealing? && w.pc.todo == {}
  }

  predicate ClientEnabled(w: World, act: ClientAction) {
    match act
    case BeginResealClients => w.pc.Idle?
    case ResealClientWrites(name, _, _) => w.pc.ResealingClients? && name in w.pc.clientsToDo
    case ResealClientReads(_) => w.pc.ClientMissing?
    case EndResealClients => w.pc.ResealingClients? && w.pc.clientsToDo == {}
  }

  predicate Enabled(w: World, act: Action) {
    match act
    case Outside(a) => OutsideEnabled(w, a)
    case InUnit(a) => UnitEnabled(w, a)
    case InHandOver(a) => HandOverEnabled(w, a)
    case InRead(a) => ReadEnabled(w, a)
    case InReseal(a) => ResealEnabled(w, a)
    case InClients(a) => ClientEnabled(w, a)
  }

  /** The stamps after a value is adopted: the one it was counted under, if it was. */
  function StampsAfter(ring: Keyring, w: World, account: string, stored: Option<Sealed>): map<nat, Plain> {
    var (h, n) := Adopt(ring, w.loader.accounts, w.loader.adoptions, account, stored);
    if h.Some? && n > w.loader.adoptions then w.stamps[n := h.value.baseline] else w.stamps
  }

  function StampsAfterRows(cfg: Config, w: World, clients: map<string, Client>, rows: seq<Row>): map<nat, Plain> {
    if rows == [] then w.stamps
    else
      var before := StampsAfterRows(cfg, w, clients, rows[..|rows| - 1]);
      var count := LoadRows(cfg, w.loader, clients, rows[..|rows| - 1]).adoptions;
      var r := rows[|rows| - 1];
      var (h, n) := Adopt(cfg.ring, w.loader.accounts, count, r.id, r.stored);
      if h.Some? && n > count then before[n := h.value.baseline] else before
  }

  function OfferOf(a: Served): Offer { Offer(a.id, a.adoption, CredentialsOf(a)) }

  function WithSource(w: World, id: nat, o: Offer, hold: bool, into: nat): World {
    w.(sources := w.sources[into := o.creds.credential],
       kept := if hold then w.kept[o.account := KeptSource(o.creds, into)] else w.kept,
       units := w.units[id := Unit(o.account, o.stamp, into)])
  }

  function OutsideNext(cfg: Config, w: World, act: OutsideAction): World
    requires OutsideEnabled(w, act)
  {
    match act
    case OutsideStore(a, v) =>
      var n := w.Stores(a) + 1;
      w.(rows := w.rows[a := v], stores := w.stores[a := n],
         lineage := if v.Sealed? then w.lineage[v.plain := Lineage(a, n)] else w.lineage)
    case OutsideRewrite(a, v) =>
      w.(rows := w.rows[a := v], lineage := w.lineage[v.plain := Lineage(a, w.Stores(a))])
    case OutsideRemove(a) => w.(rows := w.rows - {a})
  }

  function UnitNext(cfg: Config, w: World, act: UnitAction): World
    requires UnitEnabled(w, act)
  {
    match act
    case TakeSnapshot(i) => w.(offers := w.offers + {OfferOf(w.loader.active[i])})
    case OpenUnit(id, o, hold, n) =>
      if hold && o.account in w.kept && w.kept[o.account].source in w.sources
         && Serves(w.kept[o.account].built, w.sources[w.kept[o.account].source], o.creds)
      then w.(units := w.units[id := Unit(o.account, o.stamp, w.kept[o.account].source)])
      else WithSource(w, id, o, hold, n)
    case GoOn(id, o, hold, n) => WithSource(w, id, o, hold, n)
    case Rotate(s, p) =>
      w.(sources := w.sources[s := p],
         lineage := if w.sources[s] in w.lineage then w.lineage[p := w.lineage[w.sources[s]]] else w.lineage)
    case Capture(id) =>
      w.(calls := w.calls + {Call(w.units[id].account, w.units[id].stamp, w.sources[w.units[id].source])})
  }

  function HandOverNext(cfg: Config, w: World, act: HandOverAction): World
    requires HandOverEnabled(w, act)
  {
    match act
    case BeginHandOver(c, nonce) =>
      if Stale(w.loader, c.account, c.stamp) || !IsRotation(w.loader, c.account, c.current) then w
      else
        var held := w.(loader := HoldRotation(w.loader, c.account, c.current));
        if nonce.None? then held
        else held.(pc := Writing(c, cfg.ring.Seal(c.current, AccountCredential(c.account), nonce.value)))
    case WriteLands =>
      var a := w.pc.call.account;
      w.(rows := w.rows[a := w.pc.sealed], loader := Land(w.loader, a, w.pc.sealed), pc := Idle)
    case WriteMisses => w.(pc := Missing(w.pc.call.account))
    case WriteFails(applied) =>
      w.(rows := if applied then w.rows[w.pc.call.account := w.pc.sealed] else w.rows, pc := Idle)
    case ReadAfterMiss(ok) =>
      if !ok then w.(pc := Idle)
      else
        var a := w.pc.account;
        w.(loader := Readopt(cfg.ring, w.loader, a, w.Stored(a)), stamps := StampsAfter(cfg.ring, w, a, w.Stored(a)),
           pc := Idle)
  }

  function ReadNext(cfg: Config, w: World, act: ReadAction): World
    requires ReadEnabled(w, act)
  {
    match act
    case BeginLoad(listed, clients) => w.(pc := Loading(listed, clients, []))
    case LoadReads =>
      var r := w.pc.listed[|w.pc.read|];
      w.(pc := w.pc.(read := w.pc.read + [Row(r.id, r.provider, r.clientName, w.Stored(r.id))]))
    case EndLoad =>
      w.(loader := Load(cfg, w.loader, w.pc.read, w.pc.clients),
         stamps := StampsAfterRows(cfg, w, OpenedClients(cfg.ring, w.pc.clients), w.pc.read),
         pc := Idle)
    case ReadFails => w.(pc := Idle)
    case BeginReread(a) => w.(pc := Rereading(a, w.Stored(a)))
    case EndReread(listing) =>
      var a := w.pc.account;
      var (l, b) := Reread(cfg, w.loader, a, w.pc.stored, listing);
      w.(loader := l, stamps := StampsAfter(cfg.ring, w, a, w.pc.stored),
         offers := if b.Connected() then w.offers + {OfferOf(b)} else w.offers, pc := Idle)
  }

  function ResealNext(cfg: Config, w: World, act: ResealAction): World
    requires ResealEnabled(w, act)
  {
    match act
    case BeginReseal => w.(pc := Resealing(w.loader.accounts.Keys))
    case ResealStarts(a, nonce) =>
      var rest, sealed := w.pc.todo - {a}, Resealed(cfg.ring, w.loader, a, nonce);
      w.(pc := if sealed.None? then Resealing(rest) else ResealWriting(a, sealed.value, rest))
    case ResealLands =>
      w.(rows := w.rows[w.pc.account := w.pc.sealed],
         loader := ResealLanded(cfg.ring, w.loader, w.pc.account, w.pc.sealed),
         pc := Resealing(w.pc.todo))
    case ResealMisses => w.(pc := ResealMissing(w.pc.account, w.pc.todo))
    case ResealFails(applied) =>
      w.(rows := if applied then w.rows[w.pc.account := w.pc.sealed] else w.rows, pc := Resealing(w.pc.todo))
    case ResealReads(ok) =>
      var rest := Resealing(w.pc.todo);
      if !ok then w.(pc := rest)
      else
        var a := w.pc.account;
        w.(loader := ResealMissed(cfg.ring, w.loader, a, w.Stored(a)),
           stamps := StampsAfter(cfg.ring, w, a, w.Stored(a)), pc := rest)
    case EndReseal => w.(pc := Idle)
  }

  /** Whether a client's secret is on an old key and seals again, so that it is written. */
  predicate ClientReseals(cfg: Config, l: LoaderState, name: string, nonce: Option<nat>) {
    && name in l.clients && cfg.ring.OnOldKey(l.clients[name])
    && nonce.Some? && cfg.ring.Reseal(l.clients[name], ClientSecret(name), nonce.value).Some?
  }

  function ClientNext(cfg: Config, w: World, act: ClientAction): World
    requires ClientEnabled(w, act)
  {
    match act
    case BeginResealClients => w.(pc := ResealingClients(w.loader.clients.Keys))
    case ResealClientWrites(name, nonce, cas) =>
      var rest := w.pc.clientsToDo - {name};
      w.(loader := ResealClient(cfg, w.loader, name, ClientIO(nonce, cas, None)),
         pc := if cas.Missed? && ClientReseals(cfg, w.loader, name, nonce) then ClientMissing(name, rest)
               else ResealingClients(rest))
    case ResealClientReads(rows) =>
      w.(loader := if rows.Some? then RereadClient(cfg, w.loader, w.pc.client, rows.value) else w.loader,
         pc := ResealingClients(w.pc.clientsToDo))
    case EndResealClients => w.(pc := Idle)
  }

  function Next(cfg: Config, w: World, act: Action): World
    requires Enabled(w, act)
  {
    match act
    case Outside(a) => OutsideNext(cfg, w, a)
    case InUnit(a) => UnitNext(cfg, w, a)
    case InHandOver(a) => HandOverNext(cfg, w, a)
    case InRead(a) => ReadNext(cfg, w, a)
    case InReseal(a) => ResealNext(cfg, w, a)
    case InClients(a) => ClientNext(cfg, w, a)
  }

  ghost predicate RowIsCurrent(ring: Keyring, w: World, a: string)
    requires a in w.rows
  {
    match ring.Open(w.rows[a], AccountCredential(a))
    case None => true
    case Some(p) => p in w.lineage && w.lineage[p] == Lineage(a, w.Stores(a))
  }

  /** Whatever a row opens to descends from the last outside store to that row. */
  ghost predicate RowsAreCurrent(ring: Keyring, w: World) {
    forall a <- w.rows :: RowIsCurrent(ring, w, a)
  }

  ghost predicate StoresAreCounted(w: World) {
    forall p <- w.lineage :: w.lineage[p].store <= w.Stores(w.lineage[p].account)
  }

  /** The process has started over rows that each hold the last thing stored outside. */
  ghost predicate Init(cfg: Config, w: World) {
    && cfg.ring.Valid()
    && w.loader == UNLOADED && w.stamps == map[] && w.offers == {} && w.sources == map[] && w.kept == map[]
    && w.units == map[] && w.calls == {} && w.pc == Idle
    && RowsAreCurrent(cfg.ring, w) && StoresAreCounted(w)
  }

  ghost predicate Runs(cfg: Config, w: World, acts: seq<Action>)
    decreases |acts|
  {
    acts == [] || (Enabled(w, acts[0]) && Runs(cfg, Next(cfg, w, acts[0]), acts[1..]))
  }

  ghost function After(cfg: Config, w: World, acts: seq<Action>): World
    requires Runs(cfg, w, acts)
    decreases |acts|
  {
    if acts == [] then w else After(cfg, Next(cfg, w, acts[0]), acts[1..])
  }
}
