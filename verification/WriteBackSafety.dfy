/** The write-back protocol's inductive invariant, and what it gives over every run. */
module WriteBackSafety {
  import opened Wrappers
  import opened Sealing
  import opened AccountLoad
  import opened AccountSession
  import LoaderInvariant
  import opened WriteBack
  import Steps = WriteBackSteps

  // ---------------------------------------------------------------- the invariant

  /** p came with stamp: it descends from the value adopted under it, a credential of account. */
  ghost predicate CameWith(w: World, account: string, stamp: nat, p: Plain) {
    stamp in w.stamps && w.Descend(p, w.stamps[stamp]) && w.lineage[p].account == account
  }

  ghost predicate HeldDescends(w: World) {
    forall a <- w.loader.accounts ::
      && CameWith(w, a, w.loader.accounts[a].adoption, w.loader.accounts[a].baseline)
      && CameWith(w, a, w.loader.accounts[a].adoption, w.loader.accounts[a].plaintext)
  }

  ghost predicate StampsIssued(w: World) {
    forall s <- w.stamps :: 1 <= s <= w.loader.adoptions
  }

  ghost predicate OffersDescend(w: World) {
    forall o <- w.offers :: CameWith(w, o.account, o.stamp, o.creds.credential)
  }

  ghost predicate UnitsDescend(w: World) {
    forall u <- w.units ::
      w.units[u].source in w.sources && CameWith(w, w.units[u].account, w.units[u].stamp, w.sources[w.units[u].source])
  }

  ghost predicate SourcesDescend(w: World) {
    forall s <- w.sources :: w.sources[s] in w.lineage
  }

  ghost predicate KeptDescend(w: World) {
    forall a <- w.kept ::
      && w.kept[a].source in w.sources
      && w.Descend(w.kept[a].built.credential, w.sources[w.kept[a].source])
      && w.lineage[w.kept[a].built.credential].account == a
  }

  ghost predicate CallsDescend(w: World) {
    forall c <- w.calls :: CameWith(w, c.account, c.stamp, c.current)
  }

  /** A value read from an account's row, whenever it was read, was stored for that account. */
  ghost predicate ReadValue(ring: Keyring, w: World, account: string, stored: Option<Sealed>) {
    stored.Some? ==>
      match ring.Open(stored.value, AccountCredential(account))
      case None => true
      case Some(p) => p in w.lineage && w.lineage[p].account == account
  }

  ghost predicate OperationDescends(cfg: Config, w: World) {
    match w.pc
    case Writing(c, sealed) =>
      && CameWith(w, c.account, c.stamp, c.current)
      && c.account in w.loader.accounts
      && w.loader.accounts[c.account].adoption == c.stamp && w.loader.accounts[c.account].plaintext == c.current
      && cfg.ring.Open(sealed, AccountCredential(c.account)) == Some(c.current)
    case Loading(listed, _, read) =>
      && |read| <= |listed|
      && UniqueListing(listed)
      && (forall i | 0 <= i < |read| ::
            read[i].id == listed[i].id && ReadValue(cfg.ring, w, read[i].id, read[i].stored))
    case Rereading(a, stored) => ReadValue(cfg.ring, w, a, stored)
    case ResealWriting(a, sealed, _) =>
      && a in w.loader.accounts
      && cfg.ring.Open(sealed, AccountCredential(a)) == Some(w.loader.accounts[a].baseline)
    case _ => true
  }

  ghost predicate RowsDescend(ring: Keyring, w: World) {
    RowsAreCurrent(ring, w) && StoresAreCounted(w)
  }

  ghost predicate LoaderDescends(w: World) {
    StampsIssued(w) && HeldDescends(w)
  }

  ghost predicate WorkDescends(w: World) {
    OffersDescend(w) && UnitsDescend(w) && SourcesDescend(w) && KeptDescend(w) && CallsDescend(w)
  }

  ghost predicate Inv(cfg: Config, w: World) {
    && cfg.ring.Valid() && LoaderInvariant.Inv(cfg.ring, w.loader)
    && RowsDescend(cfg.ring, w) && LoaderDescends(w) && WorkDescends(w) && OperationDescends(cfg, w)
  }

  lemma InitHolds(cfg: Config, w: World)
    requires Init(cfg, w)
    ensures Inv(cfg, w)
  {
  }

  /** No step forgets a lineage or an outside store. */
  ghost predicate Remembers(w: World, w': World) {
    && (forall p <- w.lineage :: p in w'.lineage && w'.lineage[p] == w.lineage[p])
    && (forall a :: w'.Stores(a) >= w.Stores(a))
  }

  // ---------------------------------------------------------------- what growing keeps

  /** Lineages and stamps are only ever added. */
  ghost predicate Grown(w: World, w': World) {
    && (forall p <- w.lineage :: p in w'.lineage && w'.lineage[p] == w.lineage[p])
    && (forall s <- w.stamps :: s in w'.stamps && w'.stamps[s] == w.stamps[s])
  }

  lemma GrownKeepsWork(w: World, w': World)
    requires Grown(w, w') && WorkDescends(w)
    requires w'.offers == w.offers && w'.units == w.units && w'.sources == w.sources && w'.kept == w.kept
             && w'.calls == w.calls
    ensures WorkDescends(w')
  {
    forall o <- w'.offers ensures CameWith(w', o.account, o.stamp, o.creds.credential) {
      assert CameWith(w, o.account, o.stamp, o.creds.credential);
    }
    forall u <- w'.units ensures CameWith(w', w'.units[u].account, w'.units[u].stamp, w'.sources[w'.units[u].source]) {
      assert CameWith(w, w.units[u].account, w.units[u].stamp, w.sources[w.units[u].source]);
    }
    forall c <- w'.calls ensures CameWith(w', c.account, c.stamp, c.current) {
      assert CameWith(w, c.account, c.stamp, c.current);
    }
  }

  lemma GrownKeepsHeld(w: World, w': World)
    requires Grown(w, w') && LoaderDescends(w) && w'.loader == w.loader && w'.stamps == w.stamps
    ensures LoaderDescends(w')
  {
    forall a <- w'.loader.accounts
      ensures CameWith(w', a, w'.loader.accounts[a].adoption, w'.loader.accounts[a].baseline)
      ensures CameWith(w', a, w'.loader.accounts[a].adoption, w'.loader.accounts[a].plaintext)
    {
      assert CameWith(w, a, w.loader.accounts[a].adoption, w.loader.accounts[a].baseline);
    }
  }

  /** What is held of each account is as it was, but for the known bytes. */
  predicate SameHeld(w: World, w': World) {
    forall a <- w'.loader.accounts ::
      a in w.loader.accounts && w'.loader.accounts[a] == w.loader.accounts[a].(known := w'.loader.accounts[a].known)
  }

  lemma SameHeldDescends(w: World, w': World)
    requires HeldDescends(w) && SameHeld(w, w') && w'.stamps == w.stamps && w'.lineage == w.lineage
    ensures HeldDescends(w')
  {
    forall a <- w'.loader.accounts
      ensures CameWith(w', a, w'.loader.accounts[a].adoption, w'.loader.accounts[a].baseline)
      ensures CameWith(w', a, w'.loader.accounts[a].adoption, w'.loader.accounts[a].plaintext)
    {
      assert CameWith(w, a, w.loader.accounts[a].adoption, w.loader.accounts[a].baseline);
    }
  }

  lemma GrownKeepsOperation(cfg: Config, w: World, w': World)
    requires Grown(w, w') && OperationDescends(cfg, w) && w'.loader == w.loader && w'.pc == w.pc
    ensures OperationDescends(cfg, w')
  {
    if w.pc.Loading? {
      forall i | 0 <= i < |w.pc.read| ensures ReadValue(cfg.ring, w', w.pc.read[i].id, w.pc.read[i].stored) {
        assert ReadValue(cfg.ring, w, w.pc.read[i].id, w.pc.read[i].stored);
      }
    }
  }

  lemma GrownKeepsRow(ring: Keyring, w: World, w': World, a: string)
    requires Grown(w, w') && a in w.rows && a in w'.rows && w'.rows[a] == w.rows[a] && w'.Stores(a) == w.Stores(a)
    requires RowIsCurrent(ring, w, a)
    ensures RowIsCurrent(ring, w', a)
  {
  }

  lemma SameRowsDescend(ring: Keyring, w: World, w': World)
    requires RowsDescend(ring, w) && w'.rows == w.rows && w'.stores == w.stores && w'.lineage == w.lineage
    ensures RowsDescend(ring, w')
  {
    forall a <- w'.rows ensures RowIsCurrent(ring, w', a) {
      assert RowIsCurrent(ring, w, a);
    }
  }

  // ---------------------------------------------------------------- outside

  lemma OutsideKeepsRows(cfg: Config, w: World, act: OutsideAction)
    requires RowsDescend(cfg.ring, w) && OutsideEnabled(w, act)
    ensures Grown(w, OutsideNext(cfg, w, act)) && RowsDescend(cfg.ring, OutsideNext(cfg, w, act))
  {
    var w' := OutsideNext(cfg, w, act);
    forall a <- w'.rows ensures RowIsCurrent(cfg.ring, w', a) {
      if a != act.account {
        GrownKeepsRow(cfg.ring, w, w', a);
      }
    }
  }

  lemma OutsideKeepsInv(cfg: Config, w: World, act: OutsideAction)
    requires Inv(cfg, w) && OutsideEnabled(w, act)
    ensures Inv(cfg, OutsideNext(cfg, w, act)) && Remembers(w, OutsideNext(cfg, w, act))
  {
    var w' := OutsideNext(cfg, w, act);
    OutsideKeepsRows(cfg, w, act);
    GrownKeepsWork(w, w');
    GrownKeepsHeld(w, w');
    GrownKeepsOperation(cfg, w, w');
  }

  // ---------------------------------------------------------------- units of work

  lemma OfferKeepsWork(w: World, w': World, o: Offer)
    requires WorkDescends(w) && Grown(w, w') && CameWith(w', o.account, o.stamp, o.creds.credential)
    requires w'.offers == w.offers + {o} && w'.units == w.units && w'.sources == w.sources && w'.kept == w.kept
             && w'.calls == w.calls
    ensures WorkDescends(w')
  {
    GrownKeepsWork(w, w'.(offers := w.offers));
    forall b <- w'.offers ensures CameWith(w', b.account, b.stamp, b.creds.credential) {
      if b != o {
        assert CameWith(w, b.account, b.stamp, b.creds.credential);
      }
    }
  }

  lemma TakeSnapshotKeepsWork(cfg: Config, w: World, i: nat)
    requires Inv(cfg, w) && UnitEnabled(w, TakeSnapshot(i))
    ensures WorkDescends(UnitNext(cfg, w, TakeSnapshot(i)))
  {
    var a := w.loader.active[i];
    assert LoaderInvariant.ServedMatches(w.loader.accounts, a);
    assert CameWith(w, a.id, a.adoption, a.credential);
    OfferKeepsWork(w, w.(offers := w.offers + {OfferOf(a)}), OfferOf(a));
  }

  lemma WithSourceKeepsWork(w: World, id: nat, o: Offer, hold: bool, into: nat)
    requires WorkDescends(w) && o in w.offers && into !in w.sources
    ensures WorkDescends(WithSource(w, id, o, hold, into))
  {
    var w' := WithSource(w, id, o, hold, into);
    assert CameWith(w, o.account, o.stamp, o.creds.credential);
    forall u <- w'.units
      ensures w'.units[u].source in w'.sources
              && CameWith(w', w'.units[u].account, w'.units[u].stamp, w'.sources[w'.units[u].source])
    {
      if u != id {
        assert CameWith(w, w.units[u].account, w.units[u].stamp, w.sources[w.units[u].source]);
      }
    }
    forall p <- w'.offers ensures CameWith(w', p.account, p.stamp, p.creds.credential) {
      assert CameWith(w, p.account, p.stamp, p.creds.credential);
    }
    forall c <- w'.calls ensures CameWith(w', c.account, c.stamp, c.current) {
      assert CameWith(w, c.account, c.stamp, c.current);
    }
  }

  /** A kept source that serves the offered credentials holds a credential of their lineage. */
  lemma ReuseKeepsWork(w: World, id: nat, o: Offer)
    requires WorkDescends(w) && o in w.offers && o.account in w.kept
    requires Serves(w.kept[o.account].built, w.sources[w.kept[o.account].source], o.creds)
    ensures WorkDescends(w.(units := w.units[id := Unit(o.account, o.stamp, w.kept[o.account].source)]))
  {
    var k := w.kept[o.account];
    var w' := w.(units := w.units[id := Unit(o.account, o.stamp, k.source)]);
    assert CameWith(w, o.account, o.stamp, o.creds.credential);
    assert CameWith(w', o.account, o.stamp, w'.sources[k.source]);
    forall u <- w'.units
      ensures w'.units[u].source in w'.sources
              && CameWith(w', w'.units[u].account, w'.units[u].stamp, w'.sources[w'.units[u].source])
    {
      if u != id {
        assert CameWith(w, w.units[u].account, w.units[u].stamp, w.sources[w.units[u].source]);
      }
    }
    forall p <- w'.offers ensures CameWith(w', p.account, p.stamp, p.creds.credential) {
      assert CameWith(w, p.account, p.stamp, p.creds.credential);
    }
    forall c <- w'.calls ensures CameWith(w', c.account, c.stamp, c.current) {
      assert CameWith(w, c.account, c.stamp, c.current);
    }
  }

  lemma SourceRotates(w: World, w': World, s: nat, p: Plain)
    requires WorkDescends(w) && s in w.sources && w.Descend(p, w.sources[s])
    requires w' == w.(sources := w.sources[s := p])
    ensures WorkDescends(w')
  {
    forall u <- w'.units
      ensures w'.units[u].source in w'.sources
              && CameWith(w', w'.units[u].account, w'.units[u].stamp, w'.sources[w'.units[u].source])
    {
      assert CameWith(w, w.units[u].account, w.units[u].stamp, w.sources[w.units[u].source]);
    }
    forall o <- w'.offers ensures CameWith(w', o.account, o.stamp, o.creds.credential) {
      assert CameWith(w, o.account, o.stamp, o.creds.credential);
    }
    forall c <- w'.calls ensures CameWith(w', c.account, c.stamp, c.current) {
      assert CameWith(w, c.account, c.stamp, c.current);
    }
  }

  lemma RotateKeepsRows(cfg: Config, w: World, s: nat, p: Plain)
    requires RowsDescend(cfg.ring, w) && SourcesDescend(w) && UnitEnabled(w, Rotate(s, p))
    ensures Grown(w, UnitNext(cfg, w, Rotate(s, p)))
    ensures RowsDescend(cfg.ring, UnitNext(cfg, w, Rotate(s, p)))
    ensures UnitNext(cfg, w, Rotate(s, p)).Descend(p, w.sources[s])
  {
    var w' := UnitNext(cfg, w, Rotate(s, p));
    assert w'.Descend(p, w.sources[s]);
    forall a <- w'.rows ensures RowIsCurrent(cfg.ring, w', a) {
      GrownKeepsRow(cfg.ring, w, w', a);
    }
  }

  lemma RotateKeepsWork(cfg: Config, w: World, s: nat, p: Plain)
    requires RowsDescend(cfg.ring, w) && WorkDescends(w) && UnitEnabled(w, Rotate(s, p))
    ensures Grown(w, UnitNext(cfg, w, Rotate(s, p)))
    ensures RowsDescend(cfg.ring, UnitNext(cfg, w, Rotate(s, p)))
    ensures WorkDescends(UnitNext(cfg, w, Rotate(s, p)))
  {
    var w' := UnitNext(cfg, w, Rotate(s, p));
    RotateKeepsRows(cfg, w, s, p);
    hide RowsDescend, Grown, OffersDescend, UnitsDescend, KeptDescend, CallsDescend;
    var relined := w'.(sources := w.sources);
    GrownKeepsWork(w, relined);
    SourceRotates(relined, w', s, p);
  }

  lemma CaptureKeepsWork(w: World, id: nat)
    requires WorkDescends(w) && id in w.units
    ensures var u := w.units[id];
            WorkDescends(w.(calls := w.calls + {Call(u.account, u.stamp, w.sources[u.source])}))
  {
    var u := w.units[id];
    var w' := w.(calls := w.calls + {Call(u.account, u.stamp, w.sources[u.source])});
    GrownKeepsWork(w, w'.(calls := w.calls));
    forall c <- w'.calls ensures CameWith(w', c.account, c.stamp, c.current) {
      assert CameWith(w, u.account, u.stamp, w.sources[u.source]);
      if c in w.calls {
        assert CameWith(w, c.account, c.stamp, c.current);
      }
    }
    forall v <- w'.units ensures CameWith(w', w'.units[v].account, w'.units[v].stamp, w'.sources[w'.units[v].source]) {
      assert CameWith(w, w.units[v].account, w.units[v].stamp, w.sources[w.units[v].source]);
    }
    forall o <- w'.offers ensures CameWith(w', o.account, o.stamp, o.creds.credential) {
      assert CameWith(w, o.account, o.stamp, o.creds.credential);
    }
  }

  ghost predicate UnitStepDescends(cfg: Config, w: World, w': World) {
    WorkDescends(w') && RowsDescend(cfg.ring, w') && Grown(w, w')
  }

  lemma OpenUnitDescends(cfg: Config, w: World, id: nat, o: Offer, hold: bool, into: nat)
    requires Inv(cfg, w) && UnitEnabled(w, OpenUnit(id, o, hold, into))
    ensures UnitStepDescends(cfg, w, UnitNext(cfg, w, OpenUnit(id, o, hold, into)))
  {
    if hold && o.account in w.kept && Serves(w.kept[o.account].built, w.sources[w.kept[o.account].source], o.creds) {
      ReuseKeepsWork(w, id, o);
    } else {
      WithSourceKeepsWork(w, id, o, hold, into);
    }
    SameRowsDescend(cfg.ring, w, UnitNext(cfg, w, OpenUnit(id, o, hold, into)));
  }

  lemma UnitStepKeepsWork(cfg: Config, w: World, act: UnitAction)
    requires Inv(cfg, w) && UnitEnabled(w, act)
    ensures UnitStepDescends(cfg, w, UnitNext(cfg, w, act))
  {
    match act {
      case OpenUnit(id, o, hold, n) => OpenUnitDescends(cfg, w, id, o, hold, n);
      case Rotate(s, p) => RotateKeepsWork(cfg, w, s, p);
      case TakeSnapshot(i) =>
        TakeSnapshotKeepsWork(cfg, w, i);
        SameRowsDescend(cfg.ring, w, UnitNext(cfg, w, act));
      case GoOn(id, o, hold, n) =>
        WithSourceKeepsWork(w, id, o, hold, n);
        SameRowsDescend(cfg.ring, w, UnitNext(cfg, w, act));
      case Capture(id) =>
        CaptureKeepsWork(w, id);
        SameRowsDescend(cfg.ring, w, UnitNext(cfg, w, act));
    }
  }

  lemma UnitStepKeepsInv(cfg: Config, w: World, act: UnitAction)
    requires Inv(cfg, w) && UnitEnabled(w, act)
    ensures Inv(cfg, UnitNext(cfg, w, act)) && Remembers(w, UnitNext(cfg, w, act))
  {
    UnitStepKeepsWork(cfg, w, act);
    Steps.UnitSparesLoader(cfg, w, act);
    GrownKeepsHeld(w, UnitNext(cfg, w, act));
    GrownKeepsOperation(cfg, w, UnitNext(cfg, w, act));
  }

  // ---------------------------------------------------------------- a hand-over

  /** The loader's steps leave the units alone and only add stamps. */
  ghost predicate LoaderStep(w: World, w': World) {
    w' == w.(rows := w'.rows, loader := w'.loader, stamps := w'.stamps, pc := w'.pc)
  }

  predicate SparesLineage(w: World, w': World) {
    w'.lineage == w.lineage && w'.stores == w.stores
  }

  lemma LoaderStepKeepsWork(w: World, w': World)
    requires LoaderStep(w, w') && Grown(w, w') && WorkDescends(w)
    ensures WorkDescends(w')
  {
    GrownKeepsWork(w, w');
  }

  /** The compare-and-set finds the bytes the loader knows, so what the row held and what is written
      descend from one outside store. */
  lemma WrittenDescendsFromOverwritten(cfg: Config, w: World)
    requires Inv(cfg, w) && w.pc.Writing? && RowIsKnown(w, w.pc.call.account)
    ensures var a := w.pc.call.account;
            var overwritten := cfg.ring.Open(w.rows[a], AccountCredential(a));
            && overwritten.Some? && w.Descend(w.pc.call.current, overwritten.value)
            && w.lineage[w.pc.call.current] == Lineage(a, w.Stores(a))
  {
    var a := w.pc.call.account;
    assert LoaderInvariant.HeldOpens(cfg.ring, w.loader, a);
    assert RowIsCurrent(cfg.ring, w, a);
    assert CameWith(w, a, w.loader.accounts[a].adoption, w.loader.accounts[a].baseline);
  }

  lemma AppliedKeepsRows(ring: Keyring, w: World, w': World, a: string, sealed: Sealed, p: Plain)
    requires RowsDescend(ring, w)
    requires w'.rows == w.rows[a := sealed] && w'.stores == w.stores && w'.lineage == w.lineage
    requires ring.Open(sealed, AccountCredential(a)) == Some(p)
    requires p in w.lineage && w.lineage[p] == Lineage(a, w.Stores(a))
    ensures RowsDescend(ring, w')
  {
    forall b <- w'.rows ensures RowIsCurrent(ring, w', b) {
      if b != a {
        assert RowIsCurrent(ring, w, b);
      }
    }
  }

  lemma HoldKeepsHeld(w: World, w': World, account: string, h: Held)
    requires LoaderDescends(w) && w'.loader == Hold(w.loader, account, h) && w'.stamps == w.stamps
             && w'.lineage == w.lineage
    requires CameWith(w, account, h.adoption, h.baseline) && CameWith(w, account, h.adoption, h.plaintext)
    ensures LoaderDescends(w')
  {
    forall a <- w'.loader.accounts
      ensures CameWith(w', a, w'.loader.accounts[a].adoption, w'.loader.accounts[a].baseline)
      ensures CameWith(w', a, w'.loader.accounts[a].adoption, w'.loader.accounts[a].plaintext)
    {
      if a != account {
        assert CameWith(w, a, w.loader.accounts[a].adoption, w.loader.accounts[a].baseline);
      }
    }
  }

  /** A rotation handed over under the stamp the loader holds descends from what came with it. */
  lemma HoldingKeepsInv(cfg: Config, w: World, c: Call)
    requires Inv(cfg, w) && w.pc.Idle? && c in w.calls
    requires !Stale(w.loader, c.account, c.stamp) && IsRotation(w.loader, c.account, c.current)
    ensures var w' := w.(loader := HoldRotation(w.loader, c.account, c.current));
            && Inv(cfg, w') && CameWith(w', c.account, c.stamp, c.current)
            && c.account in w'.loader.accounts
            && w'.loader.accounts[c.account].adoption == c.stamp && w'.loader.accounts[c.account].plaintext == c.current
  {
    hide Publish, Keyring.Open;
    var w' := w.(loader := HoldRotation(w.loader, c.account, c.current));
    var h := w.loader.accounts[c.account].(plaintext := c.current);
    assert CameWith(w, c.account, c.stamp, c.current);
    assert CameWith(w, c.account, h.adoption, h.baseline);
    assert LoaderInvariant.HeldOpens(cfg.ring, w.loader, c.account);
    LoaderInvariant.HoldKeepsInv(cfg.ring, w.loader, c.account, h);
    HoldKeepsHeld(w, w', c.account, h);
    SameRowsDescend(cfg.ring, w, w');
    LoaderStepKeepsWork(w, w');
  }

  /** A step that changes the program counter alone. */
  lemma OnlyPcMoves(cfg: Config, w: World, w': World)
    requires Inv(cfg, w) && w' == w.(pc := w'.pc) && OperationDescends(cfg, w')
    ensures Inv(cfg, w')
  {
    SameRowsDescend(cfg.ring, w, w');
    GrownKeepsHeld(w, w');
    GrownKeepsWork(w, w');
  }

  lemma BeginHandOverKeepsInv(cfg: Config, w: World, c: Call, nonce: Option<nat>)
    requires Inv(cfg, w) && HandOverEnabled(w, BeginHandOver(c, nonce))
    ensures Inv(cfg, HandOverNext(cfg, w, BeginHandOver(c, nonce)))
    ensures SparesLineage(w, HandOverNext(cfg, w, BeginHandOver(c, nonce)))
  {
    hide LoaderInvariant.Inv, RowsDescend, LoaderDescends, WorkDescends, HoldRotation;
    if !Stale(w.loader, c.account, c.stamp) && IsRotation(w.loader, c.account, c.current) {
      HoldingKeepsInv(cfg, w, c);
      if nonce.Some? {
        OnlyPcMoves(cfg, w.(loader := HoldRotation(w.loader, c.account, c.current)),
                    HandOverNext(cfg, w, BeginHandOver(c, nonce)));
      }
    }
  }

  lemma WriteLandsKeepsInv(cfg: Config, w: World)
    requires Inv(cfg, w) && HandOverEnabled(w, WriteLands)
    ensures Inv(cfg, HandOverNext(cfg, w, WriteLands))
    ensures SparesLineage(w, HandOverNext(cfg, w, WriteLands))
  {
    var w' := HandOverNext(cfg, w, WriteLands);
    var a := w.pc.call.account;
    var h := w.loader.accounts[a].(known := w.pc.sealed, baseline := w.pc.call.current);
    WrittenDescendsFromOverwritten(cfg, w);
    assert LoaderInvariant.HeldOpens(cfg.ring, w.loader, a);
    LoaderInvariant.HoldKeepsInv(cfg.ring, w.loader, a, h);
    AppliedKeepsRows(cfg.ring, w, w', a, w.pc.sealed, w.pc.call.current);
    HoldKeepsHeld(w, w', a, h);
    LoaderStepKeepsWork(w, w');
  }

  lemma WriteMissesKeepsInv(cfg: Config, w: World)
    requires Inv(cfg, w) && HandOverEnabled(w, WriteMisses)
    ensures Inv(cfg, HandOverNext(cfg, w, WriteMisses))
    ensures SparesLineage(w, HandOverNext(cfg, w, WriteMisses))
  {
    OnlyPcMoves(cfg, w, HandOverNext(cfg, w, WriteMisses));
  }

  lemma WriteFailsKeepsInv(cfg: Config, w: World, applied: bool)
    requires Inv(cfg, w) && HandOverEnabled(w, WriteFails(applied))
    ensures Inv(cfg, HandOverNext(cfg, w, WriteFails(applied)))
    ensures SparesLineage(w, HandOverNext(cfg, w, WriteFails(applied)))
  {
    var w' := HandOverNext(cfg, w, WriteFails(applied));
    if applied {
      WrittenDescendsFromOverwritten(cfg, w);
      AppliedKeepsRows(cfg.ring, w, w', w.pc.call.account, w.pc.sealed, w.pc.call.current);
      GrownKeepsHeld(w, w');
      LoaderStepKeepsWork(w, w');
    } else {
      OnlyPcMoves(cfg, w, w');
    }
  }

  lemma StoredIsReadValue(ring: Keyring, w: World, a: string)
    requires RowsAreCurrent(ring, w)
    ensures ReadValue(ring, w, a, w.Stored(a))
  {
    if a in w.rows {
      assert RowIsCurrent(ring, w, a);
    }
  }

  /** A value the loader adopts is counted under a stamp of its own, so nothing that came with an
      earlier stamp is affected. */
  lemma ReadoptKeepsHeld(ring: Keyring, w: World, w': World, account: string, stored: Option<Sealed>)
    requires LoaderDescends(w) && LoaderInvariant.Inv(ring, w.loader) && ReadValue(ring, w, account, stored)
    requires w'.loader.accounts == Readopt(ring, w.loader, account, stored).accounts
    requires w'.loader.adoptions == Readopt(ring, w.loader, account, stored).adoptions
    requires w'.lineage == w.lineage && w'.stamps == StampsAfter(ring, w, account, stored)
    ensures LoaderDescends(w') && Grown(w, w')
  {
    hide Publish, Keyring.Open, LoaderInvariant.Inv;
    assert w.loader.adoptions + 1 !in w.stamps;
    forall a <- w'.loader.accounts
      ensures CameWith(w', a, w'.loader.accounts[a].adoption, w'.loader.accounts[a].baseline)
      ensures CameWith(w', a, w'.loader.accounts[a].adoption, w'.loader.accounts[a].plaintext)
    {
      if a in w.loader.accounts && w'.loader.accounts[a] == w.loader.accounts[a] {
        assert CameWith(w, a, w.loader.accounts[a].adoption, w.loader.accounts[a].baseline);
      }
    }
  }

  lemma ReadAfterMissKeepsInv(cfg: Config, w: World, ok: bool)
    requires Inv(cfg, w) && HandOverEnabled(w, ReadAfterMiss(ok))
    ensures Inv(cfg, HandOverNext(cfg, w, ReadAfterMiss(ok)))
    ensures SparesLineage(w, HandOverNext(cfg, w, ReadAfterMiss(ok)))
  {
    var w' := HandOverNext(cfg, w, ReadAfterMiss(ok));
    var a := w.pc.account;
    if ok {
      StoredIsReadValue(cfg.ring, w, a);
      ReadoptKeepsHeld(cfg.ring, w, w', a, w.Stored(a));
      LoaderInvariant.ReadoptKeepsInv(cfg.ring, w.loader, a, w.Stored(a));
      SameRowsDescend(cfg.ring, w, w');
      LoaderStepKeepsWork(w, w');
    } else {
      OnlyPcMoves(cfg, w, w');
    }
  }

  // ---------------------------------------------------------------- a re-seal

  lemma ResealStartsKeepsInv(cfg: Config, w: World, a: string, nonce: Option<nat>)
    requires Inv(cfg, w) && ResealEnabled(w, ResealStarts(a, nonce))
    ensures Inv(cfg, ResealNext(cfg, w, ResealStarts(a, nonce)))
    ensures SparesLineage(w, ResealNext(cfg, w, ResealStarts(a, nonce)))
  {
    assert a in w.loader.accounts ==> LoaderInvariant.HeldOpens(cfg.ring, w.loader, a);
    OnlyPcMoves(cfg, w, ResealNext(cfg, w, ResealStarts(a, nonce)));
  }

  lemma ResealedIsCurrent(cfg: Config, w: World, w': World)
    requires Inv(cfg, w) && w.pc.ResealWriting? && RowIsKnown(w, w.pc.account)
    requires w'.rows == w.rows[w.pc.account := w.pc.sealed] && w'.stores == w.stores && w'.lineage == w.lineage
    ensures RowsDescend(cfg.ring, w')
  {
    var a := w.pc.account;
    assert LoaderInvariant.HeldOpens(cfg.ring, w.loader, a);
    assert RowIsCurrent(cfg.ring, w, a);
    AppliedKeepsRows(cfg.ring, w, w', a, w.pc.sealed, w.loader.accounts[a].baseline);
  }

  lemma ResealLandedKeepsLoader(ring: Keyring, l: LoaderState, a: string, sealed: Sealed)
    requires LoaderInvariant.Inv(ring, l) && a in l.accounts
    requires ring.Open(sealed, AccountCredential(a)) == Some(l.accounts[a].baseline)
    ensures LoaderInvariant.Inv(ring, ResealLanded(ring, l, a, sealed))
  {
    var l' := ResealLanded(ring, l, a, sealed);
    forall b <- l'.accounts ensures LoaderInvariant.HeldOpens(ring, l', b) {
      assert LoaderInvariant.HeldOpens(ring, l, b);
    }
    forall i | 0 <= i < |l'.active|
      ensures LoaderInvariant.ServedMatches(l'.accounts, l'.active[i]) && LoaderInvariant.NamesItsClient(l'.active[i])
    {
      assert LoaderInvariant.ServedMatches(l.accounts, l.active[i]) && LoaderInvariant.NamesItsClient(l.active[i]);
    }
  }

  lemma ResealLandsKeepsInv(cfg: Config, w: World)
    requires Inv(cfg, w) && ResealEnabled(w, ResealLands)
    ensures Inv(cfg, ResealNext(cfg, w, ResealLands))
    ensures SparesLineage(w, ResealNext(cfg, w, ResealLands))
  {
    hide LoaderInvariant.Inv, RowsDescend, HeldDescends, WorkDescends, Keyring.Open, Keyring.OnOldKey;
    var w' := ResealNext(cfg, w, ResealLands);
    ResealedIsCurrent(cfg, w, w');
    ResealLandedKeepsLoader(cfg.ring, w.loader, w.pc.account, w.pc.sealed);
    LoaderStepKeepsWork(w, w');
    SameHeldDescends(w, w');
  }

  lemma ResealFailsKeepsInv(cfg: Config, w: World, applied: bool)
    requires Inv(cfg, w) && ResealEnabled(w, ResealFails(applied))
    ensures Inv(cfg, ResealNext(cfg, w, ResealFails(applied)))
    ensures SparesLineage(w, ResealNext(cfg, w, ResealFails(applied)))
  {
    var w' := ResealNext(cfg, w, ResealFails(applied));
    if applied {
      ResealedIsCurrent(cfg, w, w');
      GrownKeepsHeld(w, w');
      LoaderStepKeepsWork(w, w');
    } else {
      OnlyPcMoves(cfg, w, w');
    }
  }

  lemma ScanIsNoPartOfInv(ring: Keyring, l: LoaderState, l': LoaderState)
    requires LoaderInvariant.Inv(ring, l) && l' == l.(scan := l'.scan)
    ensures LoaderInvariant.Inv(ring, l')
  {
    forall a <- l'.accounts ensures LoaderInvariant.HeldOpens(ring, l', a) {
      assert LoaderInvariant.HeldOpens(ring, l, a);
    }
  }

  lemma ResealReadsKeepsInv(cfg: Config, w: World, ok: bool)
    requires Inv(cfg, w) && ResealEnabled(w, ResealReads(ok))
    ensures Inv(cfg, ResealNext(cfg, w, ResealReads(ok)))
    ensures SparesLineage(w, ResealNext(cfg, w, ResealReads(ok)))
  {
    var w' := ResealNext(cfg, w, ResealReads(ok));
    var a := w.pc.account;
    if ok {
      StoredIsReadValue(cfg.ring, w, a);
      ReadoptKeepsHeld(cfg.ring, w, w', a, w.Stored(a));
      LoaderInvariant.ReadoptKeepsInv(cfg.ring, w.loader, a, w.Stored(a));
      ScanIsNoPartOfInv(cfg.ring, Readopt(cfg.ring, w.loader, a, w.Stored(a)), w'.loader);
      SameRowsDescend(cfg.ring, w, w');
      LoaderStepKeepsWork(w, w');
    } else {
      OnlyPcMoves(cfg, w, w');
    }
  }

  // ---------------------------------------------------------------- a re-read

  lemma BeginRereadKeepsInv(cfg: Config, w: World, a: string)
    requires Inv(cfg, w) && ReadEnabled(w, BeginReread(a))
    ensures Inv(cfg, ReadNext(cfg, w, BeginReread(a)))
    ensures SparesLineage(w, ReadNext(cfg, w, BeginReread(a)))
  {
    StoredIsReadValue(cfg.ring, w, a);
    OnlyPcMoves(cfg, w, ReadNext(cfg, w, BeginReread(a)));
  }

  lemma RereadReturnsHeld(cfg: Config, l: LoaderState, a: string, stored: Option<Sealed>, listing: Listing)
    ensures var (l', b) := Reread(cfg, l, a, stored, listing);
            && b.id == a
            && l'.accounts == Readopt(cfg.ring, l, a, stored).accounts
            && l'.adoptions == Readopt(cfg.ring, l, a, stored).adoptions
            && (b.Connected()
                ==> a in l'.accounts && l'.accounts[a].plaintext == b.credential
                    && l'.accounts[a].adoption == b.adoption)
  {
    LookupId(l.active, a);
  }

  lemma EndRereadKeepsInv(cfg: Config, w: World, listing: Listing)
    requires Inv(cfg, w) && ReadEnabled(w, EndReread(listing))
    ensures Inv(cfg, ReadNext(cfg, w, EndReread(listing)))
    ensures SparesLineage(w, ReadNext(cfg, w, EndReread(listing)))
  {
    var w' := ReadNext(cfg, w, EndReread(listing));
    var a := w.pc.account;
    var (l, b) := Reread(cfg, w.loader, a, w.pc.stored, listing);
    RereadReturnsHeld(cfg, w.loader, a, w.pc.stored, listing);
    ReadoptKeepsHeld(cfg.ring, w, w', a, w.pc.stored);
    LoaderInvariant.RereadKeepsInv(cfg, w.loader, a, w.pc.stored, listing);
    SameRowsDescend(cfg.ring, w, w');
    if b.Connected() {
      assert CameWith(w', a, w'.loader.accounts[a].adoption, w'.loader.accounts[a].plaintext);
      OfferKeepsWork(w, w', OfferOf(b));
    } else {
      GrownKeepsWork(w, w');
    }
  }

  // ---------------------------------------------------------------- a load

  ghost predicate RowsHeld(cfg: Config, w: World, known: map<string, Held>, adoptions: nat, stamps: map<nat, Plain>) {
    && (forall s <- w.stamps :: s in stamps && stamps[s] == w.stamps[s])
    && (forall s <- stamps :: 1 <= s <= adoptions)
    && HeldDescends(w.(loader := w.loader.(accounts := known), stamps := stamps))
  }

  lemma LoadOneHolds(cfg: Config, w: World, clients: map<string, Client>, before: Accounts, stamps: map<nat, Plain>,
                     r: Row)
    requires LoaderDescends(w) && LoaderInvariant.Inv(cfg.ring, w.loader) && ReadValue(cfg.ring, w, r.id, r.stored)
    requires before.adoptions >= w.loader.adoptions && RowsHeld(cfg, w, before.known, before.adoptions, stamps)
    ensures var after := LoadOne(cfg, w.loader.accounts, clients, before, r);
            var (h, n) := Adopt(cfg.ring, w.loader.accounts, before.adoptions, r.id, r.stored);
            RowsHeld(cfg, w, after.known, after.adoptions,
                     if h.Some? && n > before.adoptions then stamps[n := h.value.baseline] else stamps)
  {
    hide Paired, Publish, Keyring.Open, Keyring.OnOldKey, LoaderInvariant.Inv, StampsIssued;
    var after := LoadOne(cfg, w.loader.accounts, clients, before, r);
    var (h, n) := Adopt(cfg.ring, w.loader.accounts, before.adoptions, r.id, r.stored);
    var stamps' := if h.Some? && n > before.adoptions then stamps[n := h.value.baseline] else stamps;
    var w1 := w.(loader := w.loader.(accounts := before.known), stamps := stamps);
    var w2 := w.(loader := w.loader.(accounts := after.known), stamps := stamps');
    assert before.adoptions + 1 !in stamps;
    forall a <- w2.loader.accounts
      ensures CameWith(w2, a, w2.loader.accounts[a].adoption, w2.loader.accounts[a].baseline)
      ensures CameWith(w2, a, w2.loader.accounts[a].adoption, w2.loader.accounts[a].plaintext)
    {
      if a != r.id || h.None? {
        assert CameWith(w1, a, w1.loader.accounts[a].adoption, w1.loader.accounts[a].baseline);
      } else if n == before.adoptions {
        assert CameWith(w, a, w.loader.accounts[a].adoption, w.loader.accounts[a].baseline);
      }
    }
  }

  lemma {:induction false} LoadRowsHold(cfg: Config, w: World, clients: map<string, Client>, rows: seq<Row>)
    requires LoaderDescends(w) && LoaderInvariant.Inv(cfg.ring, w.loader)
    requires forall i | 0 <= i < |rows| :: ReadValue(cfg.ring, w, rows[i].id, rows[i].stored)
    ensures RowsHeld(cfg, w, LoadRows(cfg, w.loader, clients, rows).known,
                     LoadRows(cfg, w.loader, clients, rows).adoptions,
                     StampsAfterRows(cfg, w, clients, rows))
    decreases |rows|
  {
    if rows == [] {
    } else {
      var n := |rows| - 1;
      LoadRowsHold(cfg, w, clients, rows[..n]);
      LoadOneHolds(cfg, w, clients, LoadRows(cfg, w.loader, clients, rows[..n]),
                   StampsAfterRows(cfg, w, clients, rows[..n]), rows[n]);
    }
  }

  lemma EndLoadKeepsInv(cfg: Config, w: World)
    requires Inv(cfg, w) && ReadEnabled(w, EndLoad)
    ensures Inv(cfg, ReadNext(cfg, w, EndLoad))
    ensures SparesLineage(w, ReadNext(cfg, w, EndLoad))
  {
    var w' := ReadNext(cfg, w, EndLoad);
    LoaderInvariant.LoadKeepsInv(cfg, w.loader, w.pc.read, w.pc.clients);
    LoadRowsHold(cfg, w, OpenedClients(cfg.ring, w.pc.clients), w.pc.read);
    SameRowsDescend(cfg.ring, w, w');
    hide LoaderInvariant.Inv, RowsDescend, HeldDescends, WorkDescends;
    LoaderStepKeepsWork(w, w');
    SameHeldDescends(w.(loader := w.loader.(accounts := w'.loader.accounts), stamps := w'.stamps), w');
  }

  lemma LoadReadsKeepsInv(cfg: Config, w: World)
    requires Inv(cfg, w) && ReadEnabled(w, LoadReads)
    ensures Inv(cfg, ReadNext(cfg, w, LoadReads))
    ensures SparesLineage(w, ReadNext(cfg, w, LoadReads))
  {
    var w' := ReadNext(cfg, w, LoadReads);
    StoredIsReadValue(cfg.ring, w, w.pc.listed[|w.pc.read|].id);
    forall i | 0 <= i < |w'.pc.read|
      ensures w'.pc.read[i].id == w'.pc.listed[i].id && ReadValue(cfg.ring, w', w'.pc.read[i].id, w'.pc.read[i].stored)
    {
      assert i < |w.pc.read| ==> ReadValue(cfg.ring, w, w.pc.read[i].id, w.pc.read[i].stored);
    }
    OnlyPcMoves(cfg, w, w');
  }

  // ---------------------------------------------------------------- a re-seal of client secrets

  lemma ClientStepKeepsInv(cfg: Config, w: World, act: ClientAction)
    requires Inv(cfg, w) && ClientEnabled(w, act)
    ensures Inv(cfg, ClientNext(cfg, w, act))
    ensures SparesLineage(w, ClientNext(cfg, w, act))
    ensures ClientNext(cfg, w, act).loader.accounts == w.loader.accounts
  {
    hide LoaderInvariant.Inv, ResealClient, RereadClient;
    var w' := ClientNext(cfg, w, act);
    match act {
      case ResealClientWrites(name, nonce, cas) =>
        LoaderInvariant.ResealClientKeepsInv(cfg, w.loader, name, ClientIO(nonce, cas, None));
      case ResealClientReads(rows) =>
        if rows.Some? {
          LoaderInvariant.RereadClientKeepsInv(cfg, w.loader, w.pc.client, rows.value);
        }
      case _ =>
    }
    SameRowsDescend(cfg.ring, w, w');
    LoaderStepKeepsWork(w, w');
    SameHeldDescends(w, w');
  }

  // ---------------------------------------------------------------- over every run

  lemma HandOverStepKeepsInv(cfg: Config, w: World, act: HandOverAction)
    requires Inv(cfg, w) && HandOverEnabled(w, act)
    ensures Inv(cfg, HandOverNext(cfg, w, act))
    ensures SparesLineage(w, HandOverNext(cfg, w, act))
  {
    match act {
      case BeginHandOver(c, nonce) => BeginHandOverKeepsInv(cfg, w, c, nonce);
      case WriteLands => WriteLandsKeepsInv(cfg, w);
      case WriteMisses => WriteMissesKeepsInv(cfg, w);
      case WriteFails(applied) => WriteFailsKeepsInv(cfg, w, applied);
      case ReadAfterMiss(ok) => ReadAfterMissKeepsInv(cfg, w, ok);
    }
  }

  lemma ReadStepKeepsInv(cfg: Config, w: World, act: ReadAction)
    requires Inv(cfg, w) && ReadEnabled(w, act)
    ensures Inv(cfg, ReadNext(cfg, w, act))
    ensures SparesLineage(w, ReadNext(cfg, w, act))
  {
    match act {
      case BeginLoad(_, _) => OnlyPcMoves(cfg, w, ReadNext(cfg, w, act));
      case LoadReads => LoadReadsKeepsInv(cfg, w);
      case EndLoad => EndLoadKeepsInv(cfg, w);
      case ReadFails => OnlyPcMoves(cfg, w, ReadNext(cfg, w, act));
      case BeginReread(a) => BeginRereadKeepsInv(cfg, w, a);
      case EndReread(listing) => EndRereadKeepsInv(cfg, w, listing);
    }
  }

  lemma ResealStepKeepsInv(cfg: Config, w: World, act: ResealAction)
    requires Inv(cfg, w) && ResealEnabled(w, act)
    ensures Inv(cfg, ResealNext(cfg, w, act))
    ensures SparesLineage(w, ResealNext(cfg, w, act))
  {
    match act {
      case BeginReseal => OnlyPcMoves(cfg, w, ResealNext(cfg, w, act));
      case ResealStarts(a, nonce) => ResealStartsKeepsInv(cfg, w, a, nonce);
      case ResealLands => ResealLandsKeepsInv(cfg, w);
      case ResealMisses => OnlyPcMoves(cfg, w, ResealNext(cfg, w, act));
      case ResealFails(applied) => ResealFailsKeepsInv(cfg, w, applied);
      case ResealReads(ok) => ResealReadsKeepsInv(cfg, w, ok);
      case EndReseal => OnlyPcMoves(cfg, w, ResealNext(cfg, w, act));
    }
  }

  /** Every step keeps the invariant, and forgets no lineage and no store. */
  lemma StepKeepsInv(cfg: Config, w: World, act: Action)
    requires Inv(cfg, w) && Enabled(w, act)
    ensures Inv(cfg, Next(cfg, w, act)) && Remembers(w, Next(cfg, w, act))
  {
    match act {
      case Outside(a) => OutsideKeepsInv(cfg, w, a);
      case InUnit(a) => UnitStepKeepsInv(cfg, w, a);
      case InHandOver(a) => HandOverStepKeepsInv(cfg, w, a);
      case InRead(a) => ReadStepKeepsInv(cfg, w, a);
      case InReseal(a) => ResealStepKeepsInv(cfg, w, a);
      case InClients(a) => ClientStepKeepsInv(cfg, w, a);
    }
  }

  lemma {:induction false} RunKeepsInv(cfg: Config, w: World, acts: seq<Action>)
    requires Inv(cfg, w) && Runs(cfg, w, acts)
    ensures Inv(cfg, After(cfg, w, acts))
    ensures Remembers(w, After(cfg, w, acts))
    decreases |acts|
  {
    if acts == [] {
    } else {
      var w1 := Next(cfg, w, acts[0]);
      StepKeepsInv(cfg, w, acts[0]);
      RunKeepsInv(cfg, w1, acts[1..]);
    }
  }

  /** In every reachable state each row that opens holds a credential descended from the last outside
      store to it, and the loader's invariant holds: the known bytes open to the baseline, and each
      published account carries exactly what is held for it. */
  lemma EveryRowIsCurrent(cfg: Config, w: World, acts: seq<Action>)
    requires Init(cfg, w) && Runs(cfg, w, acts)
    ensures RowsAreCurrent(cfg.ring, After(cfg, w, acts))
    ensures LoaderInvariant.Inv(cfg.ring, After(cfg, w, acts).loader)
  {
    InitHolds(cfg, w);
    RunKeepsInv(cfg, w, acts);
  }

  /** No hand-over puts back a credential someone else replaced. After an outside store to an account,
      whatever the process does and whatever else is stored, a hand-over that reaches the account's row
      writes a credential that descends from none the account had before that store. */
  lemma NoHandOverPutsBack(cfg: Config, w: World, before: seq<Action>, account: string, value: Sealed,
                           since: seq<Action>, write: HandOverAction)
    requires Init(cfg, w) && Runs(cfg, w, before)
    requires OutsideEnabled(After(cfg, w, before), OutsideStore(account, value))
    requires Runs(cfg, OutsideNext(cfg, After(cfg, w, before), OutsideStore(account, value)), since)
    requires var w2 := After(cfg, OutsideNext(cfg, After(cfg, w, before), OutsideStore(account, value)), since);
             && (write == WriteLands || write == WriteFails(true))
             && HandOverEnabled(w2, write) && w2.pc.call.account == account
    ensures var w1 := After(cfg, w, before);
            var w2 := After(cfg, OutsideNext(cfg, w1, OutsideStore(account, value)), since);
            && cfg.ring.Open(HandOverNext(cfg, w2, write).rows[account], AccountCredential(account))
                == Some(w2.pc.call.current)
            && w2.pc.call.current in w2.lineage
            && (forall p <- w1.lineage | w1.lineage[p].account == account :: !w2.Descend(w2.pc.call.current, p))
  {
    var w1 := After(cfg, w, before);
    var s := OutsideNext(cfg, w1, OutsideStore(account, value));
    var w2 := After(cfg, s, since);
    InitHolds(cfg, w);
    RunKeepsInv(cfg, w, before);
    OutsideKeepsInv(cfg, w1, OutsideStore(account, value));
    RunKeepsInv(cfg, s, since);
    WrittenDescendsFromOverwritten(cfg, w2);
    forall p <- w1.lineage | w1.lineage[p].account == account ensures !w2.Descend(w2.pc.call.current, p) {
      assert w1.lineage[p].store <= w1.Stores(account) < s.Stores(account) <= w2.Stores(account);
    }
  }

  // ---------------------------------------------------------------- a rotation whose write failed

  predicate WillRead(listed: seq<Listed>, a: string) {
    exists i :: 0 <= i < |listed| && listed[i].id == a
  }

  ghost predicate Spares(w: World, a: string, rotated: Plain, act: Action) {
    match act
    case InHandOver(BeginHandOver(c, _)) =>
      c.account == a ==>
        c.current == rotated || !IsRotation(w.loader, a, c.current) || Stale(w.loader, a, c.stamp)
    case InRead(BeginLoad(listed, _)) => WillRead(listed, a)
    case _ => true
  }

  /** Over the run the row holds the bytes the loader knows, no other rotation of the account is handed
      over, and every load lists the account. */
  ghost predicate Undisturbed(cfg: Config, w: World, a: string, rotated: Plain, acts: seq<Action>)
    decreases |acts|
  {
    && RowIsKnown(w, a)
    && (acts != [] ==>
      && Enabled(w, acts[0])
      && Spares(w, a, rotated, acts[0])
      && Undisturbed(cfg, Next(cfg, w, acts[0]), a, rotated, acts[1..]))
  }

  /** The rotation is held under its stamp, and what the operation under way has read of the account is
      what the loader knows. */
  ghost predicate Keeps(l: LoaderState, pc: Pc, a: string, rotated: Plain, stamp: nat) {
    && a in l.accounts && l.accounts[a].plaintext == rotated && l.accounts[a].adoption == stamp
    && (pc.Rereading? && pc.account == a ==> pc.stored == Some(l.accounts[a].known))
    && (pc.Loading?
        ==> WillRead(pc.listed, a) && (forall r <- pc.read :: r.id == a ==> r.stored == Some(l.accounts[a].known)))
  }

  /** Adopting another account's value, or the bytes already known, leaves what is held alone. */
  lemma ReadoptSpares(ring: Keyring, l: LoaderState, account: string, stored: Option<Sealed>, a: string)
    requires a in l.accounts && (account == a ==> stored == Some(l.accounts[a].known))
    ensures a in Readopt(ring, l, account, stored).accounts
            && Readopt(ring, l, account, stored).accounts[a] == l.accounts[a]
  {
  }

  lemma BeginHandOverKeeps(cfg: Config, w: World, a: string, rotated: Plain, stamp: nat, c: Call, nonce: Option<nat>)
    requires HandOverEnabled(w, BeginHandOver(c, nonce)) && Spares(w, a, rotated, InHandOver(BeginHandOver(c, nonce)))
    requires Keeps(w.loader, w.pc, a, rotated, stamp)
    ensures var w' := HandOverNext(cfg, w, BeginHandOver(c, nonce)); Keeps(w'.loader, w'.pc, a, rotated, stamp)
  {
    hide Publish, Keyring.Open;
  }

  lemma WriteLandsKeeps(cfg: Config, w: World, a: string, rotated: Plain, stamp: nat)
    requires HandOverEnabled(w, WriteLands) && Keeps(w.loader, w.pc, a, rotated, stamp)
    ensures var w' := HandOverNext(cfg, w, WriteLands); Keeps(w'.loader, w'.pc, a, rotated, stamp)
  {
    hide Publish, Keyring.Open;
  }

  lemma HandOverStepKeeps(cfg: Config, w: World, a: string, rotated: Plain, stamp: nat, act: HandOverAction)
    requires HandOverEnabled(w, act) && Spares(w, a, rotated, InHandOver(act)) && RowIsKnown(w, a)
    requires Keeps(w.loader, w.pc, a, rotated, stamp)
    ensures var w' := HandOverNext(cfg, w, act); Keeps(w'.loader, w'.pc, a, rotated, stamp)
  {
    hide Readopt, Publish, Keyring.Open, Spares;
    match act {
      case BeginHandOver(c, nonce) => BeginHandOverKeeps(cfg, w, a, rotated, stamp, c, nonce);
      case WriteLands => WriteLandsKeeps(cfg, w, a, rotated, stamp);
      case ReadAfterMiss(_) => ReadoptSpares(cfg.ring, w.loader, w.pc.account, w.Stored(w.pc.account), a);
      case _ =>
    }
  }

  lemma ReadStepKeeps(cfg: Config, w: World, a: string, rotated: Plain, stamp: nat, act: ReadAction)
    requires ReadEnabled(w, act) && !act.EndLoad? && Spares(w, a, rotated, InRead(act)) && RowIsKnown(w, a)
    requires Keeps(w.loader, w.pc, a, rotated, stamp)
    ensures var w' := ReadNext(cfg, w, act); Keeps(w'.loader, w'.pc, a, rotated, stamp)
  {
  }

  lemma EndLoadKeeps(cfg: Config, w: World, a: string, rotated: Plain, stamp: nat)
    requires Inv(cfg, w) && ReadEnabled(w, EndLoad) && RowIsKnown(w, a)
    requires Keeps(w.loader, w.pc, a, rotated, stamp)
    ensures var w' := ReadNext(cfg, w, EndLoad); Keeps(w'.loader, w'.pc, a, rotated, stamp)
  {
    var i :| 0 <= i < |w.pc.listed| && w.pc.listed[i].id == a;
    assert w.pc.read[i].id == a;
    LoaderInvariant.HeldSurvivesLoad(cfg, w.loader, w.pc.read, w.pc.clients, i);
  }

  lemma ResealLandsKeeps(cfg: Config, w: World, a: string, rotated: Plain, stamp: nat)
    requires ResealEnabled(w, ResealLands) && Keeps(w.loader, w.pc, a, rotated, stamp)
    ensures var w' := ResealNext(cfg, w, ResealLands); Keeps(w'.loader, w'.pc, a, rotated, stamp)
  {
    hide Publish, Keyring.Open;
  }

  lemma ResealStepKeeps(cfg: Config, w: World, a: string, rotated: Plain, stamp: nat, act: ResealAction)
    requires ResealEnabled(w, act) && RowIsKnown(w, a)
    requires Keeps(w.loader, w.pc, a, rotated, stamp)
    ensures var w' := ResealNext(cfg, w, act); Keeps(w'.loader, w'.pc, a, rotated, stamp)
  {
    hide Readopt, Publish, Keyring.Open;
    match act {
      case ResealReads(_) => ReadoptSpares(cfg.ring, w.loader, w.pc.account, w.Stored(w.pc.account), a);
      case ResealLands => ResealLandsKeeps(cfg, w, a, rotated, stamp);
      case _ =>
    }
  }

  lemma ClientStepKeeps(cfg: Config, w: World, a: string, rotated: Plain, stamp: nat, act: ClientAction)
    requires Inv(cfg, w) && ClientEnabled(w, act) && Keeps(w.loader, w.pc, a, rotated, stamp)
    ensures var w' := ClientNext(cfg, w, act); Keeps(w'.loader, w'.pc, a, rotated, stamp)
  {
    hide Inv, ResealClient, RereadClient;
    ClientStepKeepsInv(cfg, w, act);
  }

  lemma HeldIsServed(cfg: Config, w: World, a: string, rotated: Plain, stamp: nat)
    requires Inv(cfg, w) && Keeps(w.loader, w.pc, a, rotated, stamp)
    ensures a in w.loader.accounts && w.loader.accounts[a].plaintext == rotated
            && w.loader.accounts[a].adoption == stamp
    ensures forall i | 0 <= i < |w.loader.active| && w.loader.active[i].id == a ::
              w.loader.active[i].credential == rotated && w.loader.active[i].adoption == stamp
  {
    forall i | 0 <= i < |w.loader.active| && w.loader.active[i].id == a
      ensures w.loader.active[i].credential == rotated && w.loader.active[i].adoption == stamp
    {
      assert LoaderInvariant.ServedMatches(w.loader.accounts, w.loader.active[i]);
    }
  }

  lemma StepKeeps(cfg: Config, w: World, a: string, rotated: Plain, stamp: nat, act: Action)
    requires Inv(cfg, w) && Enabled(w, act) && Spares(w, a, rotated, act) && RowIsKnown(w, a)
    requires Keeps(w.loader, w.pc, a, rotated, stamp)
    ensures var w' := Next(cfg, w, act); Keeps(w'.loader, w'.pc, a, rotated, stamp)
  {
    hide Inv, Keeps, RowIsKnown, Spares;
    match act {
      case InHandOver(h) => HandOverStepKeeps(cfg, w, a, rotated, stamp, h);
      case InRead(EndLoad) => EndLoadKeeps(cfg, w, a, rotated, stamp);
      case InRead(r) => ReadStepKeeps(cfg, w, a, rotated, stamp, r);
      case InReseal(r) => ResealStepKeeps(cfg, w, a, rotated, stamp, r);
      case InClients(c) => ClientStepKeeps(cfg, w, a, rotated, stamp, c);
      case Outside(o) => Steps.OutsideSparesLoader(cfg, w, o);
      case InUnit(u) => Steps.UnitSparesLoader(cfg, w, u);
    }
  }

  /** A rotation the loader holds, its write-back failed or not yet tried, survives every reload,
      re-read and re-seal under its stamp, and every snapshot serves it, while the row holds the bytes
      the loader knows and no other rotation of the account is handed over. */
  lemma {:induction false} RotationSurvives(cfg: Config, w: World, a: string, rotated: Plain, stamp: nat,
                                            acts: seq<Action>)
    requires Inv(cfg, w) && Keeps(w.loader, w.pc, a, rotated, stamp) && Undisturbed(cfg, w, a, rotated, acts)
             && Runs(cfg, w, acts)
    ensures var w' := After(cfg, w, acts);
            && a in w'.loader.accounts && w'.loader.accounts[a].plaintext == rotated
                && w'.loader.accounts[a].adoption == stamp
            && (forall i | 0 <= i < |w'.loader.active| && w'.loader.active[i].id == a ::
                  w'.loader.active[i].credential == rotated && w'.loader.active[i].adoption == stamp)
    decreases |acts|
  {
    hide Inv, Keeps, RowIsKnown, Spares, Enabled, Next;
    if acts == [] {
      HeldIsServed(cfg, w, a, rotated, stamp);
    } else {
      StepKeeps(cfg, w, a, rotated, stamp, acts[0]);
      StepKeepsInv(cfg, w, acts[0]);
      RotationSurvives(cfg, Next(cfg, w, acts[0]), a, rotated, stamp, acts[1..]);
    }
  }
}
