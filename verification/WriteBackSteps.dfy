/** The protocol's steps compose to what the loader's methods do in one call (executioncontext/accountload). */
module WriteBackSteps {
  import opened Wrappers
  import opened Sealing
  import opened AccountLoad
  import opened WriteBack

  // ---------------------------------------------------------------- the loader's lock

  /** What is no step of the loader operation under way. */
  predicate IsOther(pc: Pc, act: Action) {
    && (pc.Writing? || pc.Missing? ==> !act.InHandOver?)
    && (pc.Loading? || pc.Rereading? ==> !act.InRead?)
    && (pc.Resealing? || pc.ResealWriting? || pc.ResealMissing? ==> !act.InReseal?)
    && (pc.ResealingClients? || pc.ClientMissing? ==> !act.InClients?)
  }

  /** While an operation is under way nothing else of the loader's can start, so all that falls between its
      transactions is the world outside and units of work. */
  lemma OthersAreOutside(w: World, act: Action)
    requires Enabled(w, act) && !w.pc.Idle? && IsOther(w.pc, act)
    ensures act.Outside? || act.InUnit?
  {
  }

  lemma OutsideSparesLoader(cfg: Config, w: World, act: OutsideAction)
    requires OutsideEnabled(w, act)
    ensures OutsideNext(cfg, w, act).loader == w.loader && OutsideNext(cfg, w, act).pc == w.pc
  {
  }

  lemma UnitSparesLoader(cfg: Config, w: World, act: UnitAction)
    requires UnitEnabled(w, act)
    ensures var w' := UnitNext(cfg, w, act);
            w'.loader == w.loader && w'.stamps == w.stamps && w'.pc == w.pc && w'.stores == w.stores
  {
  }

  lemma OneBetween(cfg: Config, w: World, act: Action)
    requires Enabled(w, act) && !w.pc.Idle? && IsOther(w.pc, act)
    ensures Next(cfg, w, act).loader == w.loader && Next(cfg, w, act).pc == w.pc
  {
    OthersAreOutside(w, act);
    hide OutsideNext, UnitNext, OutsideEnabled, UnitEnabled, IsOther;
    match act {
      case Outside(a) => OutsideSparesLoader(cfg, w, a);
      case InUnit(a) => UnitSparesLoader(cfg, w, a);
    }
  }

  /** A run with no step of the operation under way leaves it and the loader as they are. */
  lemma {:induction false} BetweenSparesLoader(cfg: Config, w: World, acts: seq<Action>)
    requires Runs(cfg, w, acts) && !w.pc.Idle? && forall act <- acts :: IsOther(w.pc, act)
    ensures After(cfg, w, acts).loader == w.loader && After(cfg, w, acts).pc == w.pc
    decreases |acts|
  {
    if acts == [] {
    } else {
      hide Next, Enabled, IsOther;
      OneBetween(cfg, w, acts[0]);
      BetweenSparesLoader(cfg, Next(cfg, w, acts[0]), acts[1..]);
    }
  }

  // ---------------------------------------------------------------- a hand-over

  /** The answer a hand-over's write step stands for. */
  function CasOf(act: HandOverAction): Cas
    requires act.WriteLands? || act.WriteMisses? || act.WriteFails?
  {
    match act
    case WriteLands => Landed
    case WriteMisses => Missed
    case WriteFails(_) => CasFailed
  }

  /** A hand-over that writes, from its beginning on: a run of other steps, the write's report and, if that was a
      miss, another run before the read. */
  ghost predicate HandOverRuns(cfg: Config, begun: World, first: seq<Action>, write: HandOverAction,
                               second: seq<Action>)
  {
    && Runs(cfg, begun, first) && (forall act <- first :: !act.InHandOver?)
    && (write.WriteLands? || write.WriteMisses? || write.WriteFails?)
    && HandOverEnabled(After(cfg, begun, first), write)
    && (write.WriteMisses? ==>
          && Runs(cfg, HandOverNext(cfg, After(cfg, begun, first), write), second)
          && forall act <- second :: !act.InHandOver?)
  }

  /** Step by step and whatever falls between, a hand-over does what HandOver does in one call: at once when nothing is
      written, and otherwise with the write's report and the row a read after a miss finds then. */
  lemma HandOverComposes(cfg: Config, w: World, c: Call, nonce: Option<nat>, first: seq<Action>, write: HandOverAction,
                         second: seq<Action>, ok: bool)
    requires HandOverEnabled(w, BeginHandOver(c, nonce))
    requires var begun := HandOverNext(cfg, w, BeginHandOver(c, nonce));
             begun.pc.Writing? ==> HandOverRuns(cfg, begun, first, write, second)
    ensures var begun := HandOverNext(cfg, w, BeginHandOver(c, nonce));
            if !begun.pc.Writing?
            then
              && begun.pc.Idle?
              && forall io: WriteIO | io.nonce == nonce ::
                   begun.loader == HandOver(cfg.ring, w.loader, c.account, c.stamp, c.current, io).0
            else
              var v := HandOverNext(cfg, After(cfg, begun, first), write);
              if !write.WriteMisses?
              then
                && v.pc.Idle?
                && v.loader == HandOver(cfg.ring, w.loader, c.account, c.stamp, c.current,
                                        WriteIO(nonce, CasOf(write), None)).0
              else
                var x := After(cfg, v, second);
                && HandOverEnabled(x, ReadAfterMiss(ok))
                && var y := HandOverNext(cfg, x, ReadAfterMiss(ok));
                   && y.pc.Idle?
                   && y.loader == HandOver(cfg.ring, w.loader, c.account, c.stamp, c.current,
                                           WriteIO(nonce, Missed, if ok then Some(x.Stored(c.account)) else None)).0
  {
    hide Readopt, Publish, Keyring.Seal, Keyring.Open, After, Runs;
    var begun := HandOverNext(cfg, w, BeginHandOver(c, nonce));
    if begun.pc.Writing? {
      BetweenSparesLoader(cfg, begun, first);
      var v := HandOverNext(cfg, After(cfg, begun, first), write);
      if write.WriteMisses? {
        BetweenSparesLoader(cfg, v, second);
      }
    }
  }

  // ---------------------------------------------------------------- a re-seal of one account

  function ResealCasOf(act: ResealAction): Cas
    requires act.ResealLands? || act.ResealMisses? || act.ResealFails?
  {
    match act
    case ResealLands => Landed
    case ResealMisses => Missed
    case ResealFails(_) => CasFailed
  }

  lemma ResealStartsWith(cfg: Config, w: World, a: string, nonce: Option<nat>)
    requires ResealEnabled(w, ResealStarts(a, nonce))
    ensures var w', sealed := ResealNext(cfg, w, ResealStarts(a, nonce)), Resealed(cfg.ring, w.loader, a, nonce);
            && w'.loader == w.loader
            && w'.pc == if sealed.None? then Resealing(w.pc.todo - {a})
                        else ResealWriting(a, sealed.value, w.pc.todo - {a})
  {
    hide Resealed;
  }

  lemma ResealWrites(cfg: Config, u: World, write: ResealAction)
    requires ResealEnabled(u, write) && (write.ResealLands? || write.ResealMisses? || write.ResealFails?)
    ensures var v := ResealNext(cfg, u, write);
            && v.pc == (if write.ResealMisses? then ResealMissing(u.pc.account, u.pc.todo) else Resealing(u.pc.todo))
            && v.loader == if write.ResealLands? then ResealLanded(cfg.ring, u.loader, u.pc.account, u.pc.sealed)
                           else u.loader
  {
    hide ResealLanded;
  }

  lemma ResealReadsRow(cfg: Config, x: World, ok: bool)
    requires ResealEnabled(x, ResealReads(ok))
    ensures var y := ResealNext(cfg, x, ResealReads(ok));
            && y.pc == Resealing(x.pc.todo)
            && y.loader == if ok then ResealMissed(cfg.ring, x.loader, x.pc.account, x.Stored(x.pc.account))
                else x.loader
  {
    hide ResealMissed;
  }

  ghost predicate ResealRuns(cfg: Config, begun: World, first: seq<Action>, write: ResealAction, second: seq<Action>) {
    && Runs(cfg, begun, first) && (forall act <- first :: !act.InReseal?)
    && (write.ResealLands? || write.ResealMisses? || write.ResealFails?)
    && ResealEnabled(After(cfg, begun, first), write)
    && (write.ResealMisses? ==>
          && Runs(cfg, ResealNext(cfg, After(cfg, begun, first), write), second)
          && forall act <- second :: !act.InReseal?)
  }

  /** The steps of one account's re-seal do the same: nothing at once, or what ResealOne does in one call. */
  lemma ResealComposes(cfg: Config, w: World, a: string, nonce: Option<nat>, first: seq<Action>, write: ResealAction,
                       second: seq<Action>, ok: bool)
    requires ResealEnabled(w, ResealStarts(a, nonce))
    requires var begun := ResealNext(cfg, w, ResealStarts(a, nonce));
             begun.pc.ResealWriting? ==> ResealRuns(cfg, begun, first, write, second)
    ensures var begun, rest := ResealNext(cfg, w, ResealStarts(a, nonce)), Resealing(w.pc.todo - {a});
            if !begun.pc.ResealWriting?
            then
              && begun.pc == rest
              && forall io: WriteIO | io.nonce == nonce :: begun.loader == ResealOne(cfg.ring, w.loader, a, io)
            else
              var v := ResealNext(cfg, After(cfg, begun, first), write);
              if !write.ResealMisses?
              then
                && v.pc == rest
                && v.loader == ResealOne(cfg.ring, w.loader, a, WriteIO(nonce, ResealCasOf(write), None))
              else
                var x := After(cfg, v, second);
                && ResealEnabled(x, ResealReads(ok))
                && var y := ResealNext(cfg, x, ResealReads(ok));
                   && y.pc == rest
                   && y.loader == ResealOne(cfg.ring, w.loader, a,
                                            WriteIO(nonce, Missed, if ok then Some(x.Stored(a)) else None))
  {
    hide ResealMissed, ResealLanded, ResealNext, Resealed, After, Runs;
    ResealStartsWith(cfg, w, a, nonce);
    var begun := ResealNext(cfg, w, ResealStarts(a, nonce));
    if begun.pc.ResealWriting? {
      BetweenSparesLoader(cfg, begun, first);
      var u := After(cfg, begun, first);
      ResealWrites(cfg, u, write);
      var v := ResealNext(cfg, u, write);
      if write.ResealMisses? {
        BetweenSparesLoader(cfg, v, second);
        ResealReadsRow(cfg, After(cfg, v, second), ok);
      }
    }
  }

  // ---------------------------------------------------------------- a re-seal of one client's secret

  lemma ClientResealComposes(cfg: Config, w: World, name: string, io: ClientIO, between: seq<Action>)
    requires ClientEnabled(w, ResealClientWrites(name, io.nonce, io.cas))
    requires var v := ClientNext(cfg, w, ResealClientWrites(name, io.nonce, io.cas));
             v.pc.ClientMissing? ==> Runs(cfg, v, between) && forall act <- between :: !act.InClients?
    ensures var v := ClientNext(cfg, w, ResealClientWrites(name, io.nonce, io.cas));
            var rest := ResealingClients(w.pc.clientsToDo - {name});
            if v.pc.ClientMissing?
            then
              var x := After(cfg, v, between);
              && ClientEnabled(x, ResealClientReads(io.read))
              && var y := ClientNext(cfg, x, ResealClientReads(io.read));
                 y.pc == rest && y.loader == ResealClient(cfg, w.loader, name, io)
            else v.pc == rest && v.loader == ResealClient(cfg, w.loader, name, io)
  {
    hide RereadClient, Keyring.Reseal, After, Runs;
    var v := ClientNext(cfg, w, ResealClientWrites(name, io.nonce, io.cas));
    if v.pc.ClientMissing? {
      BetweenSparesLoader(cfg, v, between);
    }
  }
}
