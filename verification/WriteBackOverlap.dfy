/** Rotations that overlap under one stamp, over any run of the write-back protocol
    (executioncontext/accountload/writeback.go). */
module WriteBackOverlap {
  import opened Wrappers
  import opened Sealing
  import opened AccountLoad
  import opened WriteBack
  import opened WriteBackSafety
  import LoaderInvariant
  import Steps = WriteBackSteps

  // ---------------------------------------------------------------- the row stays as the loader knows it

  /** What a read under way has seen of the account is what the loader knows, and a load under way lists it. */
  predicate ReadsKnown(pc: Pc, a: string, known: Sealed) {
    && (pc.Rereading? && pc.account == a ==> pc.stored == Some(known))
    && (pc.Loading? ==> WillRead(pc.listed, a) && forall r <- pc.read :: r.id == a ==> r.stored == Some(known))
  }

  /** The row holds the bytes the loader knows, what is held came with the stamp, and so it will stay once the
      operation under way has ended. */
  predicate Aligned(w: World, a: string, stamp: nat) {
    && RowIsKnown(w, a)
    && w.loader.accounts[a].adoption == stamp
    && ReadsKnown(w.pc, a, w.loader.accounts[a].known)
  }

  /** Nobody else changes the account's bytes, no write of it is applied and yet reported failed, unless it wrote what
      was there, and a load lists the account. */
  predicate LeavesRow(cfg: Config, w: World, a: string, act: Action)
    requires Enabled(w, act)
  {
    match act
    case Outside(o) => OutsideNext(cfg, w, o).Stored(a) == w.Stored(a)
    case InHandOver(WriteFails(applied)) => applied && w.pc.call.account == a ==> Some(w.pc.sealed) == w.Stored(a)
    case InReseal(ResealFails(applied)) => applied && w.pc.account == a ==> Some(w.pc.sealed) == w.Stored(a)
    case InRead(BeginLoad(listed, _)) => WillRead(listed, a)
    case _ => true
  }

  lemma BeginHandOverAligned(cfg: Config, w: World, a: string, stamp: nat, c: Call, nonce: Option<nat>)
    requires HandOverEnabled(w, BeginHandOver(c, nonce)) && Aligned(w, a, stamp)
    ensures Aligned(HandOverNext(cfg, w, BeginHandOver(c, nonce)), a, stamp)
  {
    hide Publish, Keyring.Seal;
  }

  lemma WriteLandsAligned(cfg: Config, w: World, a: string, stamp: nat)
    requires HandOverEnabled(w, WriteLands) && Aligned(w, a, stamp)
    ensures Aligned(HandOverNext(cfg, w, WriteLands), a, stamp)
  {
    hide Publish;
  }

  lemma WriteFailsAligned(cfg: Config, w: World, a: string, stamp: nat, applied: bool)
    requires HandOverEnabled(w, WriteFails(applied)) && Aligned(w, a, stamp)
    ensures Aligned(HandOverNext(cfg, w, WriteFails(applied)), a, stamp)
            <==> LeavesRow(cfg, w, a, InHandOver(WriteFails(applied)))
  {
  }

  lemma ReadAfterMissAligned(cfg: Config, w: World, a: string, stamp: nat, ok: bool)
    requires HandOverEnabled(w, ReadAfterMiss(ok)) && Aligned(w, a, stamp)
    ensures Aligned(HandOverNext(cfg, w, ReadAfterMiss(ok)), a, stamp)
  {
    hide Readopt;
    ReadoptSpares(cfg.ring, w.loader, w.pc.account, w.Stored(w.pc.account), a);
  }

  lemma HandOverStepAligned(cfg: Config, w: World, a: string, stamp: nat, act: HandOverAction)
    requires HandOverEnabled(w, act) && Aligned(w, a, stamp)
    ensures Aligned(HandOverNext(cfg, w, act), a, stamp) <==> LeavesRow(cfg, w, a, InHandOver(act))
  {
    hide HoldRotation, Land, Readopt, Keyring.Seal;
    match act {
      case BeginHandOver(c, nonce) => BeginHandOverAligned(cfg, w, a, stamp, c, nonce);
      case WriteLands => WriteLandsAligned(cfg, w, a, stamp);
      case WriteMisses => assert Aligned(HandOverNext(cfg, w, act), a, stamp);
      case WriteFails(applied) => WriteFailsAligned(cfg, w, a, stamp, applied);
      case ReadAfterMiss(ok) => ReadAfterMissAligned(cfg, w, a, stamp, ok);
    }
  }

  lemma EndLoadAligned(cfg: Config, w: World, a: string, stamp: nat)
    requires Inv(cfg, w) && ReadEnabled(w, EndLoad) && Aligned(w, a, stamp)
    ensures Aligned(ReadNext(cfg, w, EndLoad), a, stamp)
  {
    var i :| 0 <= i < |w.pc.listed| && w.pc.listed[i].id == a;
    assert w.pc.read[i].id == a;
    LoaderInvariant.HeldSurvivesLoad(cfg, w.loader, w.pc.read, w.pc.clients, i);
  }

  lemma ReadStepAligned(cfg: Config, w: World, a: string, stamp: nat, act: ReadAction)
    requires ReadEnabled(w, act) && !act.EndLoad? && Aligned(w, a, stamp)
    ensures Aligned(ReadNext(cfg, w, act), a, stamp) <==> LeavesRow(cfg, w, a, InRead(act))
  {
    hide Publish, PublishClient, Keyring.Open;
  }

  lemma ResealStepAligned(cfg: Config, w: World, a: string, stamp: nat, act: ResealAction)
    requires ResealEnabled(w, act) && Aligned(w, a, stamp)
    ensures Aligned(ResealNext(cfg, w, act), a, stamp) <==> LeavesRow(cfg, w, a, InReseal(act))
  {
    hide Readopt, Publish, Keyring.Open, Keyring.Reseal;
    match act {
      case ResealReads(_) => ReadoptSpares(cfg.ring, w.loader, w.pc.account, w.Stored(w.pc.account), a);
      case _ =>
    }
  }

  lemma ClientStepAligned(cfg: Config, w: World, a: string, stamp: nat, act: ClientAction)
    requires Inv(cfg, w) && ClientEnabled(w, act) && Aligned(w, a, stamp)
    ensures Aligned(ClientNext(cfg, w, act), a, stamp)
  {
    hide Inv, ResealClient, RereadClient;
    ClientStepKeepsInv(cfg, w, act);
  }

  lemma OutsideStepAligned(cfg: Config, w: World, a: string, stamp: nat, act: OutsideAction)
    requires OutsideEnabled(w, act) && Aligned(w, a, stamp)
    ensures Aligned(OutsideNext(cfg, w, act), a, stamp) <==> LeavesRow(cfg, w, a, Outside(act))
  {
  }

  lemma UnitStepAligned(cfg: Config, w: World, a: string, stamp: nat, act: UnitAction)
    requires UnitEnabled(w, act) && Aligned(w, a, stamp)
    ensures Aligned(UnitNext(cfg, w, act), a, stamp)
  {
  }

  /** One step keeps the row and the loader aligned exactly when it leaves the row to the loader. */
  lemma StepAligned(cfg: Config, w: World, a: string, stamp: nat, act: Action)
    requires Inv(cfg, w) && Enabled(w, act) && Aligned(w, a, stamp)
    ensures Aligned(Next(cfg, w, act), a, stamp) <==> LeavesRow(cfg, w, a, act)
  {
    hide Inv, Aligned;
    match act {
      case InHandOver(h) => HandOverStepAligned(cfg, w, a, stamp, h);
      case InRead(EndLoad) => EndLoadAligned(cfg, w, a, stamp);
      case InRead(r) => ReadStepAligned(cfg, w, a, stamp, r);
      case InReseal(r) => ResealStepAligned(cfg, w, a, stamp, r);
      case InClients(c) => ClientStepAligned(cfg, w, a, stamp, c);
      case Outside(o) => OutsideStepAligned(cfg, w, a, stamp, o);
      case InUnit(u) => UnitStepAligned(cfg, w, a, stamp, u);
    }
  }

  /** Every step of the run leaves the row to the loader. */
  ghost predicate LeftToLoader(cfg: Config, w: World, a: string, acts: seq<Action>)
    requires Runs(cfg, w, acts)
    decreases |acts|
  {
    acts == [] || (LeavesRow(cfg, w, a, acts[0]) && LeftToLoader(cfg, Next(cfg, w, acts[0]), a, acts[1..]))
  }

  ghost predicate AlignedThroughout(cfg: Config, w: World, a: string, stamp: nat, acts: seq<Action>)
    requires Runs(cfg, w, acts)
    decreases |acts|
  {
    Aligned(w, a, stamp) && (acts != [] ==> AlignedThroughout(cfg, Next(cfg, w, acts[0]), a, stamp, acts[1..]))
  }

  lemma {:induction false} AlignedExactly(cfg: Config, w: World, a: string, stamp: nat, acts: seq<Action>)
    requires Inv(cfg, w) && Runs(cfg, w, acts) && Aligned(w, a, stamp)
    ensures AlignedThroughout(cfg, w, a, stamp, acts) <==> LeftToLoader(cfg, w, a, acts)
    ensures LeftToLoader(cfg, w, a, acts) ==> Aligned(After(cfg, w, acts), a, stamp)
    ensures Inv(cfg, After(cfg, w, acts))
    decreases |acts|
  {
    hide Inv, Aligned, Enabled, Next, LeavesRow;
    if acts == [] {
    } else {
      var w' := Next(cfg, w, acts[0]);
      StepAligned(cfg, w, a, stamp, acts[0]);
      StepKeepsInv(cfg, w, acts[0]);
      if Aligned(w', a, stamp) {
        AlignedExactly(cfg, w', a, stamp, acts[1..]);
      } else {
        RunKeepsInv(cfg, w', acts[1..]);
      }
    }
  }

  // ---------------------------------------------------------------- every rotation lands

  /** The row opens to the credential, and the loader holds it as landed under the stamp. */
  predicate HasLanded(cfg: Config, w: World, a: string, stamp: nat, current: Plain) {
    && RowIsKnown(w, a)
    && cfg.ring.Open(w.rows[a], AccountCredential(a)) == Some(current)
    && w.loader.accounts[a] == Held(w.rows[a], current, current, stamp)
  }

  /** A write under way cannot miss, and when it is reported landed it has. */
  lemma WriteWillLand(cfg: Config, w: World, a: string, stamp: nat)
    requires Inv(cfg, w) && Aligned(w, a, stamp) && w.pc.Writing? && w.pc.call.account == a
    ensures w.pc.call.stamp == stamp
    ensures HandOverEnabled(w, WriteLands) && !HandOverEnabled(w, WriteMisses)
    ensures HasLanded(cfg, HandOverNext(cfg, w, WriteLands), a, stamp, w.pc.call.current)
  {
    hide Publish, Keyring.Open;
  }

  /** A unit's rotation handed over under the stamp is not stale. It is written and lands, whatever is held by then,
      the same rotation unwritten since a failed write included, or the row holds it already. */
  lemma HandedOverLands(cfg: Config, w: World, a: string, stamp: nat, c: Call, nonce: nat)
    requires Inv(cfg, w) && Aligned(w, a, stamp) && w.pc.Idle? && c in w.calls
    requires c.account == a != "" && c.stamp == stamp && c.current != ""
    ensures !Stale(w.loader, a, stamp) && HandOverEnabled(w, BeginHandOver(c, Some(nonce)))
    ensures var begun := HandOverNext(cfg, w, BeginHandOver(c, Some(nonce)));
            if c.current == w.loader.accounts[a].baseline
            then begun == w && cfg.ring.Open(w.rows[a], AccountCredential(a)) == Some(c.current)
            else
              && begun.pc.Writing? && HandOverEnabled(begun, WriteLands) && !HandOverEnabled(begun, WriteMisses)
              && HasLanded(cfg, HandOverNext(cfg, begun, WriteLands), a, stamp, c.current)
  {
    hide Publish, Keyring.Open;
    assert LoaderInvariant.HeldOpens(cfg.ring, w.loader, a);
    if c.current != w.loader.accounts[a].baseline {
      BeginHandOverKeepsInv(cfg, w, c, Some(nonce));
      HandOverStepAligned(cfg, w, a, stamp, BeginHandOver(c, Some(nonce)));
      WriteWillLand(cfg, HandOverNext(cfg, w, BeginHandOver(c, Some(nonce))), a, stamp);
    }
  }

  /** Rotations overlapping under one stamp each land. Over any run, whatever loads, re-reads, re-seals, hand-overs,
      failed writes and other units' work it interleaves, as long as the account's row is left to the loader, the
      stamp does not move, no write of the account misses, and a hand-over naming the stamp lands wherever it comes. */
  lemma OverlappingRotationsLand(cfg: Config, w: World, a: string, stamp: nat, acts: seq<Action>)
    requires Inv(cfg, w) && Runs(cfg, w, acts) && Aligned(w, a, stamp) && a != ""
    requires LeftToLoader(cfg, w, a, acts)
    ensures var w' := After(cfg, w, acts);
            && Aligned(w', a, stamp) && !Stale(w'.loader, a, stamp)
            && (w'.pc.Writing? && w'.pc.call.account == a ==>
                  && HandOverEnabled(w', WriteLands) && !HandOverEnabled(w', WriteMisses)
                  && HasLanded(cfg, HandOverNext(cfg, w', WriteLands), a, stamp, w'.pc.call.current))
            && (w'.pc.Idle? ==>
                  forall c <- w'.calls, nonce: nat | c.account == a && c.stamp == stamp && c.current != "" ::
                    EndsInRow(cfg, w', c, nonce))
  {
    AlignedExactly(cfg, w, a, stamp, acts);
    hide Inv, Aligned, After, Runs, LeftToLoader, HasLanded;
    var w' := After(cfg, w, acts);
    AlignedIsNotStale(w', a, stamp);
    if w'.pc.Writing? && w'.pc.call.account == a {
      WriteWillLand(cfg, w', a, stamp);
    }
    if w'.pc.Idle? {
      forall c <- w'.calls, nonce: nat | c.account == a && c.stamp == stamp && c.current != ""
        ensures EndsInRow(cfg, w', c, nonce)
      {
        CallEndsInRow(cfg, w', a, stamp, c, nonce);
      }
    }
  }

  lemma AlignedIsNotStale(w: World, a: string, stamp: nat)
    requires Aligned(w, a, stamp)
    ensures !Stale(w.loader, a, stamp)
  {
  }

  /** Handed over now and its write reported landed, the call's credential is what the row opens to, under the stamp
      the call names. */
  predicate EndsInRow(cfg: Config, w: World, c: Call, nonce: nat) {
    && HandOverEnabled(w, BeginHandOver(c, Some(nonce)))
    && var begun := HandOverNext(cfg, w, BeginHandOver(c, Some(nonce)));
       if begun.pc.Writing?
       then HandOverEnabled(begun, WriteLands) && !HandOverEnabled(begun, WriteMisses)
            && HasLanded(cfg, HandOverNext(cfg, begun, WriteLands), c.account, c.stamp, c.current)
       else
         && begun == w && c.account in w.rows
         && cfg.ring.Open(w.rows[c.account], AccountCredential(c.account)) == Some(c.current)
  }

  lemma CallEndsInRow(cfg: Config, w: World, a: string, stamp: nat, c: Call, nonce: nat)
    requires Inv(cfg, w) && Aligned(w, a, stamp) && w.pc.Idle? && c in w.calls
    requires c.account == a != "" && c.stamp == stamp && c.current != ""
    ensures EndsInRow(cfg, w, c, nonce)
  {
    HandedOverLands(cfg, w, a, stamp, c, nonce);
    hide Inv, HasLanded, HandOverNext;
  }

  /** A rotation whose write failed is written again. After any run in which the row keeps the known bytes and no
      other rotation is handed over, the rotation is still held, and the next unit that hands it over lands it. */
  lemma UnwrittenRotationLands(cfg: Config, w: World, a: string, rotated: Plain, stamp: nat, acts: seq<Action>, c: Call,
                               nonce: nat)
    requires Inv(cfg, w) && Keeps(w.loader, w.pc, a, rotated, stamp) && Undisturbed(cfg, w, a, rotated, acts)
    requires Runs(cfg, w, acts) && a != "" && rotated != ""
    requires var w' := After(cfg, w, acts);
             && w'.pc.Idle? && c in w'.calls && c == Call(a, stamp, rotated)
             && a in w'.loader.accounts && w'.loader.accounts[a].baseline != rotated
    ensures var begun := HandOverNext(cfg, After(cfg, w, acts), BeginHandOver(c, Some(nonce)));
            && begun.pc.Writing? && HandOverEnabled(begun, WriteLands) && !HandOverEnabled(begun, WriteMisses)
            && HasLanded(cfg, HandOverNext(cfg, begun, WriteLands), a, stamp, rotated)
  {
    RotationSurvives(cfg, w, a, rotated, stamp, acts);
    RunKeepsInv(cfg, w, acts);
    EndsKnown(cfg, w, a, rotated, acts);
    HandedOverLands(cfg, After(cfg, w, acts), a, stamp, c, nonce);
  }

  lemma {:induction false} EndsKnown(cfg: Config, w: World, a: string, rotated: Plain, acts: seq<Action>)
    requires Runs(cfg, w, acts) && Undisturbed(cfg, w, a, rotated, acts)
    ensures RowIsKnown(After(cfg, w, acts), a)
    decreases |acts|
  {
    if acts == [] {
    } else {
      hide RowIsKnown, Spares, Enabled, Next;
      EndsKnown(cfg, Next(cfg, w, acts[0]), a, rotated, acts[1..]);
    }
  }

  // ---------------------------------------------------------------- a write applied and yet reported failed

  /** A write that misses a value which opens ends with the loader adopting that value under a new stamp. */
  lemma MissAdopts(cfg: Config, w: World, p: Plain)
    requires w.pc.Writing? && !RowIsKnown(w, w.pc.call.account) && w.pc.call.account in w.rows
    requires w.pc.call.account in w.loader.accounts
    requires cfg.ring.Open(w.rows[w.pc.call.account], AccountCredential(w.pc.call.account)) == Some(p)
    ensures var a := w.pc.call.account;
            var end := HandOverNext(cfg, HandOverNext(cfg, w, WriteMisses), ReadAfterMiss(true));
            && end.rows == w.rows && a in end.loader.accounts
            && end.loader.accounts[a] == Held(w.rows[a], p, p, w.loader.adoptions + 1)
  {
    hide Publish, Keyring.Open;
  }

  /** The next rotation's write, after one that was applied and reported failed, misses what that one wrote. */
  lemma AppliedFailureMisses(cfg: Config, w: World, c: Call, nonce: nat)
    requires Inv(cfg, w) && w.pc.Writing? && RowIsKnown(w, w.pc.call.account)
    requires w.pc.sealed != w.rows[w.pc.call.account]
    requires c in w.calls && c.account == w.pc.call.account != "" && c.stamp == w.pc.call.stamp
    requires c.current != "" && c.current != w.loader.accounts[c.account].baseline
    ensures var failed := HandOverNext(cfg, w, WriteFails(true));
            var begun := HandOverNext(cfg, failed, BeginHandOver(c, Some(nonce)));
            && begun.pc.Writing? && begun.pc.call == c && !RowIsKnown(begun, c.account)
            && begun.rows == w.rows[c.account := w.pc.sealed] && c.account in begun.loader.accounts
            && begun.loader.adoptions == w.loader.adoptions >= c.stamp
            && cfg.ring.Open(w.pc.sealed, AccountCredential(c.account)) == Some(w.pc.call.current)
  {
    hide Publish, Keyring.Open, Keyring.Seal;
    assert LoaderInvariant.HeldOpens(cfg.ring, w.loader, c.account);
  }

  /** What a write applied and reported failed does to the next rotation. Though nobody else wrote, its write misses,
      the loader adopts its own earlier value under a new stamp, and the rotation is neither in the row nor held. */
  lemma AppliedFailureLosesNextRotation(cfg: Config, w: World, c: Call, nonce: nat)
    requires Inv(cfg, w) && w.pc.Writing? && RowIsKnown(w, w.pc.call.account)
    requires w.pc.sealed != w.rows[w.pc.call.account]
    requires c in w.calls && c.account == w.pc.call.account != "" && c.stamp == w.pc.call.stamp
    requires c.current != "" && c.current != w.loader.accounts[c.account].baseline && c.current != w.pc.call.current
    ensures var failed := HandOverNext(cfg, w, WriteFails(true));
            var begun := HandOverNext(cfg, failed, BeginHandOver(c, Some(nonce)));
            && HandOverEnabled(begun, WriteMisses) && !HandOverEnabled(begun, WriteLands)
            && var end := HandOverNext(cfg, HandOverNext(cfg, begun, WriteMisses), ReadAfterMiss(true));
               && end.rows[c.account] == w.pc.sealed && c.account in end.loader.accounts
               && end.loader.accounts[c.account].plaintext == w.pc.call.current != c.current
               && Stale(end.loader, c.account, c.stamp)
  {
    AppliedFailureMisses(cfg, w, c, nonce);
    hide Inv, Keyring.Open, HandOverNext;
    MissAdopts(cfg, HandOverNext(cfg, HandOverNext(cfg, w, WriteFails(true)), BeginHandOver(c, Some(nonce))),
               w.pc.call.current);
  }
}
