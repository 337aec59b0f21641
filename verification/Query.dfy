/** Canonical queries compiled to Gmail's search, and the exact filter over what it lists
    (provider/gmail/query.go, core/mail/query.go). */
module Query {
  import opened Wrappers
  import opened SearchText
  import opened Labels

  datatype Query =
    | NoQuery
    | All
    | After(instant: int)
    | Before(instant: int)
    | InLabel(path: string)
    | From(address: string)
    | And(operands: seq<Query>)

  /** What a port accepts. */
  predicate Valid(q: Query) {
    match q
    case NoQuery => false
    case InLabel(l) => l != ""
    case From(a) => a != ""
    case And(ops) => |ops| >= 2 && forall o <- ops :: Valid(o)
    case _ => true
  }

  /** What compilation accepts: no node that no constructor built. */
  predicate Built(q: Query) {
    match q
    case NoQuery => false
    case And(ops) => forall o <- ops :: Built(o)
    case _ => true
  }

  lemma {:induction false} ValidIsBuilt(q: Query)
    requires Valid(q)
    ensures Built(q)
  {
    if q.And? {
      forall o <- q.operands ensures Built(o) { ValidIsBuilt(o); }
    }
  }

  // ---------------------------------------------------------------- whole seconds

  const SECOND := 1000

  /** The source's division and remainder, which truncate toward zero. */
  function Quotient(a: int, b: int): int
    requires b > 0
  {
    if a >= 0 then a / b else -((-a) / b)
  }

  function Remainder(a: int, b: int): int
    requires b > 0
  {
    a - b * Quotient(a, b)
  }

  function FloorSeconds(t: int): (s: int)
    ensures SECOND * s <= t < SECOND * (s + 1)
  {
    if Remainder(t, SECOND) < 0 then Quotient(t, SECOND) - 1 else Quotient(t, SECOND)
  }

  function CeilSeconds(t: int): (s: int)
    ensures SECOND * (s - 1) < t <= SECOND * s
  {
    if Remainder(t, SECOND) > 0 then Quotient(t, SECOND) + 1 else Quotient(t, SECOND)
  }

  // ---------------------------------------------------------------- the exact filter

  /** Address equality ignoring case is the library's, so it is a parameter. */
  type Same = (string, string) -> bool

  predicate Matches(q: Query, m: Message, same: Same) {
    match q
    case NoQuery => false
    case All => true
    case After(t) => m.date >= t
    case Before(t) => m.date < t
    case InLabel(l) => l in m.labels
    case From(a) => same(m.sender, a)
    case And(ops) => forall o <- ops :: Matches(o, m, same)
  }

  /** The query's nodes that hold no others. */
  function Leaves(q: Query): seq<Query>
    decreases q
  {
    if q.And? then AllLeaves(q.operands) else [q]
  }

  function AllLeaves(ops: seq<Query>): seq<Query>
    decreases ops
  {
    if ops == [] then [] else AllLeaves(ops[..|ops| - 1]) + Leaves(ops[|ops| - 1])
  }

  /** What each kind of node that holds no others selects: the instants from its own on, those before it,
      a label carried, a sender alike, or every message. */
  predicate LeafSelects(q: Query, m: Message, same: Same) {
    && (q.After? ==> q.instant <= m.date) && (q.Before? ==> m.date < q.instant)
    && (q.InLabel? ==> exists k :: 0 <= k < |m.labels| && m.labels[k] == q.path)
    && (q.From? ==> same(m.sender, q.address)) && !q.NoQuery?
  }

  /** However they are nested, a query selects what all the nodes within it select. */
  lemma {:induction false} MatchesLeaves(q: Query, m: Message, same: Same)
    ensures Matches(q, m, same) <==> forall l <- Leaves(q) :: LeafSelects(l, m, same)
    decreases q
  {
    if q.And? {
      OperandsMatchLeaves(q.operands, m, same);
    } else {
      assert Leaves(q) == [q] && q in [q];
    }
  }

  lemma {:induction false} OperandsMatchLeaves(ops: seq<Query>, m: Message, same: Same)
    ensures (forall o <- ops :: Matches(o, m, same)) <==> forall l <- AllLeaves(ops) :: LeafSelects(l, m, same)
    decreases ops
  {
    if ops == [] {
    } else {
      var init, last := ops[..|ops| - 1], ops[|ops| - 1];
      OperandsMatchLeaves(init, m, same);
      MatchesLeaves(last, m, same);
      hide Matches, LeafSelects;
      assert ops == init + [last];
    }
  }

  datatype Thread<M> = Thread(id: string, messages: seq<M>)

  /** The chosen threads are exactly those with a message the query selects, in their order and as often
      as they are given. */
  ghost predicate ChosenExactly(q: Query, threads: seq<Thread<Message>>, same: Same, chosen: seq<Thread<Message>>) {
    exists at: seq<nat> :: Picked(threads, at, chosen) && AtHolding(q, threads, same, at)
  }

  /** The indexes of the threads with a message the query selects. */
  ghost predicate AtHolding(q: Query, threads: seq<Thread<Message>>, same: Same, at: seq<nat>) {
    forall i: nat | i < |threads| :: i in at <==> exists m <- threads[i].messages :: Matches(q, m, same)
  }

  method Selected(q: Query, threads: seq<Thread<Message>>, same: Same) returns (out: seq<Thread<Message>>)
    ensures ChosenExactly(q, threads, same, out)
  {
    hide Matches;
    out := [];
    ghost var at: seq<nat> := [];
    for i := 0 to |threads|
      invariant Picked(threads, at, out)
      invariant forall k | 0 <= k < |at| :: at[k] < i
      invariant forall k: nat | k < i :: k in at <==> exists m <- threads[k].messages :: Matches(q, m, same)
    {
      if exists m <- threads[i].messages :: Matches(q, m, same) {
        PickedMore(threads, at, out, i);
        out := out + [threads[i]];
        at := at + [i];
      }
    }
  }

  // ---------------------------------------------------------------- compilation

  function AllTerms(ops: seq<Query>): seq<Term>
    decreases ops
  {
    if ops == [] then [] else AllTerms(ops[..|ops| - 1]) + Terms(ops[|ops| - 1])
  }

  function Terms(q: Query): seq<Term>
    decreases q
  {
    match q
    case After(t) => [AfterSecond(FloorSeconds(t) - 1)]
    case Before(t) => [BeforeSecond(CeilSeconds(t) + 1)]
    case From(a) => if Quotable(a) then [FromAddress(a)] else []
    case And(ops) => AllTerms(ops)
    case _ => []
  }

  function AllPaths(ops: seq<Query>): seq<string>
    decreases ops
  {
    if ops == [] then [] else AllPaths(ops[..|ops| - 1]) + Paths(ops[|ops| - 1])
  }

  /** The label paths a query names, in order. */
  function Paths(q: Query): seq<string>
    decreases q
  {
    match q
    case InLabel(l) => [l]
    case And(ops) => AllPaths(ops)
    case _ => []
  }

  /** The identifiers of the paths the account has, each once, after those already there. */
  function Resolve(ids: seq<string>, paths: seq<string>, t: Table): seq<string> {
    if paths == [] then ids
    else
      var before, p := Resolve(ids, paths[..|paths| - 1], t), paths[|paths| - 1];
      if p !in t.idByPath || t.idByPath[p] in before then before else before + [t.idByPath[p]]
  }

  lemma ResolveMore(ids: seq<string>, paths: seq<string>, t: Table)
    requires paths != []
    ensures var before, p := Resolve(ids, paths[..|paths| - 1], t), paths[|paths| - 1];
            Resolve(ids, paths, t)
            == if p !in t.idByPath || t.idByPath[p] in before then before else before + [t.idByPath[p]]
  {
  }

  lemma {:induction false} ResolveAppends(ids: seq<string>, a: seq<string>, b: seq<string>, t: Table)
    ensures Resolve(Resolve(ids, a, t), b, t) == Resolve(ids, a + b, t)
    decreases |b|
  {
    if b == [] {
      assert a + b == a;
    } else {
      ResolveAppends(ids, a, b[..|b| - 1], t);
      ResolveMore(Resolve(ids, a, t), b, t);
      ResolveMore(ids, a + b, t);
      hide Resolve;
      assert (a + b)[..|a + b| - 1] == a + b[..|b| - 1] && (a + b)[|a + b| - 1] == b[|b| - 1];
    }
  }

  lemma {:induction false} ResolveHolds(paths: seq<string>, t: Table, id: string)
    ensures id in Resolve([], paths, t) <==> exists p <- paths :: p in t.idByPath && t.idByPath[p] == id
  {
    if paths == [] {
    } else {
      var init, p := paths[..|paths| - 1], paths[|paths| - 1];
      ResolveHolds(init, t, id);
      assert paths == init + [p];
      assert forall k :: k in paths <==> k in init || k == p;
    }
  }

  lemma {:induction false} ResolvesOnce(paths: seq<string>, t: Table)
    ensures Distinct(Resolve([], paths, t))
  {
    if paths == [] {
    } else {
      ResolvesOnce(paths[..|paths| - 1], t);
    }
  }

  lemma RenderAppends(a: seq<Term>, b: seq<Term>)
    ensures RenderAll(a) + RenderAll(b) == RenderAll(a + b)
  {
  }

  lemma Nothing(t: Table)
    ensures RenderAll([]) == [] && forall ids :: Resolve(ids, [], t) == ids
  {
  }

  /** The search under compilation. */
  class Search {
    var words: seq<string>
    var labelIds: seq<string>
    var none: bool

    constructor ()
      ensures words == [] && labelIds == [] && !none
    {
      words, labelIds, none := [], [], false;
    }

    method CompileNode(q: Query, t: Table) returns (ok: bool)
      modifies this
      ensures ok <==> Built(q)
      ensures ok ==> words == old(words) + RenderAll(Terms(q))
      ensures ok ==> labelIds == Resolve(old(labelIds), Paths(q), t)
      ensures ok ==> (none <==> old(none) || exists p <- Paths(q) :: p !in t.idByPath)
      decreases q
    {
      ok := true;
      match q {
        case All => assert words == words + RenderAll([]);
        case After(at) => words := words + ["after:" + FormatInt(FloorSeconds(at) - 1)];
        case Before(at) => words := words + ["before:" + FormatInt(CeilSeconds(at) + 1)];
        case InLabel(l) =>
          assert [l][..0] == [];
          assert l in Paths(q);
          if l !in t.idByPath {
            none := true;
          } else if t.idByPath[l] !in labelIds {
            labelIds := labelIds + [t.idByPath[l]];
          }
        case From(a) =>
          if Quotable(a) {
            words := words + ["from:\"" + a + "\""];
          }
        case And(ops) => ok := CompileOperands(ops, t);
        case NoQuery => ok := false;
      }
    }

    method CompileOperands(ops: seq<Query>, t: Table) returns (ok: bool)
      modifies this
      ensures ok <==> forall o <- ops :: Built(o)
      ensures ok ==> words == old(words) + RenderAll(AllTerms(ops))
      ensures ok ==> labelIds == Resolve(old(labelIds), AllPaths(ops), t)
      ensures ok ==> (none <==> old(none) || exists p <- AllPaths(ops) :: p !in t.idByPath)
      decreases ops
    {
      hide Built, RenderAll, Resolve, Terms, Paths;
      Nothing(t);
      for i := 0 to |ops|
        invariant forall k :: 0 <= k < i ==> Built(ops[k])
        invariant words == old(words) + RenderAll(AllTerms(ops[..i]))
        invariant labelIds == Resolve(old(labelIds), AllPaths(ops[..i]), t)
        invariant none <==> old(none) || exists p <- AllPaths(ops[..i]) :: p !in t.idByPath
      {
        var done := CompileNode(ops[i], t);
        if !done {
          assert ops[i] in ops;
          return false;
        }
        assert ops[..i + 1][..i] == ops[..i];
        ResolveAppends(old(labelIds), AllPaths(ops[..i]), Paths(ops[i]), t);
        RenderAppends(AllTerms(ops[..i]), Terms(ops[i]));
      }
      assert ops[..|ops|] == ops;
      ok := true;
    }
  }

  datatype Compiled = Compiled(text: string, labelIds: seq<string>, none: bool)

  function CompiledOf(q: Query, t: Table): Compiled {
    Compiled(Join(RenderAll(Terms(q)), " "), Resolve([], Paths(q), t), exists p <- Paths(q) :: p !in t.idByPath)
  }

  method CompileQuery(q: Query, t: Table) returns (r: Option<Compiled>)
    ensures r == if Built(q) then Some(CompiledOf(q, t)) else None
  {
    var s := new Search();
    var ok := s.CompileNode(q, t);
    if !ok {
      return None;
    }
    assert s.words == RenderAll(Terms(q));
    r := Some(Compiled(Join(s.words, " "), s.labelIds, s.none));
  }

  // ---------------------------------------------------------------- what Gmail promises of its search

  type Engine = (Term, RawMessage) -> bool

  /** All that is relied on: a date bound accepts every message dated clear of it by its own second, whichever
      way the date is rounded and whether or not the bound itself is accepted, and a sender term accepts every
      message from an address equal to it ignoring case. */
  ghost predicate Dependable(accepts: Engine, same: Same) {
    && (forall n: int, m: RawMessage :: FloorSeconds(m.date) > n ==> accepts(AfterSecond(n), m))
    && (forall n: int, m: RawMessage :: CeilSeconds(m.date) < n ==> accepts(BeforeSecond(n), m))
    && (forall a: string, m: RawMessage :: same(m.sender, a) ==> accepts(FromAddress(a), m))
  }

  /** Gmail lists a message for a search when the text means terms that all accept it and the message carries
      every label identifier. */
  predicate Lists(c: Compiled, m: RawMessage, accepts: Engine) {
    && !c.none
    && (forall id <- c.labelIds :: id in m.labelIds)
    && ReadTerms(c.text).Some?
    && (forall t <- ReadTerms(c.text).value :: accepts(t, m))
  }

  /** Bounds inclusive or exclusive, over whole seconds. */
  function Bounded(inclusive: bool, same: Same): Engine {
    (t: Term, m: RawMessage) =>
      match t
      case AfterSecond(n) => FloorSeconds(m.date) > n || (inclusive && FloorSeconds(m.date) == n)
      case BeforeSecond(n) => FloorSeconds(m.date) < n || (inclusive && FloorSeconds(m.date) == n)
      case FromAddress(a) => same(m.sender, a)
  }

  lemma EitherBoundIsDependable(inclusive: bool, same: Same)
    ensures Dependable(Bounded(inclusive, same), same)
  {
    forall n: int, m: RawMessage | CeilSeconds(m.date) < n
      ensures Bounded(inclusive, same)(BeforeSecond(n), m)
    {
      assert FloorSeconds(m.date) <= CeilSeconds(m.date);
    }
  }

  /** No closer bound would do: a bound is safe for an exclusive engine exactly when it leaves the margin
      the compiled bound leaves. */
  lemma MarginIsExact(instant: int, n: int)
    ensures n <= FloorSeconds(instant) - 1 <==> forall date: int :: date >= instant ==> FloorSeconds(date) > n
  {
    assert instant >= instant && FloorSeconds(instant) >= FloorSeconds(instant);
    if n <= FloorSeconds(instant) - 1 {
      forall date: int | date >= instant ensures FloorSeconds(date) > n {
        assert FloorSeconds(date) >= FloorSeconds(instant);
      }
    }
  }

  // ---------------------------------------------------------------- nothing selected is missed

  lemma {:induction false} OperandTermsAccept(ops: seq<Query>, m: Message, raw: RawMessage, accepts: Engine,
                                             same: Same)
    requires Dependable(accepts, same) && m.date == raw.date && m.sender == raw.sender
    requires forall o <- ops :: Matches(o, m, same)
    ensures forall t <- AllTerms(ops) :: accepts(t, raw)
    decreases ops
  {
    if ops == [] {
    } else {
      OperandTermsAccept(ops[..|ops| - 1], m, raw, accepts, same);
      assert ops[|ops| - 1] in ops;
      TermsAccept(ops[|ops| - 1], m, raw, accepts, same);
    }
  }

  lemma {:induction false} TermsAccept(q: Query, m: Message, raw: RawMessage, accepts: Engine, same: Same)
    requires Dependable(accepts, same) && m.date == raw.date && m.sender == raw.sender
    requires Matches(q, m, same)
    ensures forall t <- Terms(q) :: accepts(t, raw)
    decreases q
  {
    match q {
      case After(at) => assert FloorSeconds(m.date) >= FloorSeconds(at);
      case Before(at) => assert CeilSeconds(m.date) <= CeilSeconds(at);
      case And(ops) => OperandTermsAccept(ops, m, raw, accepts, same);
      case _ =>
    }
  }

  lemma {:induction false} OperandPathsCarried(ops: seq<Query>, m: Message, same: Same)
    requires forall o <- ops :: Matches(o, m, same)
    ensures forall p <- AllPaths(ops) :: p in m.labels
    decreases ops
  {
    if ops == [] {
    } else {
      OperandPathsCarried(ops[..|ops| - 1], m, same);
      assert ops[|ops| - 1] in ops;
      PathsCarried(ops[|ops| - 1], m, same);
    }
  }

  lemma {:induction false} PathsCarried(q: Query, m: Message, same: Same)
    requires Matches(q, m, same)
    ensures forall p <- Paths(q) :: p in m.labels
    decreases q
  {
    if q.And? {
      OperandPathsCarried(q.operands, m, same);
    }
  }

  lemma {:induction false} OperandTermsQuotable(ops: seq<Query>)
    ensures forall t <- AllTerms(ops) :: t.FromAddress? ==> Quotable(t.address)
    decreases ops
  {
    if ops == [] {
    } else {
      OperandTermsQuotable(ops[..|ops| - 1]);
      TermsQuotable(ops[|ops| - 1]);
    }
  }

  lemma {:induction false} TermsQuotable(q: Query)
    ensures forall t <- Terms(q) :: t.FromAddress? ==> Quotable(t.address)
    decreases q
  {
    if q.And? {
      OperandTermsQuotable(q.operands);
    }
  }

  /** Every message the exact filter selects is one Gmail lists for the compiled search. */
  lemma SelectedIsListed(q: Query, labels: seq<Label>, raw: RawMessage, accepts: Engine, same: Same)
    requires Inverse(TableOf(labels)) && Dependable(accepts, same)
    requires Matches(q, MetadataOf(TableOf(labels), raw), same)
    ensures Lists(CompiledOf(q, TableOf(labels)), raw, accepts)
  {
    hide TableOf, Terms, Paths, ReadTerms, Resolve, Matches, RenderAll, Dependable;
    var t := TableOf(labels);
    var m, c := MetadataOf(t, raw), CompiledOf(q, t);
    TermsAccept(q, m, raw, accepts, same);
    PathsCarried(q, m, same);
    TermsQuotable(q);
    TextMeansItsTerms(Terms(q));
    forall p <- Paths(q)
      ensures p in t.idByPath && t.idByPath[p] in raw.labelIds
    {
      TableKeeps(labels);
      ShownExactly(t, raw.labelIds, p);
    }
    forall id <- c.labelIds
      ensures id in raw.labelIds
    {
      ResolveHolds(Paths(q), t, id);
    }
  }

  /** A label whose path leads to another identifier: its messages match the path and are not listed for it. */
  lemma MissedUnderSharedPath(labels: seq<Label>, id: string, accepts: Engine, same: Same)
    requires var t := TableOf(labels);
             && id in t.pathByID && id != UNREAD && id != STARRED
             && !(t.pathByID[id] in t.idByPath && t.idByPath[t.pathByID[id]] == id)
    ensures var t := TableOf(labels);
            var q, raw := InLabel(t.pathByID[id]), RawMessage("m", 0, "", [id]);
            Valid(q) && Matches(q, MetadataOf(t, raw), same) && !Lists(CompiledOf(q, t), raw, accepts)
  {
    var t := TableOf(labels);
    var p := t.pathByID[id];
    TableKeeps(labels);
    ShownExactly(t, [id], p);
    assert id in [id];
    ResolveHolds([p], t, t.idByPath[p]);
    assert p in [p];
    assert t.idByPath[p] !in [id];
  }

  /** The search misses nothing, for any query, message and dependable engine, exactly when the label maps
      invert each other. */
  lemma MissesNothingExactly(labels: seq<Label>, same: Same)
    ensures Inverse(TableOf(labels)) <==>
            forall q, raw, accepts: Engine ::
              Dependable(accepts, same) && Valid(q) && Matches(q, MetadataOf(TableOf(labels), raw), same)
              ==> Lists(CompiledOf(q, TableOf(labels)), raw, accepts)
  {
    var t := TableOf(labels);
    if Inverse(t) {
      forall q, raw, accepts: Engine | Dependable(accepts, same) && Valid(q) && Matches(q, MetadataOf(t, raw), same)
        ensures Lists(CompiledOf(q, t), raw, accepts)
      {
        SelectedIsListed(q, labels, raw, accepts, same);
      }
    } else {
      var id :| id in t.pathByID && id != UNREAD && id != STARRED
                && !(t.pathByID[id] in t.idByPath && t.idByPath[t.pathByID[id]] == id);
      var accepts := Bounded(true, same);
      EitherBoundIsDependable(true, same);
      MissedUnderSharedPath(labels, id, accepts, same);
    }
  }

  /** Such a table exists: a user's label may be named as a system label is. */
  lemma UserLabelNamedInbox()
    ensures !Inverse(TableOf([Label("INBOX", "INBOX", false), Label("Label_1", "INBOX", true)]))
  {
    var system, own := Label("INBOX", "INBOX", false), Label("Label_1", "INBOX", true);
    var both := [system, own];
    assert system.id in SHOWN by { assert SHOWN[0] == "INBOX"; }
    assert both[..1] == [system] && [system][..0] == [];
    assert TableOf([]) == Table(map[], map[], {});
    assert Path(system) == "INBOX" && Path(own) == "INBOX" && "INBOX" != "";
    assert TableOf([system]) == Table(map["INBOX" := "INBOX"], map["INBOX" := "INBOX"], {});
    var t := TableOf(both);
    assert t.pathByID == map["INBOX" := "INBOX", "Label_1" := "INBOX"];
    assert t.idByPath == map["INBOX" := "Label_1"];
    assert "INBOX" in t.pathByID && "INBOX" != UNREAD && "INBOX" != STARRED by {
      assert UNREAD[0] == 'U' && STARRED[0] == 'S';
    }
    assert "Label_1"[0] == 'L';
  }

  // ---------------------------------------------------------------- little more than the selection is listed

  /** The query with date bounds three seconds wider and without the senders that cannot be written. */
  function Relaxed(q: Query): Query {
    match q
    case After(t) => After(t - 3 * SECOND)
    case Before(t) => Before(t + 3 * SECOND)
    case From(a) => if Quotable(a) then q else All
    case And(ops) => And(seq(|ops|, i requires 0 <= i < |ops| => Relaxed(ops[i])))
    case _ => q
  }

  /** Compiling a path and reading the label it leads to give the path back. */
  predicate PathsReadBack(t: Table) {
    forall p <- t.idByPath ::
      var id := t.idByPath[p];
      id != UNREAD && id != STARRED && id in t.pathByID && t.pathByID[id] == p
  }

  lemma {:induction false} AcceptedOperandsAreNear(ops: seq<Query>, t: Table, raw: RawMessage, inclusive: bool,
                                                  same: Same)
    requires (forall o <- ops :: Built(o)) && PathsReadBack(t)
    requires forall u <- AllTerms(ops) :: Bounded(inclusive, same)(u, raw)
    requires forall p <- AllPaths(ops) :: p in t.idByPath && t.idByPath[p] in raw.labelIds
    ensures forall i | 0 <= i < |ops| :: Matches(Relaxed(ops[i]), MetadataOf(t, raw), same)
    decreases ops
  {
    if ops == [] {
    } else {
      hide Relaxed, Matches, MetadataOf, Terms, Paths, PathsReadBack, Built;
      AcceptedOperandsAreNear(ops[..|ops| - 1], t, raw, inclusive, same);
      AcceptedIsNear(ops[|ops| - 1], t, raw, inclusive, same);
      forall i | 0 <= i < |ops| ensures Matches(Relaxed(ops[i]), MetadataOf(t, raw), same) {
        assert i < |ops| - 1 ==> ops[..|ops| - 1][i] == ops[i];
      }
    }
  }

  lemma {:induction false} AcceptedIsNear(q: Query, t: Table, raw: RawMessage, inclusive: bool, same: Same)
    requires Built(q) && PathsReadBack(t)
    requires forall u <- Terms(q) :: Bounded(inclusive, same)(u, raw)
    requires forall p <- Paths(q) :: p in t.idByPath && t.idByPath[p] in raw.labelIds
    ensures Matches(Relaxed(q), MetadataOf(t, raw), same)
    decreases q
  {
    match q {
      case After(at) =>
        assert AfterSecond(FloorSeconds(at) - 1) in Terms(q);
        assert FloorSeconds(raw.date) >= FloorSeconds(at) - 1;
      case Before(at) =>
        assert BeforeSecond(CeilSeconds(at) + 1) in Terms(q);
        assert FloorSeconds(raw.date) <= CeilSeconds(at) + 1;
      case InLabel(p) =>
        assert p in Paths(q);
        ShownExactly(t, raw.labelIds, p);
      case From(a) =>
        if Quotable(a) {
          assert FromAddress(a) in Terms(q);
        }
      case And(ops) => AcceptedOperandsAreNear(ops, t, raw, inclusive, same);
      case _ =>
    }
  }

  /** Whatever the search lists matches the relaxed query, whether or not the bounds are inclusive. */
  lemma ListedIsNear(q: Query, t: Table, raw: RawMessage, inclusive: bool, same: Same)
    requires Built(q) && PathsReadBack(t)
    requires Lists(CompiledOf(q, t), raw, Bounded(inclusive, same))
    ensures Matches(Relaxed(q), MetadataOf(t, raw), same)
  {
    hide Relaxed, Matches, MetadataOf, Terms, Paths, ReadTerms, Resolve, Bounded;
    TermsQuotable(q);
    TextMeansItsTerms(Terms(q));
    forall p <- Paths(q)
      ensures p in t.idByPath && t.idByPath[p] in raw.labelIds
    {
      ResolveHolds(Paths(q), t, t.idByPath[p]);
    }
    AcceptedIsNear(q, t, raw, inclusive, same);
  }

  // ---------------------------------------------------------------- the listing filtered

  function Read(t: Table, th: Thread<RawMessage>): Thread<Message> {
    Thread(th.id, seq(|th.messages|, i requires 0 <= i < |th.messages| => MetadataOf(t, th.messages[i])))
  }

  function ReadAll(t: Table, threads: seq<Thread<RawMessage>>): seq<Thread<Message>> {
    seq(|threads|, i requires 0 <= i < |threads| => Read(t, threads[i]))
  }

  lemma HeldIsListed(q: Query, labels: seq<Label>, th: Thread<RawMessage>, accepts: Engine, same: Same)
    requires Inverse(TableOf(labels)) && Dependable(accepts, same)
    requires exists m <- Read(TableOf(labels), th).messages :: Matches(q, m, same)
    ensures exists m <- th.messages :: Lists(CompiledOf(q, TableOf(labels)), m, accepts)
  {
    hide Dependable, Inverse, TableOf, Lists, CompiledOf, Matches, MetadataOf;
    var t := TableOf(labels);
    var m :| m in Read(t, th).messages && Matches(q, m, same);
    var i :| 0 <= i < |th.messages| && Read(t, th).messages[i] == m;
    SelectedIsListed(q, labels, th.messages[i], accepts, same);
    assert th.messages[i] in th.messages;
  }

  /** Whatever part of the mailbox Gmail listed, in the mailbox's order, filtering it gives exactly the
      mailbox's threads with a selected message, so long as the listing holds every thread with a message
      the search lists. */
  lemma FilteredListingIsExact(q: Query, labels: seq<Label>, mailbox: seq<Thread<RawMessage>>, listed: seq<nat>,
                               listing: seq<Thread<RawMessage>>, accepts: Engine, same: Same,
                               out: seq<Thread<Message>>)
    requires Inverse(TableOf(labels)) && Dependable(accepts, same) && Picked(mailbox, listed, listing)
    requires forall i: nat, m ::
               i < |mailbox| && m in mailbox[i].messages && Lists(CompiledOf(q, TableOf(labels)), m, accepts)
               ==> i in listed
    requires ChosenExactly(q, ReadAll(TableOf(labels), listing), same, out)
    ensures ChosenExactly(q, ReadAll(TableOf(labels), mailbox), same, out)
  {
    hide Dependable, Inverse, TableOf, Lists, CompiledOf, Matches, MetadataOf, Read;
    var t := TableOf(labels);
    var all, some := ReadAll(t, mailbox), ReadAll(t, listing);
    assert Picked(all, listed, some);
    forall i: nat | i < |all| && exists m <- all[i].messages :: Matches(q, m, same) ensures i in listed {
      HeldIsListed(q, labels, mailbox[i], accepts, same);
    }
    ChosenFromPart(q, all, listed, some, same, out);
  }

  predicate HasSelected(q: Query, same: Same, th: Thread<Message>) {
    exists m <- th.messages :: Matches(q, m, same)
  }

  lemma HoldingSelected(q: Query, threads: seq<Thread<Message>>, same: Same, at: seq<nat>)
    ensures AtHolding(q, threads, same, at)
            <==> forall i: nat | i < |threads| :: i in at <==> HasSelected(q, same, threads[i])
  {
    hide Matches;
    forall th ensures HasSelected(q, same, th) <==> exists m <- th.messages :: Matches(q, m, same) { }
  }

  lemma ChosenFromPart(q: Query, all: seq<Thread<Message>>, listed: seq<nat>, some: seq<Thread<Message>>, same: Same,
                       out: seq<Thread<Message>>)
    requires Picked(all, listed, some) && ChosenExactly(q, some, same, out)
    requires forall i: nat | i < |all| :: (exists m <- all[i].messages :: Matches(q, m, same)) ==> i in listed
    ensures ChosenExactly(q, all, same, out)
  {
    var inner: seq<nat> :| Picked(some, inner, out) && AtHolding(q, some, same, inner);
    HoldingSelected(q, some, same, inner);
    forall i: nat | i < |all| && HasSelected(q, same, all[i]) ensures i in listed {
      assert exists m <- all[i].messages :: Matches(q, m, same);
    }
    PickedThrough(all, listed, some, inner, out);
    var at := Through(listed, inner);
    HoldingSelected(q, all, same, at);
    hide Matches, HasSelected, AtHolding;
    ThroughExactly(listed, inner, set i: nat | i < |all| && HasSelected(q, same, all[i]));
    assert AtHolding(q, all, same, at);
  }

  /** When the search is none, no listing is sent and nothing would have been selected. */
  lemma NoneSelectsNothing(q: Query, labels: seq<Label>, raw: RawMessage, same: Same)
    requires CompiledOf(q, TableOf(labels)).none
    ensures !Matches(q, MetadataOf(TableOf(labels), raw), same)
  {
    var t := TableOf(labels);
    if Matches(q, MetadataOf(t, raw), same) {
      PathsCarried(q, MetadataOf(t, raw), same);
      var p :| p in Paths(q) && p !in t.idByPath;
      ShownExactly(t, raw.labelIds, p);
      TableKeeps(labels);
      assert false;
    }
  }
}
