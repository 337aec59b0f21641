/** Change history, netted into change sets, and the replica that follows them
    (provider/fake/fake.go, provider/gmail/model.go, worker/internal/deltasync/tick/tick.go). */
module ChangeHistory {
  import opened Wrappers

  datatype Kind = Added | Modified | Removed

  datatype Change = Change(id: string, kind: Kind)

  datatype ChangeSet = ChangeSet(added: seq<string>, modified: seq<string>, removed: seq<string>)

  // ---------------------------------------------------------------- netting, as it is promised

  predicate Mentioned(h: seq<Change>, id: string) {
    exists c <- h :: c.id == id
  }

  /** The identifiers a history mentions, each once, where it first does. */
  function Order(h: seq<Change>): seq<string> {
    if h == [] then []
    else
      var before, id := Order(h[..|h| - 1]), h[|h| - 1].id;
      if id in before then before else before + [id]
  }

  /** Removed outweighs added, which outweighs modified. */
  function Verdict(h: seq<Change>, id: string): Kind {
    if Change(id, Removed) in h then Removed else if Change(id, Added) in h then Added else Modified
  }

  function Among(ids: seq<string>, h: seq<Change>, kind: Kind): seq<string> {
    if ids == [] then []
    else
      var before, id := Among(ids[..|ids| - 1], h, kind), ids[|ids| - 1];
      if Verdict(h, id) == kind then before + [id] else before
  }

  function Net(h: seq<Change>): ChangeSet {
    ChangeSet(Among(Order(h), h, Added), Among(Order(h), h, Modified), Among(Order(h), h, Removed))
  }

  lemma {:induction false} OrderMentions(h: seq<Change>, id: string)
    ensures id in Order(h) <==> Mentioned(h, id)
    ensures forall i, j :: 0 <= i < j < |Order(h)| ==> Order(h)[i] != Order(h)[j]
  {
    if h == [] {
    } else {
      var init, c := h[..|h| - 1], h[|h| - 1];
      OrderMentions(init, id);
      assert h == init + [c];
      assert forall d :: d in h <==> d in init || d == c;
    }
  }

  // ---------------------------------------------------------------- netting, as it is done

  /** The identifiers noted so far, in order, and the kinds noted of each. */
  class Notes {
    var order: seq<string>
    var kinds: map<string, set<Kind>>
    ghost var noted: seq<Change>

    ghost predicate Valid()
      reads this
    {
      && order == Order(noted)
      && (forall id :: id in kinds <==> id in order)
      && (forall id <- kinds, k :: k in kinds[id] <==> Change(id, k) in noted)
    }

    constructor ()
      ensures Valid() && noted == []
    {
      order, kinds, noted := [], map[], [];
    }

    method Note(id: string, kind: Kind)
      requires Valid()
      modifies this
      ensures Valid() && noted == old(noted) + [Change(id, kind)]
    {
      OrderMentions(noted, id);
      if id !in kinds {
        kinds := kinds[id := {}];
        order := order + [id];
      }
      kinds := kinds[id := kinds[id] + {kind}];
      noted := noted + [Change(id, kind)];
      assert noted[..|noted| - 1] == old(noted);
    }

    method Settle() returns (out: ChangeSet)
      requires Valid()
      ensures out == Net(noted)
    {
      out := ChangeSet([], [], []);
      for i := 0 to |order|
        invariant out.added == Among(order[..i], noted, Added)
        invariant out.modified == Among(order[..i], noted, Modified)
        invariant out.removed == Among(order[..i], noted, Removed)
      {
        assert order[..i + 1][..i] == order[..i];
        var id := order[i];
        if Removed in kinds[id] {
          out := out.(removed := out.removed + [id]);
        } else if Added in kinds[id] {
          out := out.(added := out.added + [id]);
        } else {
          out := out.(modified := out.modified + [id]);
        }
      }
      assert order[..|order|] == order;
    }
  }

  method NetChanges(h: seq<Change>) returns (out: ChangeSet)
    ensures out == Net(h)
  {
    hide Net, Order;
    var notes := new Notes();
    for i := 0 to |h|
      invariant notes.Valid() && fresh(notes) && notes.noted == h[..i]
    {
      notes.Note(h[i].id, h[i].kind);
      assert h[..i + 1] == h[..i] + [h[i]];
    }
    assert h[..|h|] == h;
    out := notes.Settle();
  }

  lemma {:induction false} AmongExactly(ids: seq<string>, h: seq<Change>, kind: Kind, id: string)
    requires forall i, j :: 0 <= i < j < |ids| ==> ids[i] != ids[j]
    ensures id in Among(ids, h, kind) <==> id in ids && Verdict(h, id) == kind
    ensures multiset(Among(ids, h, kind))[id] <= 1
  {
    hide Verdict;
    if ids == [] {
    } else {
      var init, last := ids[..|ids| - 1], ids[|ids| - 1];
      AmongExactly(init, h, kind, id);
      assert ids == init + [last];
      assert last !in init;
    }
  }

  lemma VerdictOutweighs(h: seq<Change>, id: string)
    ensures Change(id, Removed) in h ==> Mentioned(h, id) && Verdict(h, id) == Removed
    ensures Change(id, Added) in h && Change(id, Removed) !in h ==> Mentioned(h, id) && Verdict(h, id) == Added
    ensures Change(id, Modified) in h && Change(id, Added) !in h && Change(id, Removed) !in h ==>
              Mentioned(h, id) && Verdict(h, id) == Modified
  {
  }

  lemma VerdictIsNoted(h: seq<Change>, id: string)
    requires Mentioned(h, id)
    ensures Change(id, Verdict(h, id)) in h
  {
    var c :| c in h && c.id == id;
    match c.kind {
      case Added => assert c == Change(id, Added);
      case Modified => assert c == Change(id, Modified);
      case Removed => assert c == Change(id, Removed);
    }
  }

  /** Each identifier a history mentions is in one list, once, and in no other: what was removed with the
      removed, what was added and not removed with the added, and what was only modified with the modified. */
  lemma NetSorts(h: seq<Change>, id: string)
    ensures var n := Net(h);
            var added, modified, removed :=
              Change(id, Added) in h, Change(id, Modified) in h, Change(id, Removed) in h;
            && (id in n.removed <==> removed)
            && (id in n.added <==> added && !removed)
            && (id in n.modified <==> modified && !added && !removed)
            && multiset(n.added + n.modified + n.removed)[id] == if added || modified || removed then 1 else 0
  {
    if Mentioned(h, id) {
      VerdictIsNoted(h, id);
    }
    VerdictOutweighs(h, id);
    hide Order, Among, Verdict, Mentioned;
    OrderMentions(h, id);
    AmongExactly(Order(h), h, Added, id);
    AmongExactly(Order(h), h, Modified, id);
    AmongExactly(Order(h), h, Removed, id);
    var n := Net(h);
    assert multiset(n.added + n.modified + n.removed) == multiset(n.added) + multiset(n.modified) + multiset(n.removed);
  }

  /** The history mentions a before it mentions b. */
  predicate Earlier(h: seq<Change>, a: string, b: string) {
    exists k :: 0 <= k < |h| && h[k].id == a && forall m | 0 <= m <= k :: h[m].id != b
  }

  predicate InMentionOrder(h: seq<Change>, ids: seq<string>) {
    forall i, j | 0 <= i < j < |ids| :: Earlier(h, ids[i], ids[j])
  }

  lemma EarlierStill(h: seq<Change>, more: seq<Change>, a: string, b: string)
    requires Earlier(h, a, b)
    ensures Earlier(h + more, a, b)
  {
    var k :| 0 <= k < |h| && h[k].id == a && forall m | 0 <= m <= k :: h[m].id != b;
    assert (h + more)[k] == h[k];
  }

  lemma {:induction false} OrderIsMentionOrder(h: seq<Change>)
    ensures InMentionOrder(h, Order(h))
  {
    if h == [] {
    } else {
      var init, c := h[..|h| - 1], h[|h| - 1];
      OrderIsMentionOrder(init);
      assert h == init + [c];
      var before, ids := Order(init), Order(h);
      forall i, j | 0 <= i < j < |ids| ensures Earlier(h, ids[i], ids[j]) {
        OrderMentions(init, ids[i]);
        if j < |before| {
          EarlierStill(init, [c], ids[i], ids[j]);
        } else {
          OrderMentions(init, c.id);
          FirstOf(init, c, ids[i]);
        }
      }
    }
  }

  lemma FirstOf(init: seq<Change>, c: Change, a: string)
    requires Mentioned(init, a) && !Mentioned(init, c.id)
    ensures Earlier(init + [c], a, c.id)
  {
    var d :| d in init && d.id == a;
    var k :| 0 <= k < |init| && init[k] == d;
    var h := init + [c];
    forall m | 0 <= m <= k ensures h[m].id != c.id {
      assert h[m] == init[m] && init[m] in init;
    }
    assert h[k].id == a;
  }

  lemma {:induction false} AmongInOrder(ids: seq<string>, h: seq<Change>, kind: Kind)
    requires InMentionOrder(h, ids)
    ensures InMentionOrder(h, Among(ids, h, kind))
    ensures forall id <- Among(ids, h, kind) :: id in ids
  {
    hide Verdict, Earlier;
    if ids == [] {
    } else {
      var init, last := ids[..|ids| - 1], ids[|ids| - 1];
      AmongInOrder(init, h, kind);
      forall id <- init ensures Earlier(h, id, last) {
        var i :| 0 <= i < |init| && ids[i] == id;
      }
    }
  }

  /** Each list keeps the order the history first mentions its identifiers in. */
  lemma NetInOrder(h: seq<Change>)
    ensures var n := Net(h);
            InMentionOrder(h, n.added) && InMentionOrder(h, n.modified) && InMentionOrder(h, n.removed)
  {
    OrderIsMentionOrder(h);
    AmongInOrder(Order(h), h, Added);
    AmongInOrder(Order(h), h, Modified);
    AmongInOrder(Order(h), h, Removed);
  }

  // ---------------------------------------------------------------- the mailbox a history leaves

  /** The identifiers present after a history, from those present before it. */
  function Present(start: set<string>, h: seq<Change>): set<string> {
    if h == [] then start
    else
      var before, c := Present(start, h[..|h| - 1]), h[|h| - 1];
      match c.kind
      case Added => before + {c.id}
      case Removed => before - {c.id}
      case Modified => before
  }

  /** Nothing is added twice, and only what is present is modified or removed. */
  predicate Legal(start: set<string>, h: seq<Change>) {
    h == [] ||
    (var before, c := Present(start, h[..|h| - 1]), h[|h| - 1];
     Legal(start, h[..|h| - 1]) && (c.kind.Added? <==> c.id !in before))
  }

  /** The identifier was added or removed. */
  predicate Moved(h: seq<Change>, id: string) {
    Change(id, Added) in h || Change(id, Removed) in h
  }

  /** What a stretch of a history says of one identifier's presence at its end. */
  lemma {:induction false} WindowDecides(start: set<string>, h: seq<Change>, a: nat, b: nat, id: string)
    requires a <= b <= |h|
    ensures !Moved(h[a..b], id) ==> (id in Present(start, h[..b]) <==> id in Present(start, h[..a]))
    ensures Moved(h[a..b], id) && Change(id, Removed) !in h[a..b] ==> id in Present(start, h[..b])
    decreases b
  {
    if a == b {
    } else {
      var c := h[b - 1];
      assert h[..b][..b - 1] == h[..b - 1];
      WindowDecides(start, h, a, b - 1, id);
      assert h[a..b] == h[a..b - 1] + [c];
      assert forall d :: d in h[a..b] <==> d in h[a..b - 1] || d == c;
      assert c == Change(c.id, c.kind);
    }
  }

  // ---------------------------------------------------------------- the replica that follows it

  function Ids(s: seq<string>): set<string> {
    set id <- s
  }

  /** Applying a change set: the changed messages the mailbox still has when they are fetched are put in, and the
      removed ones taken out. */
  function Apply(replica: set<string>, cs: ChangeSet, fetched: set<string>): set<string> {
    replica + (Ids(cs.added) + Ids(cs.modified)) * fetched - Ids(cs.removed)
  }

  /** One call: the change set covers h up to `to`, and its messages are fetched when h has reached `at`. */
  datatype Ask = Ask(to: nat, at: nat)

  predicate Asks(asks: seq<Ask>, length: nat) {
    && (forall i | 0 <= i < |asks| :: asks[i].to <= asks[i].at <= length)
    && (forall i | 0 < i < |asks| :: asks[i - 1].to <= asks[i].to)
  }

  function Reached(asks: seq<Ask>): nat {
    if asks == [] then 0 else asks[|asks| - 1].to
  }

  function Follow(start: set<string>, h: seq<Change>, asks: seq<Ask>): set<string>
    requires Asks(asks, |h|)
  {
    if asks == [] then start
    else
      var earlier, ask := asks[..|asks| - 1], asks[|asks| - 1];
      Apply(Follow(start, h, earlier), Net(h[Reached(earlier)..ask.to]), Present(start, h[..ask.at]))
  }

  /** No identifier is delivered again after it was removed. */
  predicate NoneReturns(h: seq<Change>) {
    forall i, j :: 0 <= i < j < |h| && h[i].kind.Removed? && h[j].kind.Added? ==> h[i].id != h[j].id
  }

  lemma {:induction false} GoneStaysGone(start: set<string>, h: seq<Change>, a: nat, b: nat, id: string)
    requires NoneReturns(h) && a <= b <= |h| && Change(id, Removed) in h[..a]
    ensures id !in Present(start, h[..b])
    decreases b
  {
    assert h[..b][..|h[..b]| - 1] == h[..b - 1];
    var i :| 0 <= i < a && h[i] == Change(id, Removed);
    if i >= b - 1 {
    } else {
      GoneStaysGone(start, h, i + 1, b - 1, id);
    }
  }

  lemma RemovedEarlier(h: seq<Change>, a: nat, b: nat, id: string)
    requires a <= b <= |h| && Change(id, Removed) in h[a..b]
    ensures Change(id, Removed) in h[..b]
  {
    var i :| 0 <= i < b - a && h[a..b][i] == Change(id, Removed);
    assert h[..b][a + i] == Change(id, Removed);
  }

  // ---------------------------------------------------------------- identifiers delivered again

  /** The last change set mentioning the identifier says it was removed, and yet the mailbox has it. */
  predicate Lost(start: set<string>, h: seq<Change>, asks: seq<Ask>, id: string)
    requires Asks(asks, |h|)
  {
    asks != [] &&
    (var earlier, ask := asks[..|asks| - 1], asks[|asks| - 1];
     var w := h[Reached(earlier)..ask.to];
     if Mentioned(w, id) then Change(id, Removed) in w && id in Present(start, h[..ask.to])
     else Lost(start, h, earlier, id))
  }

  lemma MovedSplits(h: seq<Change>, a: nat, b: nat, id: string)
    requires a <= b <= |h|
    ensures Moved(h[a..], id) <==> Moved(h[a..b], id) || Moved(h[b..], id)
  {
    assert h[a..] == h[a..b] + h[b..];
  }

  /** One change set, applied when the identifier moves no more: the replica has it then exactly when the mailbox
      does and it is not lost. */
  lemma SetExactly(w: seq<Change>, now: bool, replica: set<string>, fetched: set<string>, lost: bool, id: string)
    requires !Moved(w, id) ==> (id in replica <==> now && !lost)
    requires Moved(w, id) && Change(id, Removed) !in w ==> now
    requires id in fetched <==> now
    ensures id in Apply(replica, Net(w), fetched)
            <==> now && !(if Mentioned(w, id) then Change(id, Removed) in w && now else lost)
  {
    hide Net;
    NetSorts(w, id);
    if Mentioned(w, id) {
      VerdictIsNoted(w, id);
    }
  }

  /** Where an identifier moves no more, the replica holds it exactly when the mailbox does and it is not lost,
      however late the messages were fetched. */
  lemma {:induction false} LostExactly(start: set<string>, h: seq<Change>, asks: seq<Ask>, id: string)
    requires Asks(asks, |h|) && !Moved(h[Reached(asks)..], id)
    ensures id in Follow(start, h, asks) <==> id in Present(start, h[..Reached(asks)]) && !Lost(start, h, asks, id)
  {
    if asks == [] {
      assert h[..0] == [];
    } else {
      hide Net, Present, Apply, Mentioned, Moved;
      var earlier, ask := asks[..|asks| - 1], asks[|asks| - 1];
      var w := h[Reached(earlier)..ask.to];
      MovedSplits(h, Reached(earlier), ask.to, id);
      MovedSplits(h, ask.to, ask.at, id);
      WindowDecides(start, h, Reached(earlier), ask.to, id);
      WindowDecides(start, h, ask.to, ask.at, id);
      if !Moved(w, id) {
        LostExactly(start, h, earlier, id);
      }
      SetExactly(w, id in Present(start, h[..ask.to]), Follow(start, h, earlier), Present(start, h[..ask.at]),
                 Lost(start, h, earlier, id), id);
    }
  }

  /** A replica that has followed the whole history, cut at any cursors and fetched from however late, is in step
      exactly when no identifier's last mention is a set that removed it and delivered it again. */
  lemma InStepExactly(start: set<string>, h: seq<Change>, asks: seq<Ask>)
    requires Asks(asks, |h|) && Reached(asks) == |h|
    ensures Follow(start, h, asks) == Present(start, h)
            <==> forall id <- Present(start, h) :: !Lost(start, h, asks, id)
  {
    hide Follow, Present, Asks, Lost;
    assert h[..|h|] == h;
    forall id ensures id in Follow(start, h, asks) <==> id in Present(start, h) && !Lost(start, h, asks, id) {
      LostExactly(start, h, asks, id);
    }
  }

  lemma {:induction false} NoneLost(start: set<string>, h: seq<Change>, asks: seq<Ask>, id: string)
    requires NoneReturns(h) && Asks(asks, |h|)
    ensures !Lost(start, h, asks, id)
  {
    if asks == [] {
    } else {
      hide NoneReturns, Present;
      var earlier, ask := asks[..|asks| - 1], asks[|asks| - 1];
      NoneLost(start, h, earlier, id);
      if Change(id, Removed) in h[Reached(earlier)..ask.to] {
        RemovedEarlier(h, Reached(earlier), ask.to, id);
        GoneStaysGone(start, h, ask.to, ask.to, id);
      }
    }
  }

  /** It holds exactly the mailbox's identifiers when none is delivered again after removal. */
  lemma FollowerInStep(start: set<string>, h: seq<Change>, asks: seq<Ask>)
    requires NoneReturns(h) && Asks(asks, |h|) && Reached(asks) == |h|
    ensures Follow(start, h, asks) == Present(start, h)
  {
    hide Follow, Present, NoneReturns, Asks, Lost;
    InStepExactly(start, h, asks);
    forall id <- Present(start, h) ensures !Lost(start, h, asks, id) {
      NoneLost(start, h, asks, id);
    }
  }

  /** Removed and delivered again inside one change set, a message is dropped and stays dropped. Cut between the
      two, it is not. */
  lemma RedeliveredIsLost()
    ensures var h := [Change("m", Removed), Change("m", Added)];
            && Legal({"m"}, h)
            && Follow({"m"}, h, [Ask(2, 2)]) != Present({"m"}, h)
            && Follow({"m"}, h, [Ask(1, 1), Ask(2, 2)]) == Present({"m"}, h)
  {
    hide Follow, Net, Verdict;
    var r, d := Change("m", Removed), Change("m", Added);
    var h, whole, halves := [r, d], [Ask(2, 2)], [Ask(1, 1), Ask(2, 2)];
    assert h[..1] == [r] && h[..2] == h && [r][..0] == [];
    assert Present({"m"}, []) == {"m"} && Legal({"m"}, []) && Legal({"m"}, [r]);
    assert Present({"m"}, [r]) == {} && Present({"m"}, h) == {"m"};
    assert whole[..0] == [] && halves[..1] == [Ask(1, 1)];
    assert h[0..2] == h && h[1..2] == [d];
    assert Mentioned([d], "m") by { assert d in [d]; }
    assert Mentioned(h, "m") by { assert d in h; }
    InStepExactly({"m"}, h, whole);
    InStepExactly({"m"}, h, halves);
    assert Lost({"m"}, h, whole, "m");
    assert !Lost({"m"}, h, halves, "m");
  }
}
