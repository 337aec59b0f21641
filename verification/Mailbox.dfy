/** The in-memory mailbox (provider/fake/fake.go). */
module Mailbox {
  import opened Wrappers
  import opened ChangeHistory
  import opened Paging

  const INBOX := "INBOX"
  const TRASH := "TRASH"
  const SPAM := "SPAM"

  datatype Meta = Meta(id: string, thread: string, labels: seq<string>, read: bool, starred: bool)

  datatype Stored = Stored(number: nat, meta: Meta)

  datatype Verb = Relabel | Archive | Trash | Spam | MarkRead | Star | OtherVerb

  /** Relabel stands for the label, unlabel and move verbs, which the mailbox treats alike. */
  datatype Op = Op(id: string, verb: Verb, add: string, remove: string)

  function Without(labels: seq<string>, remove: string): seq<string> {
    if labels == [] then []
    else
      var before, last := Without(labels[..|labels| - 1], remove), labels[|labels| - 1];
      if last == remove then before else before + [last]
  }

  function Relabelled(labels: seq<string>, add: string, remove: string): seq<string> {
    var kept := Without(labels, remove);
    if add != "" && add !in kept then kept + [add] else kept
  }

  function Mutated(m: Meta, op: Op): Meta {
    match op.verb
    case Relabel => m.(labels := Relabelled(m.labels, op.add, op.remove))
    case Archive => m.(labels := Relabelled(m.labels, "", INBOX))
    case Trash => m.(labels := Relabelled(m.labels, TRASH, INBOX))
    case Spam => m.(labels := Relabelled(m.labels, SPAM, INBOX))
    case MarkRead => m.(read := true)
    case Star => m.(starred := true)
    case OtherVerb => m
  }

  lemma {:induction false} WithoutExactly(labels: seq<string>, remove: string, l: string)
    ensures l in Without(labels, remove) <==> l in labels && l != remove
  {
    if labels == [] {
    } else {
      WithoutExactly(labels[..|labels| - 1], remove, l);
      assert labels == labels[..|labels| - 1] + [labels[|labels| - 1]];
    }
  }

  /** A label added is carried, one removed is not unless it is the one added, and the others stay. */
  lemma {:induction false} RelabelledExactly(labels: seq<string>, add: string, remove: string, l: string)
    ensures l in Relabelled(labels, add, remove) <==> (l in labels && l != remove) || (l == add && add != "")
  {
    WithoutExactly(labels, remove, l);
    WithoutExactly(labels, remove, add);
  }

  /** These are the labels other than the one removed, in their order. */
  ghost predicate KeptInOrder(labels: seq<string>, remove: string, at: seq<nat>, kept: seq<string>) {
    Picked(labels, at, kept) && forall i: nat | i < |labels| :: i in at <==> labels[i] != remove
  }

  lemma KeptMore(labels: seq<string>, remove: string, at: seq<nat>, kept: seq<string>)
    requires labels != [] && KeptInOrder(labels[..|labels| - 1], remove, at, kept)
    ensures var n := |labels| - 1;
            if labels[n] == remove then KeptInOrder(labels, remove, at, kept)
            else KeptInOrder(labels, remove, at + [n], kept + [labels[n]])
  {
    var n := |labels| - 1;
    assert forall i | 0 <= i < n :: labels[..n][i] == labels[i];
    assert n !in at;
    if labels[n] != remove {
      var more: seq<nat> := at + [n];
      assert forall i :: i in more <==> i in at || i == n;
    }
  }

  lemma {:induction false} WithoutInOrder(labels: seq<string>, remove: string) returns (at: seq<nat>)
    ensures KeptInOrder(labels, remove, at, Without(labels, remove))
    decreases |labels|
  {
    if labels == [] {
      at := [];
    } else {
      var n := |labels| - 1;
      at := WithoutInOrder(labels[..n], remove);
      KeptMore(labels, remove, at, Without(labels[..n], remove));
      hide KeptInOrder;
      at := if labels[n] == remove then at else at + [n];
    }
  }

  /** The labels kept stay in order, and one added that is not among them comes last. */
  lemma RelabelledInOrder(labels: seq<string>, add: string, remove: string) returns (at: seq<nat>)
    ensures var out := Relabelled(labels, add, remove);
            var adds := add != "" && (add !in labels || add == remove);
            && |out| == |at| + (if adds then 1 else 0)
            && KeptInOrder(labels, remove, at, out[..|at|])
            && (adds ==> out[|at|] == add)
  {
    at := WithoutInOrder(labels, remove);
    WithoutExactly(labels, remove, add);
    var kept, out := Without(labels, remove), Relabelled(labels, add, remove);
    assert |kept| == |at|;
    hide KeptInOrder, Without;
    assert out[..|at|] == kept;
  }

  /** Each verb moves a message between the inbox, the trash and spam, or between the labels it names, or
      marks it, and leaves all else as it was. */
  lemma VerbsMove(m: Meta, op: Op, l: string)
    ensures var out := Mutated(m, op);
            && out.id == m.id && out.thread == m.thread
            && (out.read <==> m.read || op.verb == MarkRead)
            && (out.starred <==> m.starred || op.verb == Star)
            && (match op.verb
                case Relabel => l in out.labels <==> (l in m.labels && l != op.remove) || (l == op.add && op.add != "")
                case Archive => l in out.labels <==> l in m.labels && l != "INBOX"
                case Trash => l in out.labels <==> (l in m.labels && l != "INBOX") || l == "TRASH"
                case Spam => l in out.labels <==> (l in m.labels && l != "INBOX") || l == "SPAM"
                case _ => out.labels == m.labels)
  {
    RelabelledExactly(m.labels, "", INBOX, l);
    RelabelledExactly(m.labels, TRASH, INBOX, l);
    RelabelledExactly(m.labels, SPAM, INBOX, l);
    RelabelledExactly(m.labels, op.add, op.remove, l);
    assert TRASH != "" && SPAM != "" && TRASH != INBOX && SPAM != INBOX;
    hide Relabelled;
  }

  // ---------------------------------------------------------------- what is held

  /** What is held, under which numbers, and the last number issued. */
  datatype Box = Box(byID: map<string, Stored>, last: nat)
  {
    /** Numbers are never shared or above the last issued, and every message is held under its own identifier. */
    ghost predicate Sound() {
      && (forall id <- byID :: byID[id].meta.id == id && 0 < byID[id].number <= last)
      && (forall a, b :: a in byID && b in byID && a != b ==> byID[a].number != byID[b].number)
    }

    function Numbers(): set<nat> {
      set id <- byID :: byID[id].number
    }
  }

  datatype Edit = Delivered(meta: Meta) | Dropped(id: string) | Changed(meta: Meta)

  /** A message comes under the next number, goes, or is changed where it is. */
  function Edited(b: Box, e: Edit): Box {
    match e
    case Delivered(m) => if m.id in b.byID then b else Box(b.byID[m.id := Stored(b.last + 1, m)], b.last + 1)
    case Dropped(id) => Box(b.byID - {id}, b.last)
    case Changed(m) => if m.id in b.byID then Box(b.byID[m.id := b.byID[m.id].(meta := m)], b.last) else b
  }

  /** A page's messages are the stored ones of its numbers. */
  predicate Shows(b: Box, items: seq<Meta>, page: Page) {
    && |items| == |page.items|
    && forall i | 0 <= i < |items| :: items[i].id in b.byID && b.byID[items[i].id] == Stored(page.items[i], items[i])
  }

  datatype Outcome = Done | Unnamed | Threadless | AlreadyHeld | NotHeld | NoSuchLabel | BadVerb

  predicate Numbered(s: seq<Stored>) {
    forall i, j :: 0 <= i < j < |s| ==> s[i].number < s[j].number
  }

  /** A run of the ordered messages from the first that start admits, cut where the page is full, is a page. */
  lemma TakenPage(all: seq<Stored>, numbers: set<nat>, first: nat, end: nat, start: nat, size: nat, p: Page)
    requires Numbered(all) && forall n :: n in numbers <==> exists s <- all :: s.number == n
    requires first <= end <= |all| && |p.items| == end - first <= size
    requires forall k | 0 <= k < |p.items| :: all[first + k].number == p.items[k]
    requires (forall j | 0 <= j < first :: all[j].number < start) && (first < |all| ==> all[first].number >= start)
    requires if p.next.None? then end == |all| else end < |all| && p.next.value == all[end].number && |p.items| == size
    ensures IsPage(p, numbers, start, size)
  {
    forall n ensures n in p.items <==> n in numbers && n >= start && (p.next.Some? ==> n < p.next.value) {
      if n in p.items {
        var k :| 0 <= k < |p.items| && p.items[k] == n;
        assert all[first + k] in all;
      }
      if n in numbers && n >= start && (p.next.Some? ==> n < p.next.value) {
        var j :| 0 <= j < |all| && all[j].number == n;
        assert p.items[j - first] == n;
      }
    }
    if p.next.Some? {
      assert all[end] in all;
    }
  }

  /** A change the present identifiers admit keeps the history legal and moves them by its kind. */
  lemma OneMoreChange(before: set<string>, h: seq<Change>, c: Change)
    requires Legal(before, h) && (c.kind.Added? <==> c.id !in Present(before, h))
    ensures Legal(before, h + [c])
    ensures Present(before, h + [c]) == match c.kind
                                        case Added => Present(before, h) + {c.id}
                                        case Removed => Present(before, h) - {c.id}
                                        case Modified => Present(before, h)
  {
    assert (h + [c])[..|h|] == h;
  }

  // ---------------------------------------------------------------- sorting by number

  function InOrder(s: seq<Stored>, x: Stored): seq<Stored> {
    if s == [] || s[|s| - 1].number < x.number then s + [x]
    else InOrder(s[..|s| - 1], x) + [s[|s| - 1]]
  }

  lemma {:induction false} InOrderHolds(s: seq<Stored>, x: Stored, y: Stored)
    ensures y in InOrder(s, x) <==> y in s || y == x
  {
    if s != [] && s[|s| - 1].number >= x.number {
      InOrderHolds(s[..|s| - 1], x, y);
      assert s == s[..|s| - 1] + [s[|s| - 1]];
    }
  }

  lemma {:induction false} InOrderKeeps(s: seq<Stored>, x: Stored)
    requires Numbered(s) && forall y <- s :: y.number != x.number
    ensures Numbered(InOrder(s, x))
    ensures forall y :: y in InOrder(s, x) <==> y in s || y == x
  {
    forall y ensures y in InOrder(s, x) <==> y in s || y == x { InOrderHolds(s, x, y); }
    if s != [] && s[|s| - 1].number >= x.number {
      var init, last := s[..|s| - 1], s[|s| - 1];
      InOrderKeeps(init, x);
      var out := InOrder(init, x);
      forall i | 0 <= i < |out| ensures out[i].number < last.number {
        InOrderHolds(init, x, out[i]);
        if out[i] != x {
          var k :| 0 <= k < |init| && init[k] == out[i];
          assert s[k].number < s[|s| - 1].number;
        } else {
          assert last in s;
        }
      }
    }
  }

  // ---------------------------------------------------------------- the mailbox

  class Fake {
    const pageSize: nat
    var last: nat
    var byID: map<string, Stored>
    var labels: set<string>
    var history: seq<Change>
    var horizon: nat
    ghost var before: set<string>

    /** The history replayed over what was there before it gives what is held. */
    ghost predicate Valid()
      reads this
    {
      && pageSize > 0
      && horizon <= |history|
      && Legal(before, history)
      && Present(before, history) == byID.Keys
      && View().Sound()
    }

    function View(): Box
      reads this
    {
      Box(byID, last)
    }

    ghost function Everything(): set<Stored>
      reads this
    {
      set id <- byID :: byID[id]
    }

    constructor (size: int)
      ensures Valid() && byID == map[] && history == [] && last == 0 && horizon == 0 && before == {}
      ensures labels == {INBOX, TRASH, SPAM}
      ensures pageSize == if size <= 0 then 100 else size
    {
      pageSize := if size <= 0 then 100 else size;
      last, byID, history, horizon, before := 0, map[], [], 0, {};
      labels := {INBOX, TRASH, SPAM};
    }

    /** Puts a message in without a change: what a new mailbox starts with, before any history. */
    method Seed(m: Meta) returns (out: Outcome)
      requires Valid() && history == []
      modifies this`byID, this`labels, this`last, this`before
      ensures Valid()
      ensures out == InsertOutcome(old(byID.Keys), m)
      ensures out != Done ==> byID == old(byID) && labels == old(labels) && last == old(last)
      ensures out == Done ==> Inserted(old(byID), old(labels), old(last), m)
    {
      out := Insert(m);
      if out == Done {
        before := before + {m.id};
      }
    }

    function InsertOutcome(held: set<string>, m: Meta): Outcome {
      if m.id == "" then Unnamed
      else if m.thread == "" then Threadless
      else if m.id in held then AlreadyHeld
      else Done
    }

    /** The message is held under the next number, with its labels known, and nothing else changed. */
    ghost predicate Inserted(byID0: map<string, Stored>, labels0: set<string>, last0: nat, m: Meta)
      reads this
    {
      && last == last0 + 1
      && byID == byID0[m.id := Stored(last0 + 1, m)]
      && labels == labels0 + Ids(m.labels)
    }

    method Insert(m: Meta) returns (out: Outcome)
      modifies this`byID, this`labels, this`last
      ensures out == InsertOutcome(old(byID.Keys), m)
      ensures out != Done ==> byID == old(byID) && labels == old(labels) && last == old(last)
      ensures out == Done ==> Inserted(old(byID), old(labels), old(last), m)
    {
      if m.id == "" {
        return Unnamed;
      }
      if m.thread == "" {
        return Threadless;
      }
      if m.id in byID {
        return AlreadyHeld;
      }
      for i := 0 to |m.labels|
        invariant labels == old(labels) + Ids(m.labels[..i])
        invariant byID == old(byID) && last == old(last)
      {
        labels := labels + {m.labels[i]};
        assert m.labels[..i + 1] == m.labels[..i] + [m.labels[i]];
      }
      assert m.labels[..|m.labels|] == m.labels;
      last := last + 1;
      byID := byID[m.id := Stored(last, m)];
      out := Done;
    }

    method Deliver(m: Meta) returns (out: Outcome)
      requires Valid()
      modifies this`byID, this`labels, this`last, this`history
      ensures Valid()
      ensures out == InsertOutcome(old(byID.Keys), m)
      ensures out != Done ==> unchanged(this)
      ensures out == Done ==>
                && Inserted(old(byID), old(labels), old(last), m)
                && View() == Edited(old(View()), Delivered(m))
                && history == old(history) + [Change(m.id, Added)]
    {
      hide Legal, Present;
      out := Insert(m);
      if out == Done {
        OneMoreChange(before, history, Change(m.id, Added));
        history := history + [Change(m.id, Added)];
      }
    }

    method Remove(id: string) returns (out: Outcome)
      requires Valid()
      modifies this`byID, this`history
      ensures Valid()
      ensures out == if id in old(byID) then Done else NotHeld
      ensures out != Done ==> unchanged(this)
      ensures out == Done ==>
                && byID == old(byID) - {id}
                && View() == Edited(old(View()), Dropped(id))
                && history == old(history) + [Change(id, Removed)]
    {
      hide Legal, Present;
      if id !in byID {
        return NotHeld;
      }
      byID := byID - {id};
      OneMoreChange(before, history, Change(id, Removed));
      history := history + [Change(id, Removed)];
      out := Done;
    }

    /** Puts the metadata in under the message's number, recording a change exactly when labels or flags differ. */
    method Put(id: string, meta: Meta)
      requires Valid() && id in byID && meta.id == id && meta.thread == byID[id].meta.thread
      modifies this`byID, this`history
      ensures Valid()
      ensures byID == old(byID)[id := old(byID)[id].(meta := meta)]
      ensures history == old(history) + if meta != old(byID)[id].meta then [Change(id, Modified)] else []
    {
      hide Legal, Present;
      var was := byID[id].meta;
      byID := byID[id := byID[id].(meta := meta)];
      assert byID.Keys == old(byID.Keys);
      if was.labels != meta.labels || was.read != meta.read || was.starred != meta.starred {
        OneMoreChange(before, history, Change(id, Modified));
        history := history + [Change(id, Modified)];
      }
    }

    method Apply(op: Op) returns (out: Outcome)
      requires Valid()
      modifies this`byID, this`history
      ensures Valid()
      ensures out == if op.id !in old(byID) then NotHeld
                     else if op.add != "" && op.add !in labels then NoSuchLabel
                     else if op.verb.OtherVerb? then BadVerb
                     else Done
      ensures out != Done ==> unchanged(this)
      ensures out == Done ==>
                var s := old(byID)[op.id];
                && byID == old(byID)[op.id := s.(meta := Mutated(s.meta, op))]
                && View() == Edited(old(View()), Changed(Mutated(s.meta, op)))
                && history == old(history) + if Mutated(s.meta, op) != s.meta then [Change(op.id, Modified)] else []
    {
      hide Legal, Present, Relabelled;
      if op.id !in byID {
        return NotHeld;
      }
      if op.add != "" && op.add !in labels {
        return NoSuchLabel;
      }
      if op.verb.OtherVerb? {
        return BadVerb;
      }
      Put(op.id, Mutated(byID[op.id].meta, op));
      out := Done;
    }

    method ExpireCursors()
      requires Valid()
      modifies this`horizon
      ensures Valid() && horizon == |history|
    {
      horizon := |history|;
    }

    /** The netted changes after the cursor, with the cursor that asks for what follows them, or none for a cursor
        before the horizon or past the history. */
    method ChangesSince(cursor: int) returns (out: Option<(ChangeSet, nat)>)
      requires Valid()
      ensures out == if cursor < horizon || cursor > |history| then None
                     else Some((Net(history[cursor..]), |history|))
    {
      hide Legal, Present, Net;
      if cursor < horizon || cursor > |history| {
        return None;
      }
      var net := NetChanges(history[cursor..]);
      out := Some((net, |history|));
    }

    /** Everything stored, by number. */
    method Ordered() returns (out: seq<Stored>)
      requires Valid()
      ensures Numbered(out)
      ensures forall s :: s in out <==> s in Everything()
    {
      out := [];
      var ids := byID.Keys;
      while ids != {}
        invariant ids <= byID.Keys
        invariant Numbered(out)
        invariant forall s <- out :: s in Everything() && s.meta.id !in ids
        invariant forall id <- byID :: id in ids || byID[id] in out
        decreases |ids|
      {
        var id :| id in ids;
        assert forall s <- out :: s.number != byID[id].number;
        InOrderKeeps(out, byID[id]);
        out := InOrder(out, byID[id]);
        ids := ids - {id};
      }
    }

    /** The page of a token: none for the first, and a token that is no positive number is refused. */
    method EnumerateAll(token: Option<int>) returns (out: Option<(seq<Meta>, Page)>)
      requires Valid()
      ensures out.None? <==> token.Some? && token.value <= 0
      ensures out.Some? ==>
                && IsPage(out.value.1, View().Numbers(), if token.Some? then token.value else 0, pageSize)
                && Shows(View(), out.value.0, out.value.1)
    {
      if token.Some? && token.value <= 0 {
        return None;
      }
      hide Legal, Present, IsPage;
      var start := if token.Some? then token.value else 0;
      var all := Ordered();
      var items, numbers, next := [], [], None;
      var i := 0;
      ghost var first := 0;
      while i < |all|
        invariant 0 <= first <= i <= |all| && |items| == |numbers| == i - first <= pageSize
        invariant forall k | 0 <= k < |numbers| :: all[first + k] == Stored(numbers[k], items[k])
        invariant forall j | 0 <= j < first :: all[j].number < start
        invariant first < i ==> all[first].number >= start
        invariant next.None?
      {
        if all[i].number < start {
          i := i + 1;
          first := first + 1;
          continue;
        }
        if |items| == pageSize {
          next := Some(all[i].number);
          break;
        }
        items := items + [all[i].meta];
        numbers := numbers + [all[i].number];
        i := i + 1;
      }
      assert forall n :: n in View().Numbers() <==> exists s <- all :: s.number == n;
      TakenPage(all, View().Numbers(), first, i, start, pageSize, Page(numbers, next));
      forall k | 0 <= k < |items| ensures items[k].id in byID && byID[items[k].id] == Stored(numbers[k], items[k]) {
        assert all[first + k] in all;
      }
      out := Some((items, Page(numbers, next)));
    }
  }
}
