/** Enumerating a mailbox page by page while it is edited (provider/fake/fake.go). */
module MailboxRuns {
  import opened Wrappers
  import opened Paging
  import opened Mailbox

  // ---------------------------------------------------------------- edits

  /** The mailbox after the first k edits. */
  function After(start: Box, edits: seq<Edit>, k: nat): Box
    requires k <= |edits|
  {
    if k == 0 then start else Edited(After(start, edits, k - 1), edits[k - 1])
  }

  /** An edit keeps the mailbox sound, every number a message stays under, and issues none again. */
  lemma EditKeeps(b: Box, e: Edit)
    requires b.Sound()
    ensures var c := Edited(b, e);
            && c.Sound() && b.last <= c.last
            && (forall id | id in b.byID && id in c.byID :: c.byID[id].number == b.byID[id].number)
            && (forall id | id in c.byID && c.byID[id].number <= b.last :: id in b.byID)
  {
  }

  lemma {:induction false} EditsKeep(start: Box, edits: seq<Edit>, i: nat, j: nat)
    requires start.Sound() && i <= j <= |edits|
    ensures After(start, edits, i).Sound() && After(start, edits, j).Sound()
    ensures After(start, edits, i).last <= After(start, edits, j).last
    decreases j
  {
    hide Edited;
    if j == 0 {
    } else {
      EditsKeep(start, edits, if i < j then i else j - 1, j - 1);
      EditKeeps(After(start, edits, j - 1), edits[j - 1]);
    }
  }

  /** A number once issued is only ever held for the message it was issued to, and once that is gone, for none. */
  lemma {:induction false} NumbersNeverReused(start: Box, edits: seq<Edit>, i: nat, j: nat, id: string)
    requires start.Sound() && i <= j <= |edits|
    requires var now := After(start, edits, j); id in now.byID && now.byID[id].number <= After(start, edits, i).last
    ensures forall k: nat | i <= k <= j ::
              id in After(start, edits, k).byID
              && After(start, edits, k).byID[id].number == After(start, edits, j).byID[id].number
    decreases j - i
  {
    hide Edited, Box.Sound;
    if i == j {
    } else {
      EditsKeep(start, edits, i, j - 1);
      EditKeeps(After(start, edits, j - 1), edits[j - 1]);
      NumbersNeverReused(start, edits, i, j - 1, id);
    }
  }

  /** A message present throughout keeps its number. */
  lemma {:induction false} NumberStays(start: Box, edits: seq<Edit>, i: nat, j: nat, id: string)
    requires start.Sound() && i <= j <= |edits|
    requires forall k: nat | i <= k <= j :: id in After(start, edits, k).byID
    ensures After(start, edits, j).byID[id].number == After(start, edits, i).byID[id].number
    decreases j - i
  {
    hide Edited, Box.Sound;
    if i == j {
    } else {
      NumberStays(start, edits, i, j - 1, id);
      EditsKeep(start, edits, i, j - 1);
      EditKeeps(After(start, edits, j - 1), edits[j - 1]);
    }
  }

  // ---------------------------------------------------------------- pages

  /** One page: after how many edits it was answered, its messages and its numbers. */
  datatype Visit = Visit(at: nat, items: seq<Meta>, page: Page)

  function Pages(start: Box, edits: seq<Edit>, visits: seq<Visit>): seq<Taken>
    requires forall k | 0 <= k < |visits| :: visits[k].at <= |edits|
  {
    seq(|visits|, k requires 0 <= k < |visits| => Taken(visits[k].page, After(start, edits, visits[k].at).Numbers()))
  }

  predicate Answered(start: Box, edits: seq<Edit>, visits: seq<Visit>) {
    forall k | 0 <= k < |visits| ::
      visits[k].at <= |edits| && Shows(After(start, edits, visits[k].at), visits[k].items, visits[k].page)
  }

  /** Each page resumes from the token of the one before, over a mailbox edited since. */
  ghost predicate Enumerates(start: Box, edits: seq<Edit>, visits: seq<Visit>, size: nat) {
    && Answered(start, edits, visits)
    && (forall i, j | 0 <= i < j < |visits| :: visits[i].at <= visits[j].at)
    && Follows(Pages(start, edits, visits), size)
  }

  function Returned(visits: seq<Visit>): seq<string> {
    if visits == [] then []
    else
      var last := visits[|visits| - 1];
      Returned(visits[..|visits| - 1]) + seq(|last.items|, i requires 0 <= i < |last.items| => last.items[i].id)
  }

  lemma {:induction false} AlikeCounts(numbers: seq<nat>, ids: seq<string>, n: nat, id: string)
    requires |numbers| == |ids| && forall i | 0 <= i < |ids| :: numbers[i] == n <==> ids[i] == id
    ensures multiset(numbers)[n] == multiset(ids)[id]
  {
    if ids == [] {
    } else {
      var k := |ids| - 1;
      AlikeCounts(numbers[..k], ids[..k], n, id);
      assert numbers == numbers[..k] + [numbers[k]] && ids == ids[..k] + [ids[k]];
    }
  }

  /** A page's messages with one identifier are those with its number. */
  lemma PageAlike(b: Box, v: Visit, id: string)
    requires b.Sound() && Shows(b, v.items, v.page) && id in b.byID
    ensures multiset(v.page.items)[b.byID[id].number]
            == multiset(seq(|v.items|, i requires 0 <= i < |v.items| => v.items[i].id))[id]
  {
    AlikeCounts(v.page.items, seq(|v.items|, i requires 0 <= i < |v.items| => v.items[i].id), b.byID[id].number, id);
  }

  lemma {:induction false} ReturnedAlike(start: Box, edits: seq<Edit>, visits: seq<Visit>, n: nat, id: string)
    requires start.Sound() && Answered(start, edits, visits)
    requires forall k | 0 <= k < |visits| ::
               var b := After(start, edits, visits[k].at); id in b.byID && b.byID[id].number == n
    ensures multiset(Returned(visits))[id] == multiset(Items(Pages(start, edits, visits)))[n]
  {
    if visits == [] {
    } else {
      hide Shows, Box.Sound, After;
      var init, last := visits[..|visits| - 1], visits[|visits| - 1];
      EditsKeep(start, edits, last.at, last.at);
      ReturnedAlike(start, edits, init, n, id);
      PageAlike(After(start, edits, last.at), last, id);
      assert Pages(start, edits, visits)[..|visits| - 1] == Pages(start, edits, init);
    }
  }

  /** Whatever is delivered, changed or removed between them, the pages followed to the end return every message that
      is there from the first page to the last exactly once. */
  lemma EnumeratedOnce(start: Box, edits: seq<Edit>, visits: seq<Visit>, size: nat, id: string)
    requires start.Sound() && Enumerates(start, edits, visits, size)
    requires visits != [] && visits[|visits| - 1].page.next.None?
    requires forall k: nat | visits[0].at <= k <= visits[|visits| - 1].at :: id in After(start, edits, k).byID
    ensures multiset(Returned(visits))[id] == 1
  {
    hide Follows, Shows, Box.Sound, After;
    var n := After(start, edits, visits[0].at).byID[id].number;
    forall k | 0 <= k < |visits|
      ensures id in After(start, edits, visits[k].at).byID && After(start, edits, visits[k].at).byID[id].number == n
    {
      NumberStays(start, edits, visits[0].at, visits[k].at, id);
    }
    ReturnedAlike(start, edits, visits, n, id);
    PresentThroughoutOnce(Pages(start, edits, visits), size, n);
  }
}
