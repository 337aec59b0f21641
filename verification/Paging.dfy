/** Pages resumed by sequence number while the mailbox is edited between them (provider/fake/fake.go). */
module Paging {
  import opened Wrappers

  /** A page as the sequence numbers of its messages, and the number the next page resumes from. */
  datatype Page = Page(items: seq<nat>, next: Option<nat>)

  predicate Increasing(s: seq<nat>) {
    forall i, j :: 0 <= i < j < |s| ==> s[i] < s[j]
  }

  /** The stored numbers from start on, ascending, cut before next where there are more than size of them. */
  ghost predicate IsPage(p: Page, stored: set<nat>, start: nat, size: nat) {
    && Increasing(p.items)
    && (forall n :: n in p.items <==> n in stored && n >= start && (p.next.Some? ==> n < p.next.value))
    && |p.items| <= size
    && (p.next.Some? ==> p.next.value in stored && p.next.value >= start && |p.items| == size)
  }

  /** A page as it was taken: what was stored then. Nothing is assumed of how one differs from the next. */
  datatype Taken = Taken(page: Page, stored: set<nat>)

  function StartOf(run: seq<Taken>): nat {
    if run == [] || run[|run| - 1].page.next.None? then 0 else run[|run| - 1].page.next.value
  }

  /** Each page resumes from the token the last one gave. */
  ghost predicate Follows(run: seq<Taken>, size: nat) {
    run == [] ||
    (var earlier, now := run[..|run| - 1], run[|run| - 1];
     && Follows(earlier, size)
     && (earlier != [] ==> earlier[|earlier| - 1].page.next.Some?)
     && IsPage(now.page, now.stored, StartOf(earlier), size))
  }

  function Items(run: seq<Taken>): seq<nat> {
    if run == [] then [] else Items(run[..|run| - 1]) + run[|run| - 1].page.items
  }

  /** Every token is greater than the one before it. */
  lemma {:induction false} TokensAscend(run: seq<Taken>, size: nat)
    requires run != [] && Follows(run, size) && size > 0 && run[|run| - 1].page.next.Some?
    ensures StartOf(run) > StartOf(run[..|run| - 1])
  {
    var page := run[|run| - 1].page;
    assert page.items[0] in page.items;
  }

  lemma StartWithin(t: Taken, start: nat, size: nat)
    requires IsPage(t.page, t.stored, start, size)
    ensures t.page.next.Some? ==> start <= t.page.next.value
  {
  }

  lemma Joined(a: seq<nat>, b: seq<nat>, start: nat)
    requires Increasing(a) && Increasing(b)
    requires (forall n <- a :: n < start) && (forall n <- b :: n >= start)
    ensures Increasing(a + b)
  {
    forall i, j | 0 <= i < j < |a + b|
      ensures (a + b)[i] < (a + b)[j]
    {
      if i < |a| <= j {
        assert a[i] in a && b[j - |a|] in b;
      }
    }
  }

  lemma {:induction false} ItemsBelow(run: seq<Taken>, size: nat)
    requires Follows(run, size)
    ensures Increasing(Items(run))
    ensures run != [] && run[|run| - 1].page.next.Some? ==> forall n <- Items(run) :: n < StartOf(run)
    ensures forall n <- Items(run) :: exists k | 0 <= k < |run| :: n in run[k].stored
  {
    if run == [] {
    } else {
      var earlier, now := run[..|run| - 1], run[|run| - 1];
      ItemsBelow(earlier, size);
      if earlier != [] {
        StartWithin(now, StartOf(earlier), size);
      }
      Joined(Items(earlier), now.page.items, StartOf(earlier));
      forall n <- Items(run) ensures exists k | 0 <= k < |run| :: n in run[k].stored {
        if n in Items(earlier) {
          var k :| 0 <= k < |earlier| && n in earlier[k].stored;
          assert n in run[k].stored;
        } else {
          assert n in run[|run| - 1].stored;
        }
      }
    }
  }

  lemma {:induction false} OnceEach(s: seq<nat>, n: nat)
    requires Increasing(s)
    ensures multiset(s)[n] <= 1
  {
    if s == [] {
    } else {
      OnceEach(s[..|s| - 1], n);
      assert s == s[..|s| - 1] + [s[|s| - 1]];
    }
  }

  /** No message is returned twice, and what is returned was stored when its page was taken. */
  lemma NoneTwice(run: seq<Taken>, size: nat, n: nat)
    requires Follows(run, size)
    ensures multiset(Items(run))[n] <= 1
    ensures n in Items(run) ==> exists k | 0 <= k < |run| :: n in run[k].stored
  {
    ItemsBelow(run, size);
    OnceEach(Items(run), n);
  }

  lemma {:induction false} StoredSoFar(run: seq<Taken>, size: nat, n: nat)
    requires Follows(run, size) && run != []
    requires forall k | 0 <= k < |run| :: n in run[k].stored
    requires run[|run| - 1].page.next.None? || n < StartOf(run)
    ensures n in Items(run)
  {
    var earlier, now := run[..|run| - 1], run[|run| - 1];
    if earlier != [] && n < StartOf(earlier) {
      StoredSoFar(earlier, size, n);
    } else {
      assert n in now.stored;
    }
  }

  /** Followed to the end, the pages return every message stored throughout exactly once, whatever was delivered,
      changed or removed between them. */
  lemma PresentThroughoutOnce(run: seq<Taken>, size: nat, n: nat)
    requires Follows(run, size) && run != [] && run[|run| - 1].page.next.None?
    requires forall k | 0 <= k < |run| :: n in run[k].stored
    ensures multiset(Items(run))[n] == 1
  {
    StoredSoFar(run, size, n);
    NoneTwice(run, size, n);
  }
}
