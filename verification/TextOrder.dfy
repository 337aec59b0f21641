/** Texts in order, and sorting them. */
module TextOrder {
  predicate Leq(a: string, b: string) {
    a == "" || (b != "" && (a[0] < b[0] || (a[0] == b[0] && Leq(a[1..], b[1..]))))
  }

  lemma {:induction false} Total(a: string, b: string)
    ensures Leq(a, b) || Leq(b, a)
    ensures Leq(a, b) && Leq(b, a) ==> a == b
  {
    if a != "" && b != "" && a[0] == b[0] {
      Total(a[1..], b[1..]);
      assert a == [a[0]] + a[1..] && b == [b[0]] + b[1..];
    }
  }

  lemma {:induction false} Transitive(a: string, b: string, c: string)
    requires Leq(a, b) && Leq(b, c)
    ensures Leq(a, c)
  {
    if a != "" && a[0] == b[0] == c[0] {
      Transitive(a[1..], b[1..], c[1..]);
    }
  }

  predicate InOrder(s: seq<string>) {
    forall i, j :: 0 <= i < j < |s| ==> Leq(s[i], s[j])
  }

  function Insert(x: string, s: seq<string>): seq<string> {
    if s == [] || Leq(x, s[0]) then [x] + s else [s[0]] + Insert(x, s[1..])
  }

  function Sorted(s: seq<string>): seq<string> {
    if s == [] then [] else Insert(s[0], Sorted(s[1..]))
  }

  lemma {:induction false} InsertHolds(x: string, s: seq<string>)
    ensures multiset(Insert(x, s)) == multiset{x} + multiset(s)
  {
    if s == [] {
    } else {
      InsertHolds(x, s[1..]);
      assert s == [s[0]] + s[1..];
    }
  }

  lemma FirstSmallest(x: string, s: seq<string>)
    requires InOrder(s) && forall y <- s :: Leq(x, y)
    ensures InOrder([x] + s)
  {
    hide Leq;
  }

  lemma {:induction false} InsertSorts(x: string, s: seq<string>)
    requires InOrder(s)
    ensures InOrder(Insert(x, s)) && multiset(Insert(x, s)) == multiset{x} + multiset(s)
  {
    hide Leq;
    InsertHolds(x, s);
    if s == [] {
    } else {
      Total(x, s[0]);
      Total(s[0], s[0]);
      assert forall i | 0 <= i < |s| :: Leq(s[0], s[i]);
      if Leq(x, s[0]) {
        forall y <- s ensures Leq(x, y) { Transitive(x, s[0], y); }
        FirstSmallest(x, s);
      } else {
        InsertHolds(x, s[1..]);
        InsertSorts(x, s[1..]);
        var rest := Insert(x, s[1..]);
        forall y <- rest ensures Leq(s[0], y) {
          assert y in multiset(rest);
          assert y == x || y in s[1..];
        }
        FirstSmallest(s[0], rest);
      }
    }
  }

  lemma {:induction false} SortedSorts(s: seq<string>)
    ensures InOrder(Sorted(s)) && multiset(Sorted(s)) == multiset(s)
  {
    if s == [] {
    } else {
      SortedSorts(s[1..]);
      InsertSorts(s[0], Sorted(s[1..]));
      assert s == [s[0]] + s[1..];
    }
  }

  lemma FirstIsLeast(s: seq<string>, y: string)
    requires InOrder(s) && y in s
    ensures Leq(s[0], y)
  {
    hide Leq;
    Total(y, y);
  }

  lemma SameFirst(a: seq<string>, b: seq<string>)
    requires InOrder(a) && InOrder(b) && multiset(a) == multiset(b) && a != [] && b != []
    ensures a[0] == b[0]
  {
    hide Leq, InOrder;
    assert a[0] in multiset(a) && b[0] in multiset(b);
    assert a[0] in b && b[0] in a;
    FirstIsLeast(b, a[0]);
    FirstIsLeast(a, b[0]);
    Total(a[0], b[0]);
  }

  lemma WithoutFirst(s: seq<string>)
    requires InOrder(s) && s != []
    ensures InOrder(s[1..]) && multiset(s[1..]) == multiset(s) - multiset{s[0]}
  {
    hide Leq;
    assert s == [s[0]] + s[1..];
  }

  lemma {:induction false} OneOrder(a: seq<string>, b: seq<string>)
    requires InOrder(a) && InOrder(b) && multiset(a) == multiset(b)
    ensures a == b
  {
    hide Leq;
    if a == [] || b == [] {
      assert |a| == |multiset(a)| == |multiset(b)| == |b|;
    } else {
      SameFirst(a, b);
      WithoutFirst(a);
      WithoutFirst(b);
      OneOrder(a[1..], b[1..]);
      assert a == [a[0]] + a[1..] && b == [b[0]] + b[1..];
    }
  }

  /** Sorting forgets the order and nothing else. */
  lemma SortedIsCanonical(a: seq<string>, b: seq<string>)
    ensures Sorted(a) == Sorted(b) <==> multiset(a) == multiset(b)
  {
    SortedSorts(a);
    SortedSorts(b);
    if multiset(a) == multiset(b) {
      OneOrder(Sorted(a), Sorted(b));
    }
  }
}
