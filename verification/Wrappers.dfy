/** The optional value and the few words about lists the modules share. */
module Wrappers {
  datatype Option<+T> = None | Some(value: T)

  predicate Distinct<T(==)>(s: seq<T>) {
    forall i, j | 0 <= i < j < |s| :: s[i] != s[j]
  }

  predicate Increasing(at: seq<nat>) {
    forall j, k | 0 <= j < k < |at| :: at[j] < at[k]
  }

  /** chosen holds the items at the indexes, in their order. */
  predicate Picked<T(==)>(items: seq<T>, at: seq<nat>, chosen: seq<T>) {
    Increasing(at) && |chosen| == |at| && forall k | 0 <= k < |at| :: at[k] < |items| && chosen[k] == items[at[k]]
  }

  lemma PickedMore<T>(items: seq<T>, at: seq<nat>, chosen: seq<T>, i: nat)
    requires Picked(items, at, chosen) && i < |items| && forall k | 0 <= k < |at| :: at[k] < i
    ensures Picked(items, at + [i], chosen + [items[i]])
  {
  }

  /** The indexes of what was picked from a pick. */
  ghost function Through(outer: seq<nat>, inner: seq<nat>): (r: seq<nat>)
    requires forall k | 0 <= k < |inner| :: inner[k] < |outer|
    ensures |r| == |inner| && forall k | 0 <= k < |r| :: r[k] == outer[inner[k]]
  {
    seq(|inner|, k requires 0 <= k < |inner| => outer[inner[k]])
  }

  lemma PickedThrough<T>(items: seq<T>, outer: seq<nat>, chosen: seq<T>, inner: seq<nat>, last: seq<T>)
    requires Picked(items, outer, chosen) && Picked(chosen, inner, last)
    ensures Picked(items, Through(outer, inner), last)
  {
  }

  /** A pick from a pick holds exactly the wanted indexes when the outer one holds them all and the inner
      one holds where they are in it. */
  lemma ThroughExactly(outer: seq<nat>, inner: seq<nat>, wanted: set<nat>)
    requires forall k | 0 <= k < |inner| :: inner[k] < |outer|
    requires forall j: nat | j < |outer| :: j in inner <==> outer[j] in wanted
    requires forall i <- wanted :: i in outer
    ensures forall i :: i in Through(outer, inner) <==> i in wanted
  {
    var at := Through(outer, inner);
    forall i ensures i in at <==> i in wanted {
      if i in at {
        var k :| 0 <= k < |at| && at[k] == i;
        assert inner[k] in inner;
      }
      if i in wanted {
        var j :| 0 <= j < |outer| && outer[j] == i;
        var k :| 0 <= k < |inner| && inner[k] == j;
        assert at[k] == i;
      }
    }
  }
}
