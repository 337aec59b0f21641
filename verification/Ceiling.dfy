/** The sliding one-second ceiling, its window compacted in place (provider/fake/throttle.go). */
module Ceiling {
  const SECOND := 1_000_000_000

  /** A call let through, its instant in nanoseconds. */
  datatype Spent = Spent(at: int, weight: real)

  /** The calls let through less than a second before an instant. */
  function Recent(h: seq<Spent>, now: int): seq<Spent> {
    if h == [] then []
    else
      var earlier, last := Recent(h[..|h| - 1], now), h[|h| - 1];
      if now - last.at < SECOND then earlier + [last] else earlier
  }

  function Sum(h: seq<Spent>): real {
    if h == [] then 0.0 else Sum(h[..|h| - 1]) + h[|h| - 1].weight
  }

  /** The weight let through in the half-open second that starts at an instant. */
  function InWindow(h: seq<Spent>, start: int): real {
    if h == [] then 0.0
    else
      var last := h[|h| - 1];
      InWindow(h[..|h| - 1], start) + if start <= last.at < start + SECOND then last.weight else 0.0
  }

  predicate Ordered(h: seq<Spent>) {
    && (forall i, j :: 0 <= i < j < |h| ==> h[i].at <= h[j].at)
    && (forall s <- h :: s.weight >= 0.0)
  }

  predicate NotAfter(h: seq<Spent>, now: int) {
    forall s <- h :: s.at <= now
  }

  /** Every call let through found room in the second before it. */
  predicate Admitted(h: seq<Spent>, ceiling: real) {
    h == [] ||
    (Admitted(h[..|h| - 1], ceiling)
     && Sum(Recent(h[..|h| - 1], h[|h| - 1].at)) + h[|h| - 1].weight <= ceiling)
  }

  lemma {:induction false} SumNonNegative(h: seq<Spent>)
    requires forall s <- h :: s.weight >= 0.0
    ensures Sum(h) >= 0.0
  {
    if h == [] {
    } else {
      SumNonNegative(h[..|h| - 1]);
    }
  }

  lemma {:induction false} RecentAmong(h: seq<Spent>, now: int)
    ensures forall s <- Recent(h, now) :: s in h && now - s.at < SECOND
  {
    if h == [] {
    } else {
      RecentAmong(h[..|h| - 1], now);
    }
  }

  /** What is recent at an instant is the half-open second that ends just after it. */
  lemma {:induction false} RecentIsWindow(h: seq<Spent>, now: int)
    requires NotAfter(h, now)
    ensures Sum(Recent(h, now)) == InWindow(h, now - SECOND + 1)
  {
    if h == [] {
    } else {
      var init := h[..|h| - 1];
      RecentIsWindow(init, now);
      if now - h[|h| - 1].at < SECOND {
        assert Recent(h, now)[..|Recent(h, now)| - 1] == Recent(init, now);
      }
    }
  }

  /** Dropping what an earlier instant found too old loses nothing that is recent later. */
  lemma {:induction false} RecentOfRecent(h: seq<Spent>, before: int, now: int)
    requires before <= now
    ensures Recent(Recent(h, before), now) == Recent(h, now)
  {
    if h == [] {
    } else {
      var init := h[..|h| - 1];
      RecentOfRecent(init, before, now);
      if before - h[|h| - 1].at < SECOND {
        assert Recent(h, before)[..|Recent(h, before)| - 1] == Recent(init, before);
      }
    }
  }

  /** A window that holds its last call lies within the second before that call. */
  lemma {:induction false} WindowWithinRecent(h: seq<Spent>, start: int, now: int)
    requires Ordered(h) && NotAfter(h, now) && start <= now < start + SECOND
    ensures InWindow(h, start) <= Sum(Recent(h, now))
  {
    if h == [] {
    } else {
      var init, last := h[..|h| - 1], h[|h| - 1];
      WindowWithinRecent(init, start, now);
      if now - last.at < SECOND {
        assert Recent(h, now)[..|Recent(h, now)| - 1] == Recent(init, now);
        assert last in h;
      }
    }
  }

  /** Whatever the run, no half-open second holds more than the ceiling. */
  lemma {:induction false} NoWindowExceeds(h: seq<Spent>, ceiling: real, start: int)
    requires Ordered(h) && Admitted(h, ceiling) && ceiling >= 0.0
    ensures InWindow(h, start) <= ceiling
  {
    if h == [] {
    } else {
      var init, last := h[..|h| - 1], h[|h| - 1];
      assert Ordered(init) by { assert forall s <- init :: s in h; }
      NoWindowExceeds(init, ceiling, start);
      if start <= last.at < start + SECOND {
        assert NotAfter(init, last.at) by {
          forall s <- init ensures s.at <= last.at {
            var i :| 0 <= i < |init| && init[i] == s;
            assert h[i].at <= h[|h| - 1].at;
          }
        }
        WindowWithinRecent(init, start, last.at);
      }
    }
  }

  /** With one call more no half-open second would hold more than the ceiling. */
  ghost predicate HasRoom(h: seq<Spent>, c: Spent, ceiling: real) {
    forall start :: InWindow(h + [c], start) <= ceiling
  }

  lemma OneMoreAdmitted(h: seq<Spent>, c: Spent, ceiling: real)
    requires Ordered(h) && Admitted(h, ceiling) && NotAfter(h, c.at) && c.weight >= 0.0
    requires Sum(Recent(h, c.at)) + c.weight <= ceiling
    ensures Ordered(h + [c]) && Admitted(h + [c], ceiling) && NotAfter(h + [c], c.at)
    ensures Recent(h + [c], c.at) == Recent(h, c.at) + [c]
  {
    assert (h + [c])[..|h|] == h;
    forall i | 0 <= i < |h| ensures h[i].at <= c.at {
      assert h[i] in h;
    }
  }

  lemma RoomHolds(h: seq<Spent>, c: Spent, ceiling: real)
    requires Ordered(h) && Admitted(h, ceiling) && NotAfter(h, c.at) && c.weight >= 0.0
    requires Sum(Recent(h, c.at)) + c.weight <= ceiling
    ensures HasRoom(h, c, ceiling)
  {
    hide Recent, Sum, InWindow;
    RecentAmong(h, c.at);
    SumNonNegative(Recent(h, c.at));
    OneMoreAdmitted(h, c, ceiling);
    forall start ensures InWindow(h + [c], start) <= ceiling {
      NoWindowExceeds(h + [c], ceiling, start);
    }
  }

  lemma RoomNeeded(h: seq<Spent>, c: Spent, ceiling: real)
    requires NotAfter(h, c.at) && HasRoom(h, c, ceiling)
    ensures Sum(Recent(h, c.at)) + c.weight <= ceiling
  {
    hide Recent, Sum;
    RecentIsWindow(h, c.at);
    assert (h + [c])[..|h + [c]| - 1] == h;
    assert InWindow(h + [c], c.at - SECOND + 1) <= ceiling;
  }

  /** A call may be let through exactly when no half-open second would then hold more than the ceiling. */
  lemma RoomExactly(h: seq<Spent>, c: Spent, ceiling: real)
    requires Ordered(h) && Admitted(h, ceiling) && NotAfter(h, c.at) && c.weight >= 0.0
    ensures Sum(Recent(h, c.at)) + c.weight <= ceiling <==> HasRoom(h, c, ceiling)
  {
    hide *;
    if Sum(Recent(h, c.at)) + c.weight <= ceiling {
      RoomHolds(h, c, ceiling);
    }
    if HasRoom(h, c, ceiling) {
      RoomNeeded(h, c, ceiling);
    }
  }

  lemma Nothing(now: int)
    ensures Recent([], now) == [] && Sum([]) == 0.0
  {
  }

  lemma OneMore(h: seq<Spent>, i: nat, now: int)
    requires i < |h|
    ensures var r := Recent(h[..i], now);
            && Recent(h[..i + 1], now) == (if now - h[i].at < SECOND then r + [h[i]] else r)
            && Sum(r + [h[i]]) == Sum(r) + h[i].weight
  {
    assert h[..i + 1][..i] == h[..i];
    var r := Recent(h[..i], now);
    assert (r + [h[i]])[..|r|] == r;
  }

  class Window {
    const ceiling: real
    var buffer: array<Spent>
    var count: nat
    var calls: nat
    ghost var admitted: seq<Spent>
    ghost var last: int

    /** The buffer holds what the last call found recent of everything let through. */
    ghost predicate Valid()
      reads this, buffer
    {
      && count <= buffer.Length
      && buffer[..count] == Recent(admitted, last)
      && Ordered(admitted) && NotAfter(admitted, last) && Admitted(admitted, ceiling)
    }

    /** A window with nothing let through, for calls from start on, whichever instant that is. */
    constructor (ceiling: real, ghost start: int)
      ensures Valid() && fresh(buffer) && admitted == [] && last == start && this.ceiling == ceiling && calls == 0
    {
      this.ceiling := ceiling;
      buffer := new Spent[0];
      count, calls, admitted, last := 0, 0, [], start;
    }

    /** Drops, in place, what is a second old, and returns the weight that is left. */
    method Compact(now: int) returns (total: real)
      requires count <= buffer.Length
      modifies this`count, buffer
      ensures count <= buffer.Length
      ensures buffer[..count] == Recent(old(buffer[..count]), now) && total == Sum(buffer[..count])
    {
      hide Recent, Sum;
      ghost var was := buffer[..count];
      Nothing(now);
      var kept := 0;
      total := 0.0;
      for i := 0 to count
        invariant 0 <= kept <= i && count == |was| <= buffer.Length
        invariant buffer[..kept] == Recent(was[..i], now)
        invariant forall j | i <= j < count :: buffer[j] == was[j]
        invariant total == Sum(buffer[..kept])
      {
        var s := buffer[i];
        assert s == was[i];
        OneMore(was, i, now);
        if now - s.at < SECOND {
          assert Recent(was[..i], now) == buffer[..kept];
          buffer[kept] := s;
          kept := kept + 1;
          total := total + s.weight;
          assert buffer[..kept] == Recent(was[..i], now) + [s];
        }
      }
      assert was[..count] == was;
      count := kept;
    }

    /** Appends to the buffer, in place while it has room. */
    method Append(s: Spent)
      requires count <= buffer.Length
      modifies this`count, this`buffer, buffer
      ensures count <= buffer.Length && buffer[..count] == old(buffer[..count]) + [s]
      ensures buffer == old(buffer) || fresh(buffer)
    {
      if count == buffer.Length {
        var larger := new Spent[2 * count + 1](_ => s);
        for i := 0 to count
          invariant count == old(count) == buffer.Length < larger.Length && buffer == old(buffer)
          invariant buffer[..] == old(buffer[..])
          invariant forall j | 0 <= j < i :: larger[j] == buffer[j]
        {
          larger[i] := buffer[i];
        }
        assert larger[..count] == buffer[..count];
        buffer := larger;
      }
      buffer[count] := s;
      count := count + 1;
      assert buffer[..count] == old(buffer[..count]) + [s];
    }

    /** Lets a call through exactly when no half-open second would then hold more than the ceiling, and counts only
        those let through. The calls are numbered whatever comes of them. */
    method Admit(c: Spent) returns (ok: bool)
      requires Valid() && c.at >= last && c.weight >= 0.0
      modifies this`count, this`buffer, this`admitted, this`last, this`calls, buffer
      ensures Valid() && (buffer == old(buffer) || fresh(buffer)) && last == c.at && calls == old(calls) + 1
      ensures ok <==> HasRoom(old(admitted), c, ceiling)
      ensures admitted == if ok then old(admitted) + [c] else old(admitted)
    {
      hide Recent, Sum, HasRoom, Admitted, Ordered;
      calls := calls + 1;
      RoomExactly(admitted, c, ceiling);
      RecentOfRecent(admitted, last, c.at);
      var total := Compact(c.at);
      last := c.at;
      if total + c.weight > ceiling {
        return false;
      }
      OneMoreAdmitted(admitted, c, ceiling);
      Append(c);
      admitted := admitted + [c];
      ok := true;
    }
  }

  /** The calls let through, in order. */
  function LetThrough(calls: seq<Spent>, answers: seq<bool>): seq<Spent>
    requires |answers| == |calls|
  {
    if calls == [] then []
    else
      var k := |calls| - 1;
      var earlier := LetThrough(calls[..k], answers[..k]);
      if answers[k] then earlier + [calls[k]] else earlier
  }

  lemma OneMoreAnswer(calls: seq<Spent>, answers: seq<bool>, i: nat, ok: bool)
    requires i < |calls| && |answers| == i
    ensures LetThrough(calls[..i + 1], answers + [ok])
            == if ok then LetThrough(calls[..i], answers) + [calls[i]] else LetThrough(calls[..i], answers)
  {
    assert calls[..i + 1][..i] == calls[..i] && (answers + [ok])[..i] == answers;
  }

  /** Each call so far was let through exactly when there was room after the answers the earlier ones got. */
  ghost predicate AnsweredByRoom(calls: seq<Spent>, answers: seq<bool>, ceiling: real)
    requires |answers| <= |calls|
  {
    forall k | 0 <= k < |answers| ::
      answers[k] <==> HasRoom(LetThrough(calls[..k], answers[..k]), calls[k], ceiling)
  }

  lemma NothingThrough(calls: seq<Spent>, ceiling: real)
    ensures LetThrough(calls[..0], []) == [] && AnsweredByRoom(calls, [], ceiling)
  {
  }

  lemma OneMoreByRoom(calls: seq<Spent>, answers: seq<bool>, ok: bool, ceiling: real)
    requires |answers| < |calls| && AnsweredByRoom(calls, answers, ceiling)
    requires ok <==> HasRoom(LetThrough(calls[..|answers|], answers), calls[|answers|], ceiling)
    ensures AnsweredByRoom(calls, answers + [ok], ceiling)
  {
    hide HasRoom, LetThrough;
    assert forall k | 0 <= k <= |answers| :: (answers + [ok])[..k] == answers[..k];
    assert answers[..|answers|] == answers;
  }

  lemma OrderedAt(calls: seq<Spent>, i: nat)
    requires Ordered(calls) && i < |calls|
    ensures calls[i].weight >= 0.0
    ensures i + 1 < |calls| ==> calls[i].at <= calls[i + 1].at
  {
    assert calls[i] in calls;
  }

  /** Any run of calls at times that never go back, from a new window on: each is let through exactly when there is
      room after the answers the earlier ones got, and in the end no half-open second has let through more than the
      ceiling. */
  method AdmitEach(ceiling: real, calls: seq<Spent>) returns (answers: seq<bool>)
    requires Ordered(calls)
    ensures |answers| == |calls| && AnsweredByRoom(calls, answers, ceiling)
    ensures ceiling >= 0.0 ==> forall start :: InWindow(LetThrough(calls, answers), start) <= ceiling
  {
    hide InWindow, Admitted, Recent, HasRoom, LetThrough, Ordered, AnsweredByRoom;
    var w := new Window(ceiling, if calls == [] then 0 else calls[0].at);
    answers := [];
    NothingThrough(calls, ceiling);
    for i := 0 to |calls|
      invariant fresh(w) && fresh(w.buffer) && w.Valid() && w.ceiling == ceiling
      invariant |answers| == i && w.admitted == LetThrough(calls[..i], answers)
      invariant i < |calls| ==> w.last <= calls[i].at
      invariant AnsweredByRoom(calls, answers, ceiling)
    {
      OrderedAt(calls, i);
      var ok := w.Admit(calls[i]);
      OneMoreAnswer(calls, answers, i, ok);
      OneMoreByRoom(calls, answers, ok, ceiling);
      answers := answers + [ok];
    }
    assert calls[..|calls|] == calls;
    if ceiling >= 0.0 {
      forall start ensures InWindow(LetThrough(calls, answers), start) <= ceiling {
        NoWindowExceeds(w.admitted, ceiling, start);
      }
    }
  }
}
