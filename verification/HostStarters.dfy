/** The host's fields as its methods change them (process/host/host.go). */
module HostStarters {
  import opened Wrappers
  import opened Host

  /** started stands for the wait group's goroutines, in the order they started. */
  class Process {
    var joining: bool
    var started: seq<Phase<string>>
    var failures: seq<Failure>
    var failedClosed: bool
    var pools: seq<nat>
    ghost var closed: seq<nat>

    ghost function View(): Starters
      reads this
    {
      Starters(joining, started, failures, if failedClosed then 1 else 0)
    }

    ghost predicate Valid()
      reads this
    {
      StartersSound(View())
    }

    constructor ()
      ensures Valid() && View() == NONE_STARTED && pools == [] && closed == []
    {
      joining, started, failures, failedClosed, pools, closed := false, [], [], false, [], [];
    }

    /** Starts a goroutine, or, once joining, starts nothing and says so. */
    method Start() returns (ok: bool)
      requires Valid()
      modifies this`started
      ensures Valid() && View() == Started(old(View()))
      ensures ok <==> !joining
    {
      if joining {
        return false;
      }
      started := started + [Running];
      ok := true;
    }

    /** A started goroutine returns, and has nothing to report. */
    method Returned(j: nat)
      requires Valid() && j < |started| && started[j].Running?
      modifies this`started
      ensures Valid() && View() == Returns(old(View()), j)
    {
      started := started[j := Done(None)];
    }

    /** A started goroutine panics, which is recovered and has yet to be recorded. */
    method Panicked(j: nat, error: string)
      requires Valid() && j < |started| && started[j].Running?
      modifies this`started
      ensures Valid() && View() == Panics(old(View()), j, error)
    {
      started := started[j := Failing(error)];
    }

    /** Records the failure of a goroutine that ended with one. The channel it closes on the first is open. */
    method StartedFailed(j: nat)
      requires Valid() && j < |started| && started[j].Failing?
      modifies this`started, this`failures, this`failedClosed
      ensures Valid() && View() == Recorded(old(View()), j)
    {
      RecordKeeps(View(), j);
      if |failures| == 0 {
        assert !failedClosed;
        failedClosed := true;
      }
      failures := failures + [OfStarted(j, started[j].error)];
      started := started[j := Done(Some(started[j].error))];
    }

    method BeginJoin()
      requires Valid()
      modifies this`joining
      ensures Valid() && View() == Host.Joining(old(View()))
    {
      joining := true;
    }

    /** A pool that opens is kept to be closed, and one that does not is none of the host's. */
    method OpenPool(pool: Option<nat>)
      modifies this`pools
      ensures pools == old(pools) + if pool.Some? then [pool.value] else []
    {
      if pool.Some? {
        pools := pools + [pool.value];
      }
    }

    /** Closes every pool opened and not yet closed, once each, the goroutines having all returned. */
    method ClosePools()
      requires joining && AllDone(started)
      modifies this`pools, this`closed
      ensures pools == [] && closed == old(closed) + old(pools)
    {
      var open := pools;
      pools := [];
      for i := 0 to |open|
        invariant pools == [] && closed == old(closed) + open[..i]
      {
        closed := closed + [open[i]];
      }
      assert open[..|open|] == open;
    }
  }

  /** Draining one at a time as the state machine does leaves the same result. */
  lemma {:induction false} DrainsAll(s: State)
    requires s.main == Draining && s.received <= |s.sent|
    ensures var steps := seq(|s.sent| - s.received, _ => DrainOne);
            && Runs(s, steps)
            && After(s, steps) == s.(received := |s.sent|, result := s.result + s.sent[s.received..])
    decreases |s.sent| - s.received
  {
    var steps := seq(|s.sent| - s.received, _ => DrainOne);
    if s.received < |s.sent| {
      var t := Next(s, DrainOne);
      DrainsAll(t);
      assert steps[1..] == seq(|t.sent| - t.received, _ => DrainOne);
      assert s.sent[s.received..] == [s.sent[s.received]] + t.sent[t.received..];
    } else {
      assert steps == [];
    }
  }

  /** Receives whatever is waiting in the channel, in order, and nothing twice, as one step after another does. */
  method Drain(s: State) returns (errors: seq<Failure>)
    requires s.main == Draining && s.received <= |s.sent|
    ensures errors == s.sent[s.received..]
    ensures var steps := seq(|s.sent| - s.received, _ => DrainOne);
            && Runs(s, steps) && After(s, steps).received == |s.sent|
            && After(s, steps).result == s.result + errors
  {
    DrainsAll(s);
    errors := [];
    var next := s.received;
    while next < |s.sent|
      invariant s.received <= next <= |s.sent| && errors == s.sent[s.received..next]
    {
      errors := errors + [s.sent[next]];
      next := next + 1;
    }
  }
}
