/** The host's lifecycle as the steps its goroutines take (process/host/host.go). */
module Host {
  import opened Wrappers

  /** One goroutine's work: not started, running, ended with what it has yet to report, or done, with what it
      reported if anything. */
  datatype Phase<E> = Idle | Running | Failing(error: E) | Done(reported: Option<E>)

  /** A failure and whose it is, a task's, a server's, none for one that was shut down, or a started goroutine's. */
  datatype Failure = OfTask(task: nat, error: string) | OfServer(server: nat, ended: Option<string>)
                   | OfStarted(goroutine: nat, panic: string)

  // ---------------------------------------------------------------- what the starters' mutex guards

  /** closes counts how often the failed channel was closed. */
  datatype Starters = Starters(joining: bool, started: seq<Phase<string>>, failures: seq<Failure>, closes: nat)

  const NONE_STARTED := Starters(false, [], [], 0)

  /** A starter starts a goroutine unless the host waits for those already started. */
  function Started(l: Starters): Starters {
    if l.joining then l else l.(started := l.started + [Running])
  }

  function Returns(l: Starters, j: nat): Starters
    requires j < |l.started|
  {
    l.(started := l.started[j := Done(None)])
  }

  function Panics(l: Starters, j: nat, error: string): Starters
    requires j < |l.started|
  {
    l.(started := l.started[j := Failing(error)])
  }

  /** A failure is recorded, and the channel closed when it is the first. */
  function Recorded(l: Starters, j: nat): Starters
    requires j < |l.started| && l.started[j].Failing?
  {
    var e := l.started[j].error;
    l.(started := l.started[j := Done(Some(e))],
       closes := if l.failures == [] then l.closes + 1 else l.closes,
       failures := l.failures + [OfStarted(j, e)])
  }

  function Joining(l: Starters): Starters {
    l.(joining := true)
  }

  predicate AllDone(work: seq<Phase<string>>) {
    forall i | 0 <= i < |work| :: work[i].Done?
  }

  // ---------------------------------------------------------------- the whole process

  /** How a run ended: served and stopped, or stopped before it served, by an assembly that failed or by a listener
      or key pair that did. */
  datatype Ending = AfterServing | AssemblyFailed | StartFailed

  /** Where the goroutine that runs the process is. */
  datatype Main =
    | Assembling
    | Launching
    | Selecting
    | WaitingForTasks
    | WaitingForStarted
    | Draining
    | Closing
    | Aborting(ending: Ending)
    | Closed(ending: Ending)

  /** sent is every failure sent on the tasks' and servers' channel, the first `received` of them received. result is
      the error so far, and closedPools is set once the pools are closed. */
  datatype State = State(main: Main, tasks: seq<Phase<string>>, servers: seq<Phase<Option<string>>>, starters: Starters,
                         sent: seq<Failure>,
                         received: nat, result: seq<Failure>, closedPools: bool)

  function Capacity(s: State): nat {
    2 + |s.tasks|
  }

  datatype Step =
    | Start
    | Panic(j: nat, error: string)
    | Return(j: nat)
    | Record(j: nat)
    | Assembled
    | AssemblyFails
    | StartFails
    | Launch
    | Serve
    | TaskFails(i: nat, error: string)
    | TaskReturns(i: nat)
    | TaskSends(i: nat)
    | ServerEnds(k: nat, ended: Option<string>)
    | ServerSends(k: nat)
    | ReceiveFailure
    | SeeStartedFailure
    | ToldToStop
    | TasksReturned
    | StartedReturned
    | DrainOne
    | Drained
    | ClosePools

  function Initial(tasks: nat, servers: nat): State
    requires 1 <= servers <= 2
  {
    State(Assembling, seq(tasks, _ => Idle), seq(servers, _ => Idle), NONE_STARTED, [], 0, [], false)
  }

  function NextIdle(tasks: seq<Phase<string>>): (i: nat)
    ensures i <= |tasks| && (i < |tasks| ==> tasks[i].Idle?)
    ensures i == |tasks| ==> forall k | 0 <= k < |tasks| :: !tasks[k].Idle?
  {
    if tasks == [] then 0
    else
      var i := NextIdle(tasks[..|tasks| - 1]);
      if i < |tasks| - 1 || tasks[|tasks| - 1].Idle? then i else |tasks|
  }

  predicate Enabled(s: State, step: Step) {
    match step
    case Start => true
    case Panic(j, _) => j < |s.starters.started| && s.starters.started[j].Running?
    case Return(j) => j < |s.starters.started| && s.starters.started[j].Running?
    case Record(j) => j < |s.starters.started| && s.starters.started[j].Failing?
    case Assembled => s.main == Assembling
    case AssemblyFails => s.main == Assembling
    case StartFails => s.main == Assembling
    case Launch => s.main == Launching && NextIdle(s.tasks) < |s.tasks|
    case Serve => s.main == Launching && NextIdle(s.tasks) == |s.tasks|
    case TaskFails(i, _) => i < |s.tasks| && s.tasks[i].Running?
    case TaskReturns(i) => i < |s.tasks| && s.tasks[i].Running?
    case TaskSends(i) => i < |s.tasks| && s.tasks[i].Failing? && |s.sent| - s.received < Capacity(s)
    case ServerEnds(k, _) => k < |s.servers| && s.servers[k].Running?
    case ServerSends(k) => k < |s.servers| && s.servers[k].Failing? && |s.sent| - s.received < Capacity(s)
    case ReceiveFailure => s.main == Selecting && s.received < |s.sent|
    case SeeStartedFailure => s.main == Selecting && s.starters.closes > 0
    case ToldToStop => s.main == Selecting
    case TasksReturned => s.main == WaitingForTasks && AllDone(s.tasks)
    case StartedReturned => s.main == WaitingForStarted && AllDone(s.starters.started)
    case DrainOne => s.main == Draining && s.received < |s.sent|
    case Drained => s.main == Draining && s.received == |s.sent|
    case ClosePools => (s.main == Closing || s.main.Aborting?) && AllDone(s.starters.started)
  }

  function Next(s: State, step: Step): State
    requires Enabled(s, step)
  {
    match step
    case Start => s.(starters := Started(s.starters))
    case Panic(j, e) => s.(starters := Panics(s.starters, j, e))
    case Return(j) => s.(starters := Returns(s.starters, j))
    case Record(j) => s.(starters := Recorded(s.starters, j))
    case Assembled => s.(main := Launching, servers := seq(|s.servers|, _ => Running))
    case AssemblyFails => s.(main := Aborting(AssemblyFailed), starters := Joining(s.starters))
    case StartFails => s.(main := Aborting(StartFailed), starters := Joining(s.starters))
    case Launch => s.(tasks := s.tasks[NextIdle(s.tasks) := Running])
    case Serve => s.(main := Selecting)
    case TaskFails(i, e) => s.(tasks := s.tasks[i := Failing(e)])
    case TaskReturns(i) => s.(tasks := s.tasks[i := Done(None)])
    case TaskSends(i) =>
      s.(tasks := s.tasks[i := Done(Some(s.tasks[i].error))], sent := s.sent + [OfTask(i, s.tasks[i].error)])
    case ServerEnds(k, ended) => s.(servers := s.servers[k := Failing(ended)])
    case ServerSends(k) =>
      s.(servers := s.servers[k := Done(Some(s.servers[k].error))],
         sent := s.sent + [OfServer(k, s.servers[k].error)])
    case ReceiveFailure =>
      s.(main := WaitingForTasks, received := s.received + 1, result := s.result + [s.sent[s.received]])
    case SeeStartedFailure => s.(main := WaitingForTasks)
    case ToldToStop => s.(main := WaitingForTasks)
    case TasksReturned => s.(main := WaitingForStarted, starters := Joining(s.starters))
    case StartedReturned => s.(main := Draining)
    case DrainOne => s.(received := s.received + 1, result := s.result + [s.sent[s.received]])
    case Drained => s.(main := Closing, result := s.result + s.starters.failures)
    case ClosePools =>
      var ending := if s.main.Aborting? then s.main.ending else AfterServing;
      s.(main := Closed(ending), closedPools := true,
         result := if ending == AssemblyFailed then s.result + s.starters.failures else s.result)
  }

  predicate Runs(s: State, steps: seq<Step>)
    decreases |steps|
  {
    steps == [] || (Enabled(s, steps[0]) && Runs(Next(s, steps[0]), steps[1..]))
  }

  function After(s: State, steps: seq<Step>): State
    requires Runs(s, steps)
    decreases |steps|
  {
    if steps == [] then s else After(Next(s, steps[0]), steps[1..])
  }

  // ---------------------------------------------------------------- the invariant

  /** How many of the goroutines have sent their failure. */
  function Reported<E>(work: seq<Phase<E>>): (n: nat)
    ensures n <= |work|
  {
    if work == [] then 0
    else Reported(work[..|work| - 1]) + if work[|work| - 1].Done? && work[|work| - 1].reported.Some? then 1 else 0
  }

  /** What the channel holds is each task's and server's failure once, and it has room for every one still to come. */
  predicate ChannelSound(s: State) {
    && s.received <= |s.sent|
    && |s.sent| == Reported(s.tasks) + Reported(s.servers)
    && |s.servers| <= 2
    && (forall i | 0 <= i < |s.tasks| ::
          s.tasks[i].Done? && s.tasks[i].reported.Some? ==> OfTask(i, s.tasks[i].reported.value) in s.sent)
    && (forall f <- s.sent :: !f.OfStarted?)
    && (forall f <- s.sent :: f.OfTask? ==> f.task < |s.tasks| && s.tasks[f.task] == Done(Some(f.error)))
  }

  predicate StartersSound(l: Starters) {
    && l.closes == (if l.failures == [] then 0 else 1)
    && (forall j | 0 <= j < |l.started| ::
          !l.started[j].Idle? &&
          (l.started[j].Done? && l.started[j].reported.Some?
           ==> OfStarted(j, l.started[j].reported.value) in l.failures))
    && (forall f <- l.failures ::
          f.OfStarted? && f.goroutine < |l.started| && l.started[f.goroutine] == Done(Some(f.panic)))
  }

  predicate Serving(m: Main) {
    m == Launching || m == Selecting || m == WaitingForTasks || m == WaitingForStarted || m == Draining
  }

  predicate Waited(m: Main) {
    m == WaitingForStarted || m == Draining || m == Closing || m == Closed(AfterServing)
  }

  predicate Aborted(m: Main) {
    m.Aborting? || (m.Closed? && m.ending != AfterServing)
  }

  predicate Joined(m: Main) {
    m == Draining || m == Closing || m.Closed?
  }

  /** Every failure a task or a started goroutine raised is in the list. */
  predicate Complete(tasks: seq<Phase<string>>, started: seq<Phase<string>>, result: seq<Failure>) {
    && (forall i | 0 <= i < |tasks| ::
          tasks[i].Done? && tasks[i].reported.Some? ==> OfTask(i, tasks[i].reported.value) in result)
    && (forall j | 0 <= j < |started| ::
          started[j].Done? && started[j].reported.Some? ==> OfStarted(j, started[j].reported.value) in result)
  }

  /** Where the process is says what has returned, what is joined and what the result holds. */
  predicate MainSound(s: State) {
    && s.received <= |s.sent|
    && (s.starters.joining <==> Waited(s.main) || Aborted(s.main))
    && (s.main == Assembling || Aborted(s.main) ==>
          s.received == 0 && (forall i | 0 <= i < |s.tasks| :: s.tasks[i].Idle?))
    && (s.main == Assembling ==> forall k | 0 <= k < |s.servers| :: s.servers[k].Idle?)
    && (s.main == Assembling || s.main.Aborting? || s.main == Closed(StartFailed) ==> s.result == [])
    && (s.main.Aborting? ==> s.main.ending != AfterServing)
    && (Serving(s.main) ==> s.result == s.sent[..s.received])
    && (Waited(s.main) ==> AllDone(s.tasks))
    && (Joined(s.main) ==> AllDone(s.starters.started))
    && (s.main == Closing || s.main == Closed(AfterServing) || s.main == Closed(AssemblyFailed) ==>
          Complete(s.tasks, s.starters.started, s.result))
    && (s.closedPools <==> s.main.Closed?)
  }

  predicate Sound(s: State) {
    ChannelSound(s) && StartersSound(s.starters) && MainSound(s)
  }

  lemma {:induction false} NothingReported<E>(work: seq<Phase<E>>)
    requires forall i | 0 <= i < |work| :: !work[i].Done?
    ensures Reported(work) == 0
  {
    if work == [] {
    } else {
      NothingReported(work[..|work| - 1]);
    }
  }

  /** Changing one goroutine's phase changes the count by what it does to that one. */
  lemma {:induction false} ReportedAfter<E>(work: seq<Phase<E>>, i: nat, p: Phase<E>)
    requires i < |work|
    ensures Reported(work[i := p]) == Reported(work)
            + (if p.Done? && p.reported.Some? then 1 else 0)
            - (if work[i].Done? && work[i].reported.Some? then 1 else 0)
  {
    var changed := work[i := p];
    if i == |work| - 1 {
      assert changed[..|work| - 1] == work[..|work| - 1];
    } else {
      assert changed[..|work| - 1] == work[..|work| - 1][i := p];
      ReportedAfter(work[..|work| - 1], i, p);
    }
  }

  lemma InitialSound(tasks: nat, servers: nat)
    requires 1 <= servers <= 2
    ensures Sound(Initial(tasks, servers))
  {
    NothingReported(Initial(tasks, servers).tasks);
    NothingReported(Initial(tasks, servers).servers);
  }

  lemma ServersLaunched(s: State)
    requires ChannelSound(s) && MainSound(s) && s.main == Assembling
    ensures ChannelSound(Next(s, Assembled))
  {
    NothingReported(s.servers);
    NothingReported(Next(s, Assembled).servers);
  }

  lemma TaskMoved(s: State, i: nat, p: Phase<string>)
    requires ChannelSound(s) && i < |s.tasks| && !s.tasks[i].Done? && (p.Done? ==> p.reported.None?)
    ensures ChannelSound(s.(tasks := s.tasks[i := p]))
  {
    ReportedAfter(s.tasks, i, p);
  }

  lemma TaskSent(s: State, i: nat)
    requires ChannelSound(s) && Enabled(s, TaskSends(i))
    ensures ChannelSound(Next(s, TaskSends(i)))
  {
    ReportedAfter(s.tasks, i, Done(Some(s.tasks[i].error)));
  }

  lemma ServerMoved(s: State, k: nat, e: Option<string>)
    requires ChannelSound(s) && k < |s.servers| && s.servers[k].Running?
    ensures ChannelSound(s.(servers := s.servers[k := Failing(e)]))
  {
    ReportedAfter(s.servers, k, Failing(e));
  }

  lemma ServerSent(s: State, k: nat)
    requires ChannelSound(s) && Enabled(s, ServerSends(k))
    ensures ChannelSound(Next(s, ServerSends(k)))
  {
    ReportedAfter(s.servers, k, Done(Some(s.servers[k].error)));
  }

  lemma ChannelUntouched(s: State, step: Step)
    requires ChannelSound(s) && Enabled(s, step)
    requires !step.Assembled? && !step.Launch? && !step.TaskFails? && !step.TaskReturns? && !step.TaskSends?
             && !step.ServerEnds? && !step.ServerSends?
    ensures ChannelSound(Next(s, step))
  {
  }

  lemma ChannelKept(s: State, step: Step)
    requires ChannelSound(s) && MainSound(s) && Enabled(s, step)
    ensures ChannelSound(Next(s, step))
  {
    match step {
      case Assembled => ServersLaunched(s);
      case Launch => TaskMoved(s, NextIdle(s.tasks), Running);
      case TaskFails(i, e) => TaskMoved(s, i, Failing(e));
      case TaskReturns(i) => TaskMoved(s, i, Done(None));
      case TaskSends(i) => TaskSent(s, i);
      case ServerEnds(k, e) => ServerMoved(s, k, e);
      case ServerSends(k) => ServerSent(s, k);
      case _ => ChannelUntouched(s, step);
    }
  }

  lemma RecordKeeps(l: Starters, j: nat)
    requires StartersSound(l) && j < |l.started| && l.started[j].Failing?
    ensures StartersSound(Recorded(l, j))
  {
    var after := Recorded(l, j);
    assert OfStarted(j, l.started[j].error) in after.failures;
    forall i | 0 <= i < |after.started| && i != j ensures after.started[i] == l.started[i] {
    }
  }

  lemma StartersKept(s: State, step: Step)
    requires StartersSound(s.starters) && Enabled(s, step)
    ensures StartersSound(Next(s, step).starters)
  {
    match step {
      case Record(j) => RecordKeeps(s.starters, j);
      case _ =>
    }
  }

  lemma StarterStepKeeps(s: State, step: Step)
    requires Sound(s) && Enabled(s, step) && (step.Start? || step.Panic? || step.Return? || step.Record?)
    ensures MainSound(Next(s, step))
  {
    hide ChannelSound, StartersSound;
  }

  lemma WorkStepKeeps(s: State, step: Step)
    requires Sound(s) && Enabled(s, step)
    requires step.TaskFails? || step.TaskReturns? || step.TaskSends? || step.ServerEnds? || step.ServerSends?
    ensures MainSound(Next(s, step))
  {
    hide ChannelSound, StartersSound;
    assert Next(s, step).sent[..s.received] == s.sent[..s.received];
  }

  lemma ReceivingKeeps(s: State, step: Step)
    requires Sound(s) && Enabled(s, step) && (step.ReceiveFailure? || step.DrainOne?)
    ensures MainSound(Next(s, step))
  {
    hide ChannelSound, StartersSound;
    assert s.sent[..s.received + 1] == s.sent[..s.received] + [s.sent[s.received]];
  }

  lemma DrainedComplete(s: State)
    requires Sound(s) && s.main == Draining && s.received == |s.sent|
    ensures Complete(s.tasks, s.starters.started, s.result + s.starters.failures)
  {
    assert s.sent[..|s.sent|] == s.sent;
  }

  lemma DrainedKeeps(s: State)
    requires Sound(s) && Enabled(s, Drained)
    ensures MainSound(Next(s, Drained))
  {
    DrainedComplete(s);
    hide ChannelSound, StartersSound, Complete;
  }

  lemma ClosedComplete(s: State)
    requires Sound(s) && (s.main == Closing || s.main.Aborting?) && AllDone(s.starters.started)
    ensures var t := Next(s, ClosePools);
            t.main == Closed(AfterServing) || t.main == Closed(AssemblyFailed) ==>
              Complete(t.tasks, t.starters.started, t.result)
  {
  }

  lemma ClosingKeeps(s: State)
    requires Sound(s) && Enabled(s, ClosePools)
    ensures MainSound(Next(s, ClosePools))
  {
    ClosedComplete(s);
    hide ChannelSound, StartersSound, Complete;
  }

  lemma MovingOnKeeps(s: State, step: Step)
    requires Sound(s) && Enabled(s, step)
    requires step.Assembled? || step.AssemblyFails? || step.StartFails? || step.Launch? || step.Serve?
             || step.SeeStartedFailure? || step.ToldToStop? || step.TasksReturned? || step.StartedReturned?
    ensures MainSound(Next(s, step))
  {
    hide ChannelSound, StartersSound, Complete;
  }

  lemma MainKept(s: State, step: Step)
    requires Sound(s) && Enabled(s, step)
    ensures MainSound(Next(s, step))
  {
    hide Sound, MainSound, Next, Enabled;
    match step {
      case Start => StarterStepKeeps(s, step);
      case Panic(_, _) => StarterStepKeeps(s, step);
      case Return(_) => StarterStepKeeps(s, step);
      case Record(_) => StarterStepKeeps(s, step);
      case TaskFails(_, _) => WorkStepKeeps(s, step);
      case TaskReturns(_) => WorkStepKeeps(s, step);
      case TaskSends(_) => WorkStepKeeps(s, step);
      case ServerEnds(_, _) => WorkStepKeeps(s, step);
      case ServerSends(_) => WorkStepKeeps(s, step);
      case ReceiveFailure => ReceivingKeeps(s, step);
      case DrainOne => ReceivingKeeps(s, step);
      case Drained => DrainedKeeps(s);
      case ClosePools => ClosingKeeps(s);
      case _ => MovingOnKeeps(s, step);
    }
  }

  lemma StepKeeps(s: State, step: Step)
    requires Sound(s) && Enabled(s, step)
    ensures Sound(Next(s, step))
  {
    hide ChannelSound, StartersSound, MainSound, Enabled, Next;
    ChannelKept(s, step);
    StartersKept(s, step);
    MainKept(s, step);
  }

  lemma {:induction false} RunsKeep(s: State, steps: seq<Step>)
    requires Sound(s) && Runs(s, steps)
    ensures Sound(After(s, steps))
    decreases |steps|
  {
    if steps == [] {
    } else {
      StepKeeps(s, steps[0]);
      RunsKeep(Next(s, steps[0]), steps[1..]);
    }
  }

  // ---------------------------------------------------------------- what holds in every interleaving

  lemma {:induction false} JoinedStays(s: State, steps: seq<Step>)
    requires Runs(s, steps) && s.starters.joining
    ensures After(s, steps).starters.joining && |After(s, steps).starters.started| == |s.starters.started|
    decreases |steps|
  {
    if steps == [] {
    } else {
      JoinedStays(Next(s, steps[0]), steps[1..]);
    }
  }

  /** Once the host waits for its goroutines, nothing starts, whoever asks. */
  lemma NothingStartsOnceJoining(tasks: nat, servers: nat, before: seq<Step>, more: seq<Step>)
    requires 1 <= servers <= 2 && Runs(Initial(tasks, servers), before)
    requires var s := After(Initial(tasks, servers), before); s.starters.joining && Runs(s, more)
    ensures var s := After(Initial(tasks, servers), before);
            |After(s, more).starters.started| == |s.starters.started|
  {
    JoinedStays(After(Initial(tasks, servers), before), more);
  }

  /** A starter starts a goroutine exactly until the host, its tasks all returned, waits for what was started, or until
      a start that failed is undone. */
  lemma StartsExactly(tasks: nat, servers: nat, steps: seq<Step>)
    requires 1 <= servers <= 2 && Runs(Initial(tasks, servers), steps)
    ensures var s := After(Initial(tasks, servers), steps);
            |Next(s, Start).starters.started| == |s.starters.started| + 1
            <==> s.main == Assembling || s.main == Launching || s.main == Selecting || s.main == WaitingForTasks
  {
    InitialSound(tasks, servers);
    RunsKeep(Initial(tasks, servers), steps);
  }

  /** Pools are closed only after every task that was launched and every goroutine that was started has returned and
      reported. */
  lemma PoolsCloseLast(tasks: nat, servers: nat, steps: seq<Step>)
    requires 1 <= servers <= 2 && Runs(Initial(tasks, servers), steps)
    ensures var s := After(Initial(tasks, servers), steps);
            s.closedPools ==> AllDone(s.starters.started) && s.starters.joining
                              && (AllDone(s.tasks) || forall i | 0 <= i < |s.tasks| :: s.tasks[i].Idle?)
  {
    InitialSound(tasks, servers);
    RunsKeep(Initial(tasks, servers), steps);
  }

  lemma ChannelClosesOnce(tasks: nat, servers: nat, steps: seq<Step>)
    requires 1 <= servers <= 2 && Runs(Initial(tasks, servers), steps)
    ensures var s := After(Initial(tasks, servers), steps);
            s.starters.closes <= 1 && (s.starters.closes == 1 <==> s.starters.failures != [])
  {
    InitialSound(tasks, servers);
    RunsKeep(Initial(tasks, servers), steps);
  }

  /** No task or server ever blocks reporting how it ended. */
  lemma NoSendBlocks(tasks: nat, servers: nat, steps: seq<Step>)
    requires 1 <= servers <= 2 && Runs(Initial(tasks, servers), steps)
    ensures var s := After(Initial(tasks, servers), steps);
            && (forall i | 0 <= i < |s.tasks| && s.tasks[i].Failing? :: Enabled(s, TaskSends(i)))
            && (forall k | 0 <= k < |s.servers| && s.servers[k].Failing? :: Enabled(s, ServerSends(k)))
  {
    InitialSound(tasks, servers);
    RunsKeep(Initial(tasks, servers), steps);
    var s := After(Initial(tasks, servers), steps);
    forall i | 0 <= i < |s.tasks| && s.tasks[i].Failing? ensures Enabled(s, TaskSends(i)) {
      ReportedAfter(s.tasks, i, Done(Some("")));
    }
    forall k | 0 <= k < |s.servers| && s.servers[k].Failing? ensures Enabled(s, ServerSends(k)) {
      ReportedAfter(s.servers, k, Done(Some(None)));
    }
  }

  /** A run that served returns every failure a task or a started goroutine raised. So does one whose assembly failed.
      One whose listener or key pair failed returns none of them. */
  lemma ErrorIsComplete(tasks: nat, servers: nat, steps: seq<Step>)
    requires 1 <= servers <= 2 && Runs(Initial(tasks, servers), steps)
    ensures var s := After(Initial(tasks, servers), steps);
            s.main.Closed? ==>
              if s.main.ending == StartFailed then s.result == []
              else Complete(s.tasks, s.starters.started, s.result)
  {
    InitialSound(tasks, servers);
    RunsKeep(Initial(tasks, servers), steps);
  }

  lemma StepRaises(s: State, step: Step)
    requires Enabled(s, step) && (forall f <- s.result :: f in s.sent || f in s.starters.failures)
    ensures var t := Next(s, step);
            forall f <- t.result :: f in t.sent || f in t.starters.failures
  {
    var t := Next(s, step);
    assert s.sent <= t.sent && s.starters.failures <= t.starters.failures;
    assert forall g <- s.sent :: g in t.sent;
    assert forall g <- s.starters.failures :: g in t.starters.failures;
  }

  lemma {:induction false} RunRaises(s: State, steps: seq<Step>)
    requires Runs(s, steps) && (forall f <- s.result :: f in s.sent || f in s.starters.failures)
    ensures forall f <- After(s, steps).result :: f in After(s, steps).sent || f in After(s, steps).starters.failures
    decreases |steps|
  {
    if steps == [] {
    } else {
      hide Enabled, Next;
      StepRaises(s, steps[0]);
      RunRaises(Next(s, steps[0]), steps[1..]);
    }
  }

  /** And it returns nothing that was not raised. */
  lemma ResultIsRaised(tasks: nat, servers: nat, steps: seq<Step>)
    requires 1 <= servers <= 2 && Runs(Initial(tasks, servers), steps)
    ensures var s := After(Initial(tasks, servers), steps);
            forall f <- s.result :: f in s.sent || f in s.starters.failures
  {
    RunRaises(Initial(tasks, servers), steps);
  }

  lemma {:induction false} OneStep(s: State, steps: seq<Step>, step: Step)
    requires Runs(s, steps) && Enabled(After(s, steps), step)
    ensures Runs(s, steps + [step]) && After(s, steps + [step]) == Next(After(s, steps), step)
    decreases |steps|
  {
    hide Enabled, Next;
    var all := steps + [step];
    if steps == [] {
      assert all[1..] == [];
      assert Runs(Next(s, step), []) && After(Next(s, step), []) == Next(s, step);
    } else {
      assert all[1..] == steps[1..] + [step];
      OneStep(Next(s, steps[0]), steps[1..], step);
    }
  }

  ghost predicate Reaches(s: State, t: State) {
    exists steps :: Runs(s, steps) && After(s, steps) == t
  }

  lemma ReachesItself(s: State)
    ensures Reaches(s, s)
  {
    assert Runs(s, []) && After(s, []) == s;
  }

  lemma ReachesNext(s: State, t: State, step: Step)
    requires Reaches(s, t) && Enabled(t, step)
    ensures Reaches(s, Next(t, step))
  {
    hide Enabled, Next;
    var steps :| Runs(s, steps) && After(s, steps) == t;
    OneStep(s, steps, step);
  }

  predicate DroppedPanic(s: State) {
    s.main == Closed(StartFailed) && s.starters.failures != [] && s.result == []
  }

  /** A start whose key pair or listener fails drops a started goroutine's panic from what it returns. */
  lemma FailedStartDropsPanics()
    ensures exists s :: Reaches(Initial(0, 1), s) && DroppedPanic(s)
  {
    hide Reaches;
    var s0 := Initial(0, 1);
    ReachesItself(s0);
    ReachesNext(s0, s0, Start);
    var s1 := Next(s0, Start);
    ReachesNext(s0, s1, Panic(0, "p"));
    var s2 := Next(s1, Panic(0, "p"));
    ReachesNext(s0, s2, Record(0));
    var s3 := Next(s2, Record(0));
    ReachesNext(s0, s3, StartFails);
    var s4 := Next(s3, StartFails);
    ReachesNext(s0, s4, ClosePools);
    assert DroppedPanic(Next(s4, ClosePools));
  }

  /** The host waits for a task and a starter still starts. */
  predicate WaitingStarts(s: State) {
    && s.main == WaitingForTasks && !AllDone(s.tasks)
    && |Next(s, Start).starters.started| == |s.starters.started| + 1
  }

  /** One task and the probe server are under way. */
  const UNDER_WAY := State(Launching, [Running], [Running], NONE_STARTED, [], 0, [], false)

  lemma OneTaskUnderWay()
    ensures Reaches(Initial(1, 1), UNDER_WAY)
  {
    hide Reaches;
    var s0 := Initial(1, 1);
    ReachesItself(s0);
    ReachesNext(s0, s0, Assembled);
    var s1 := Next(s0, Assembled);
    assert NextIdle(s1.tasks[..0]) == 0 && s1.tasks[0].Idle?;
    ReachesNext(s0, s1, Launch);
    assert Next(s1, Launch) == UNDER_WAY;
  }

  /** A starter goes on starting goroutines while the host waits for its tasks. */
  lemma StartsWhileTasksRun()
    ensures exists s :: Reaches(Initial(1, 1), s) && WaitingStarts(s)
  {
    hide Reaches, Initial;
    OneTaskUnderWay();
    var s := UNDER_WAY;
    assert NextIdle(s.tasks) == 1;
    ReachesNext(Initial(1, 1), s, Serve);
    var serving := Next(s, Serve);
    ReachesNext(Initial(1, 1), serving, ToldToStop);
    assert WaitingStarts(Next(serving, ToldToStop));
  }
}
