/** What a run of the monitor does to one id, told as the events of its check thread: the debounce, interleaved. */
module MonitorHistory {
  import opened Debounce
  import opened MonitorRuns

  /** The thread's id is down. */
  predicate IsDown(s: State, t: Tid)
    requires t in s.pool
  {
    s.pool[t].id in s.down
  }

  /** The step from `s` to `s'` is thread `t` finishing a task() call. */
  predicate EndsTask(s: State, s': State, t: Tid)
    requires t in s.pool && t in s'.pool
  {
    (s.pool[t].phase.Deciding? || s.pool[t].phase.Writing?) && s'.pool[t].phase.Sleeping?
  }

  /**
   The debounce event of a step, as thread `t` and its id see it. A call that ends without a write read the status of
   that moment; one that ends with its write read the opposite of what it writes. A change of the status by anything
   else is interference.
   */
  function StepEvents(s: State, s': State, t: Tid): seq<Event>
    requires t in s.pool && t in s'.pool
  {
    if EndsTask(s, s', t) then
      if s.pool[t].phase.Deciding? then [Own(s.pool[t].phase.outcome, IsDown(s, t))]
      else [Own(s.pool[t].phase.outcome, !Failed(s.pool[t].phase.outcome))]
    else if IsDown(s, t) != IsDown(s', t) then [Other(IsDown(s', t))]
    else []
  }

  /** A thread whose id is down or not stands where the debounce has come to. */
  predicate Stands(th: Thread, down: bool, sofar: Status) {
    && down == sofar.down
    && (th.phase.Deciding? ==> th.counters == Count(sofar.counters, th.phase.outcome))
    && (th.phase.Writing? ==>
          th.counters == Count(sofar.counters, th.phase.outcome) && Reached(th.check, th.counters, th.phase.outcome))
    && (th.phase.Testing? || th.phase.Executing? || th.phase.Sleeping? ==> th.counters == sofar.counters)
  }

  /** Where thread `t` stands after `events`, its id having been `start` when the thread began. */
  ghost predicate Tracks(s: State, t: Tid, start: bool, events: seq<Event>)
    requires t in s.pool
  {
    Stands(s.pool[t], IsDown(s, t), RunDisturbed(s.pool[t].check, start, events))
  }

  lemma OneEventMore(check: Check, start: bool, events: seq<Event>, e: Event)
    ensures RunDisturbed(check, start, events + [e]) == Disturbed(check, RunDisturbed(check, start, events), e)
    ensures OwnRuns(events + [e]) == OwnRuns(events) + if e.Own? then [e.outcome] else []
  {
    assert (events + [e])[..|events|] == events;
  }

  /** What at most one event makes of where the debounce has come to. */
  function Then(check: Check, sofar: Status, events: seq<Event>): Status
    requires |events| <= 1
  {
    if events == [] then sofar else Disturbed(check, sofar, events[0])
  }

  lemma EventsThen(check: Check, start: bool, events: seq<Event>, more: seq<Event>)
    requires |more| <= 1
    ensures RunDisturbed(check, start, events + more) == Then(check, RunDisturbed(check, start, events), more)
  {
    if more == [] {
      assert events + more == events;
    } else {
      assert more == [more[0]];
      OneEventMore(check, start, events, more[0]);
    }
  }

  /** A decision without a write: the run took effect at once, with the status it read. */
  lemma DecisionStands(th: Thread, down: bool, th': Thread, down': bool, sofar: Status, o: Outcome)
    requires th.phase == Deciding(o) && Stands(th, down, sofar) && down' == down
    requires th' == if Reached(th.check, th.counters, o) && down != Failed(o)
                      then th.(phase := Writing(o)) else EndTask(th)
    ensures th'.phase.Sleeping? ==> Stands(th', down', Disturbed(th.check, sofar, Own(o, down)))
    ensures !th'.phase.Sleeping? ==> Stands(th', down', sofar)
  {
  }

  /** A write: the run takes effect now, with the opposite of what it writes as the status it read. */
  lemma WriteStands(th: Thread, down: bool, th': Thread, down': bool, sofar: Status, o: Outcome)
    requires th.phase == Writing(o) && Stands(th, down, sofar) && down' == Failed(o) && th' == EndTask(th)
    ensures Stands(th', down', Disturbed(th.check, sofar, Own(o, !Failed(o))))
  {
  }

  /** A thread's own step moves counters and status as the debounce says. */
  lemma OwnStepTracks(s: State, s': State, t: Tid, start: bool, events: seq<Event>)
    requires ThreadStep(s, s', t) && Tracks(s, t, start, events)
    ensures t in s'.pool && Tracks(s', t, start, events + StepEvents(s, s', t))
  {
    var th := s.pool[t];
    var sofar := RunDisturbed(th.check, start, events);
    var th', down' :| ThreadMoves(th, s.down, th', down') && s' == s.(pool := s.pool[t := th'], down := down');
    OwnMoveStands(s, s', t, sofar);
    EventsThen(th.check, start, events, StepEvents(s, s', t));
  }

  lemma OwnMoveStands(s: State, s': State, t: Tid, sofar: Status)
    requires ThreadStep(s, s', t) && Stands(s.pool[t], IsDown(s, t), sofar)
    ensures t in s'.pool && s'.pool[t].check == s.pool[t].check
    ensures Stands(s'.pool[t], IsDown(s', t), Then(s.pool[t].check, sofar, StepEvents(s, s', t)))
  {
    var th := s.pool[t];
    var th', down' :| ThreadMoves(th, s.down, th', down') && s' == s.(pool := s.pool[t := th'], down := down');
    if th.phase.Deciding? {
      DecisionStands(th, IsDown(s, t), th', IsDown(s', t), sofar, th.phase.outcome);
    } else if th.phase.Writing? {
      WriteStands(th, IsDown(s, t), th', IsDown(s', t), sofar, th.phase.outcome);
    }
  }

  /** A step that leaves the thread where it is, or stops it, is at most interference. */
  lemma OtherStepTracks(s: State, s': State, t: Tid, start: bool, events: seq<Event>)
    requires t in s.pool && t in s'.pool && Tracks(s, t, start, events)
    requires s'.pool[t].id == s.pool[t].id && s'.pool[t].check == s.pool[t].check
    requires s'.pool[t].phase == s.pool[t].phase || s'.pool[t].phase.Stopped?
    requires s'.pool[t].counters == s.pool[t].counters
    ensures Tracks(s', t, start, events + StepEvents(s, s', t))
  {
    EventsThen(s.pool[t].check, start, events, StepEvents(s, s', t));
  }

  lemma ManagerStepIsOther(s: State, s': State, t: Tid)
    requires ManagerStep(s, s') && t in s.pool
    ensures t in s'.pool && s'.pool[t].phase == s.pool[t].phase && s'.pool[t].counters == s.pool[t].counters
    ensures s'.pool[t].id == s.pool[t].id && s'.pool[t].check == s.pool[t].check
  {
    ManagerLeavesThreadsAlone(s, s');
    ManagerKeepsChecks(s, s');
  }

  lemma ManagerKeepsChecks(s: State, s': State)
    requires ManagerStep(s, s')
    ensures forall t :: t in s.pool ==>
              t in s'.pool && s'.pool[t].id == s.pool[t].id && s'.pool[t].check == s.pool[t].check
  {
  }

  /** Every step moves the thread's counters and its id's status as the debounce says of the step's events. */
  lemma StepTracks(s: State, s': State, t: Tid, start: bool, events: seq<Event>)
    requires Next(s, s') && t in s.pool && Tracks(s, t, start, events)
    ensures t in s'.pool && s'.pool[t].id == s.pool[t].id && s'.pool[t].check == s.pool[t].check
    ensures Tracks(s', t, start, events + StepEvents(s, s', t))
  {
    if ManagerStep(s, s') {
      ManagerStepIsOther(s, s', t);
      OtherStepTracks(s, s', t, start, events);
    } else if u: Tid :| ThreadStep(s, s', u) {
      if u == t {
        OwnStepTracks(s, s', t, start, events);
      } else {
        OtherStepTracks(s, s', t, start, events);
      }
    } else if u: Tid :| Crash(s, s', u) {
      OtherStepTracks(s, s', t, start, events);
    } else {
      var u: Tid :| ShutdownSignal(s, s', u);
      OtherStepTracks(s, s', t, start, events);
    }
  }

  // Whole runs.

  /** Steps `from` up to `n` of a run, as the thread and its id see them. */
  function History(run: seq<State>, t: Tid, from: nat, n: nat): seq<Event>
    requires from <= n < |run| && forall i :: from <= i <= n ==> t in run[i].pool
  {
    if n == from then [] else History(run, t, from, n - 1) + StepEvents(run[n - 1], run[n], t)
  }

  /** State `from` is the first with thread `t`: the manager has just started it. */
  ghost predicate StartsAt(run: seq<State>, t: Tid, from: nat) {
    0 < from < |run| && t in run[from].pool && t !in run[from - 1].pool
  }

  /** A thread starts before its first call, with counters 0. */
  lemma StartsFresh(run: seq<State>, t: Tid, from: nat)
    requires Behaviour(run) && StartsAt(run, t, from)
    ensures run[from].pool[t].phase == Testing && run[from].pool[t].counters == Counters(0, 0)
  {
    assert StepAt(run, from - 1);
    NewThreadIsFresh(run[from - 1], run[from], t);
  }

  lemma NewThreadIsFresh(s: State, s': State, t: Tid)
    requires Next(s, s') && t !in s.pool && t in s'.pool
    ensures s'.pool[t].phase == Testing && s'.pool[t].counters == Counters(0, 0)
  {
  }

  lemma {:induction false} StaysInPool(run: seq<State>, t: Tid, from: nat, n: nat)
    requires Behaviour(run) && from <= n < |run| && t in run[from].pool
    ensures forall i :: from <= i <= n ==>
              && t in run[i].pool && run[i].pool[t].id == run[from].pool[t].id
              && run[i].pool[t].check == run[from].pool[t].check
  {
    if from < n {
      StaysInPool(run, t, from, n - 1);
      assert StepAt(run, n - 1);
      StepKeepsThread(run[n - 1], run[n], t);
    }
  }

  lemma StepKeepsThread(s: State, s': State, t: Tid)
    requires Next(s, s') && t in s.pool
    ensures t in s'.pool && s'.pool[t].id == s.pool[t].id && s'.pool[t].check == s.pool[t].check
  {
    if ManagerStep(s, s') {
      ManagerKeepsChecks(s, s');
    }
  }

  /**
   In every run, from its start on, a thread's counters and its id's status are what the debounce makes of the thread's
   own outcomes and reads and of the interference by others.
   */
  lemma {:induction false} RunTracks(run: seq<State>, t: Tid, from: nat, n: nat)
    requires Behaviour(run) && StartsAt(run, t, from) && from <= n < |run|
    ensures forall i :: from <= i <= n ==> t in run[i].pool
    ensures Tracks(run[n], t, IsDown(run[from], t), History(run, t, from, n))
  {
    StaysInPool(run, t, from, n);
    if n == from {
      StartsFresh(run, t, from);
    } else {
      RunTracks(run, t, from, n - 1);
      assert StepAt(run, n - 1);
      StepTracks(run[n - 1], run[n], t, IsDown(run[from], t), History(run, t, from, n - 1));
    }
  }

  // A thread that is the only writer of its id.

  /** No step but the thread's own changes the status of its id: no other writer, and no cleaning. */
  ghost predicate OnlyWriter(run: seq<State>, t: Tid, from: nat, n: nat)
    requires from <= n < |run| && forall i :: from <= i <= n ==> t in run[i].pool
  {
    forall i :: from <= i < n ==> QuietAt(run, t, i)
  }

  predicate QuietAt(run: seq<State>, t: Tid, i: nat)
    requires i + 1 < |run| && t in run[i].pool && t in run[i + 1].pool
  {
    IsDown(run[i], t) != IsDown(run[i + 1], t) ==> EndsTask(run[i], run[i + 1], t)
  }

  /** Only own runs, each of which read the status as it was. */
  ghost predicate Undisturbed(check: Check, start: bool, events: seq<Event>) {
    events == []
    || (var n := |events| - 1;
        && events[n].Own? && events[n].seen == RunDisturbed(check, start, events[..n]).down
        && Undisturbed(check, start, events[..n]))
  }

  lemma UndisturbedGrows(check: Check, start: bool, events: seq<Event>, e: Event)
    requires Undisturbed(check, start, events)
    requires e.Own? && e.seen == RunDisturbed(check, start, events).down
    ensures Undisturbed(check, start, events + [e])
  {
    assert (events + [e])[..|events|] == events;
  }

  /** Undisturbed runs are plain debouncing. */
  lemma {:induction false} UndisturbedIsRun(check: Check, start: bool, events: seq<Event>)
    requires Undisturbed(check, start, events)
    ensures RunDisturbed(check, start, events) == Run(check, start, OwnRuns(events))
  {
    if events != [] {
      var n := |events| - 1;
      UndisturbedIsRun(check, start, events[..n]);
      OneRunMore(check, start, OwnRuns(events[..n]), events[n].outcome);
    }
  }

  lemma OneRunMore(check: Check, start: bool, runs: seq<Outcome>, o: Outcome)
    ensures Run(check, start, runs + [o]) == Step(check, Run(check, start, runs), o)
  {
    assert (runs + [o])[..|runs|] == runs;
  }

  /** Between reading the status and writing, an only writer's id keeps the status that was read. */
  ghost predicate WritesOpposite(s: State, t: Tid)
    requires t in s.pool
  {
    s.pool[t].phase.Writing? ==> IsDown(s, t) != Failed(s.pool[t].phase.outcome)
  }

  lemma WriterStep(s: State, s': State, t: Tid)
    requires Next(s, s') && t in s.pool && t in s'.pool && WritesOpposite(s, t)
    requires IsDown(s, t) != IsDown(s', t) ==> EndsTask(s, s', t)
    ensures WritesOpposite(s', t)
  {
    if ManagerStep(s, s') {
      ManagerStepIsOther(s, s', t);
    }
  }

  /** A step under an only writer is an undisturbed run or no event at all. */
  lemma OnlyWriterStep(s: State, s': State, t: Tid, start: bool, events: seq<Event>)
    requires Next(s, s') && t in s.pool && t in s'.pool && s'.pool[t].check == s.pool[t].check
    requires Tracks(s, t, start, events) && WritesOpposite(s, t)
    requires IsDown(s, t) != IsDown(s', t) ==> EndsTask(s, s', t)
    requires Undisturbed(s.pool[t].check, start, events)
    ensures Undisturbed(s.pool[t].check, start, events + StepEvents(s, s', t))
  {
    if EndsTask(s, s', t) {
      UndisturbedGrows(s.pool[t].check, start, events, StepEvents(s, s', t)[0]);
    } else {
      assert events + [] == events;
    }
  }

  lemma {:induction false} OnlyWriterIsUndisturbed(run: seq<State>, t: Tid, from: nat, n: nat)
    requires Behaviour(run) && StartsAt(run, t, from) && from <= n < |run|
    requires forall i :: from <= i <= n ==> t in run[i].pool
    requires OnlyWriter(run, t, from, n)
    ensures WritesOpposite(run[n], t)
    ensures Undisturbed(run[from].pool[t].check, IsDown(run[from], t), History(run, t, from, n))
  {
    if n == from {
      StartsFresh(run, t, from);
    } else {
      OnlyWriterIsUndisturbed(run, t, from, n - 1);
      assert StepAt(run, n - 1) && QuietAt(run, t, n - 1);
      WriterStep(run[n - 1], run[n], t);
      RunTracks(run, t, from, n - 1);
      StaysInPool(run, t, from, n);
      OnlyWriterStep(run[n - 1], run[n], t, IsDown(run[from], t), History(run, t, from, n - 1));
    }
  }

  /**
   The debounce of a run: while a thread is the only writer of its id and nothing cleans it, the id is down exactly when
   the windows of the thread's finished calls say so.
   */
  lemma OnlyWriterDebounces(run: seq<State>, t: Tid, from: nat, n: nat)
    requires Behaviour(run) && StartsAt(run, t, from) && from <= n < |run|
    requires run[from].pool[t].check.Valid()
    requires forall i :: from <= i <= n ==> t in run[i].pool
    requires OnlyWriter(run, t, from, n)
    ensures IsDown(run[n], t)
            <==> ShouldBeDown(run[from].pool[t].check, IsDown(run[from], t), OwnRuns(History(run, t, from, n)))
  {
    var check, start, events := run[from].pool[t].check, IsDown(run[from], t), History(run, t, from, n);
    StaysInPool(run, t, from, n);
    RunTracks(run, t, from, n);
    OnlyWriterIsUndisturbed(run, t, from, n);
    UndisturbedIsRun(check, start, events);
    DebounceClosedForm(check, start, OwnRuns(events));
  }

  // Threads that died.

  /** Where a thread that was dead when the reconcile began stands: still to be judged, to be stopped, or out. */
  ghost predicate OnItsWayOut(s: State, t: Tid) {
    && t in s.pool && !s.pool[t].Alive()
    && match s.mgr
       case Idle(_, _) => !Monitored(s, t)
       case Diffing(_, _, ids, stop, _) => Monitored(s, t) ==> s.pool[t].id in ids || t in stop
       case Signalling(_, _, _, stop, _) => Monitored(s, t) ==> t in stop
       case Popping(_, _, todo, _) => Monitored(s, t) ==> t in todo
       case Starting(_, _, _) => !Monitored(s, t)
       case Cleaning(_, _) => !Monitored(s, t)
  }

  lemma BeginSendsOut(s: State, s': State, desired: map<int, Check>, t: Tid)
    requires BeginReconcile(s, s', desired) && t in s.pool && !s.pool[t].Alive()
    ensures OnItsWayOut(s', t)
  {
  }

  lemma ManagerStepSendsOut(s: State, s': State, t: Tid)
    requires Inv(s) && ManagerStep(s, s') && !s.mgr.Idle? && OnItsWayOut(s, t)
    ensures OnItsWayOut(s', t)
  {
    ManagerStepIsOther(s, s', t);
  }

  lemma StepSendsOut(s: State, s': State, t: Tid)
    requires Inv(s) && Next(s, s') && !s.mgr.Idle? && OnItsWayOut(s, t)
    ensures OnItsWayOut(s', t)
  {
    if ManagerStep(s, s') {
      ManagerStepSendsOut(s, s', t);
    }
  }

  /** A thread that is dead when a reconcile begins is out of the table when it ends. */
  lemma {:induction false} DeadThreadsLeave(run: seq<State>, t: Tid, from: nat, n: nat)
    requires Behaviour(run) && from < n < |run| && run[from].mgr.Idle? && t in run[from].pool
    requires !run[from].pool[t].Alive() && forall i :: from < i < n ==> !run[i].mgr.Idle?
    requires run[from + 1].mgr.Diffing?
    ensures OnItsWayOut(run[n], t)
    ensures run[n].mgr.Idle? ==> forall id :: id in run[n].threads ==> run[n].threads[id] != t
  {
    if n == from + 1 {
      assert StepAt(run, from);
      var desired := run[n].mgr.desired;
      assert BeginReconcile(run[from], run[n], desired);
      BeginSendsOut(run[from], run[n], desired, t);
    } else {
      DeadThreadsLeave(run, t, from, n - 1);
      assert StepAt(run, n - 1);
      RunsKeepInvariant(run, n - 1);
      StepSendsOut(run[n - 1], run[n], t);
    }
    RunsKeepInvariant(run, n);
  }

  // The last call after a signal.

  /** `finished` counts exactly the calls that end once the thread is signalled. */
  lemma FinishedCounts(s: State, s': State, t: Tid)
    requires Next(s, s') && t in s.pool
    ensures t in s'.pool && (s.pool[t].signalled ==> s'.pool[t].signalled)
    ensures s'.pool[t].finished == s.pool[t].finished + if EndsTask(s, s', t) && s.pool[t].signalled then 1 else 0
  {
    if ManagerStep(s, s') {
      ManagerStepIsOther(s, s', t);
      ManagerKeepsSignals(s, s', t);
    }
  }

  lemma ManagerKeepsSignals(s: State, s': State, t: Tid)
    requires ManagerStep(s, s') && t in s.pool
    ensures t in s'.pool && (s.pool[t].signalled ==> s'.pool[t].signalled)
    ensures s'.pool[t].finished == s.pool[t].finished
  {
  }

  /** In no run does a thread end two calls after it was signalled. */
  lemma {:induction false} NoSecondCallAfterSignal(run: seq<State>, t: Tid, i: nat, j: nat)
    requires Behaviour(run) && i < j < |run| - 1 && t in run[i].pool && t in run[i + 1].pool
    requires run[i].pool[t].signalled && EndsTask(run[i], run[i + 1], t)
    ensures t in run[j].pool && t in run[j + 1].pool && !EndsTask(run[j], run[j + 1], t)
  {
    assert StepAt(run, i);
    FinishedCounts(run[i], run[i + 1], t);
    FinishedGrows(run, t, i + 1, j);
    assert StepAt(run, j);
    FinishedCounts(run[j], run[j + 1], t);
    RunsKeepInvariant(run, j + 1);
    assert OneMoreAtMost(run[j + 1].pool[t]);
  }

  lemma {:induction false} FinishedGrows(run: seq<State>, t: Tid, i: nat, j: nat)
    requires Behaviour(run) && i <= j < |run| && t in run[i].pool && run[i].pool[t].signalled
    ensures t in run[j].pool && run[j].pool[t].signalled && run[j].pool[t].finished >= run[i].pool[t].finished
  {
    if i < j {
      FinishedGrows(run, t, i, j - 1);
      assert StepAt(run, j - 1);
      FinishedCounts(run[j - 1], run[j], t);
    }
  }

  // One run.

  /** The manager starts the thread of record 7 in an empty monitor. */
  function StartingUp(check: Check): (run: seq<State>)
    ensures |run| == 8 && run[7] == State({}, map[0 := Starter(check)], map[7 := 0], Idle(map[7 := check], map[]), {0})
  {
    var desired: map<int, Check> := map[7 := check];
    var before: map<int, Tid> := map[];
    var s0 := State({}, map[], before, Idle(map[], before), {});
    var s5 := State({}, map[0 := Starter(check)], map[7 := 0], Starting(desired, before, {}), {0});
    [s0,
     s0.(mgr := Diffing(desired, before, {}, {}, {})),
     s0.(mgr := Signalling(desired, before, {}, {}, {7})),
     s0.(mgr := Popping(desired, before, {}, {7})),
     s0.(mgr := Starting(desired, before, {7})),
     s5,
     s5.(mgr := Cleaning(desired, before)),
     s5.(mgr := Idle(desired, before))]
  }

  function Starter(check: Check): Thread {
    Thread(7, check, Counters(0, 0), Testing, false, 0)
  }

  lemma StartingUpIsARun(check: Check)
    ensures Behaviour(StartingUp(check))
  {
    var run := StartingUp(check);
    var desired: map<int, Check> := map[7 := check];
    var before: map<int, Tid> := map[];
    var pool: map<Tid, Thread> := map[];
    assert before.Keys == {} && desired.Keys == {7};
    assert BeginReconcile(run[0], run[1], desired);
    assert run[1].mgr.start + (desired.Keys - run[1].threads.Keys) == {7};
    assert DiffDone(run[1], run[2]) && SignalDone(run[2], run[3]) && PopDone(run[3], run[4]);
    assert pool[0 := Starter(check)] == map[0 := Starter(check)] && before[7 := 0] == map[7 := 0];
    assert run[4].mgr.ids - {7} == {} && run[4].writers + {0} == {0};
    assert StartOne(run[4], run[5], 7, 0) && StartDone(run[5], run[6]);
    assert Potential(run[6]) == {0};
    assert Clean(run[6], run[7]);
    forall i | 0 <= i < |run| - 1
      ensures StepAt(run, i)
    {
    }
  }

  /** The states of the failing call that follows `s`: tested, executed, decided, written. */
  function FailingCall(s: State, th: Thread): seq<State> {
    var failed := th.(phase := Deciding(Failure), counters := Counters(1, 0));
    [s.(pool := map[0 := th.(phase := Executing)]),
     s.(pool := map[0 := failed]),
     s.(pool := map[0 := failed.(phase := Writing(Failure))]),
     s.(pool := map[0 := failed.(phase := Sleeping)], down := {7})]
  }

  lemma FailingCallSteps(s: State, check: Check)
    requires check.fall == 1 && s.pool == map[0 := Starter(check)] && s.down == {}
    ensures var call := FailingCall(s, Starter(check));
            Next(s, call[0]) && Next(call[0], call[1]) && Next(call[1], call[2]) && Next(call[2], call[3])
  {
    var th, call := Starter(check), FailingCall(s, Starter(check));
    var executing, failed := th.(phase := Executing), th.(phase := Deciding(Failure), counters := Counters(1, 0));
    OneThreadMoves(s, call[0], th, executing);
    OneThreadMoves(call[0], call[1], executing, failed);
    OneThreadMoves(call[1], call[2], failed, failed.(phase := Writing(Failure)));
    OneThreadMoves(call[2], call[3], failed.(phase := Writing(Failure)), failed.(phase := Sleeping));
  }

  lemma OneThreadMoves(s: State, s': State, th: Thread, th': Thread)
    requires s.pool == map[0 := th] && s' == s.(pool := map[0 := th'], down := s'.down)
    requires ThreadMoves(th, s.down, th', s'.down)
    ensures Next(s, s')
  {
    assert s.pool[0 := th'] == map[0 := th'];
    assert s' == s.(pool := s.pool[0 := th'], down := s'.down);
    assert ThreadStep(s, s', 0);
  }

  lemma OneStepMore(run: seq<State>, s: State)
    requires Behaviour(run) && Next(run[|run| - 1], s)
    ensures Behaviour(run + [s])
  {
    var more := run + [s];
    forall i | 0 <= i < |more| - 1
      ensures StepAt(more, i)
    {
      if i < |run| - 1 {
        assert StepAt(run, i);
      }
    }
  }

  /** A run: record 7 is monitored with fall 1, its first call fails, and its status goes down. */
  lemma FirstFailureMarksDown(check: Check) returns (run: seq<State>)
    requires check.fall == 1
    ensures Behaviour(run) && run[|run| - 1].down == {7} && run[|run| - 1].mgr.Idle?
    ensures run[|run| - 1].threads == map[7 := 0] && run[|run| - 1].mgr.desired == map[7 := check]
  {
    run := StartingUp(check);
    StartingUpIsARun(check);
    var call := FailingCall(run[7], Starter(check));
    FailingCallSteps(run[7], check);
    OneStepMore(run, call[0]);
    OneStepMore(run + [call[0]], call[1]);
    OneStepMore(run + [call[0]] + [call[1]], call[2]);
    OneStepMore(run + [call[0]] + [call[1]] + [call[2]], call[3]);
    run := run + [call[0]] + [call[1]] + [call[2]] + [call[3]];
  }
}
