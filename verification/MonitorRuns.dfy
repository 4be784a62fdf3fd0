/**
 The health monitor as interleaved atomic steps: check threads run, decide and write on their own while the manager
 reconciles them against the desired checks. A step of the model is one access to shared state.
 */
module MonitorRuns {
  import opened Debounce

  type Tid = nat

  /** Where a thread is in its loop: about to test its shutdown flag, inside task(), asleep, or gone. */
  datatype Phase = Testing | Executing | Deciding(outcome: Outcome) | Writing(outcome: Outcome) | Sleeping | Stopped

  /** `finished` counts the task() calls completed after the shutdown signal. */
  datatype Thread = Thread(id: int, check: Check, counters: Counters, phase: Phase, signalled: bool, finished: nat) {
    predicate Alive() {
      phase != Stopped
    }

    predicate InTask() {
      phase.Executing? || phase.Deciding? || phase.Writing?
    }
  }

  /**
   The manager's place in `_reconcile`; `before` is the thread table the reconcile started from. Dictionaries are
   walked in any order.
   */
  datatype Manager =
    | Idle(desired: map<int, Check>, before: map<int, Tid>)
    | Diffing(desired: map<int, Check>, before: map<int, Tid>, ids: set<int>, stop: set<Tid>, start: set<int>)
    | Signalling(desired: map<int, Check>, before: map<int, Tid>, todo: set<Tid>, stop: set<Tid>, start: set<int>)
    | Popping(desired: map<int, Check>, before: map<int, Tid>, todo: set<Tid>, start: set<int>)
    | Starting(desired: map<int, Check>, before: map<int, Tid>, ids: set<int>)
    | Cleaning(desired: map<int, Check>, before: map<int, Tid>)

  /**
   `down` is the registry, `threads` the manager's table. `writers` is history only: the threads that were alive when
   the registry was last cleaned, and those started since.
   */
  datatype State = State(down: set<int>, pool: map<Tid, Thread>, threads: map<int, Tid>, mgr: Manager,
                         writers: set<Tid>)

  ghost predicate Init(s: State) {
    s == State({}, map[], map[], Idle(map[], map[]), {})
  }

  /** The manager's table holds the thread under its id. */
  predicate Monitored(s: State, t: Tid) {
    t in s.pool && s.pool[t].id in s.threads && s.threads[s.pool[t].id] == t
  }

  // Steps.

  /** A task() call ends: it counts towards the calls finished after the signal. */
  function EndTask(th: Thread): Thread {
    th.(phase := Sleeping, finished := if th.signalled then th.finished + 1 else th.finished)
  }

  ghost predicate ThreadStep(s: State, s': State, t: Tid) {
    t in s.pool
    && var th := s.pool[t];
       exists th': Thread, down': set<int> :: ThreadMoves(th, s.down, th', down')
         && s' == s.(pool := s.pool[t := th'], down := down')
  }

  ghost predicate ThreadMoves(th: Thread, down: set<int>, th': Thread, down': set<int>) {
    match th.phase
    case Testing => down' == down && th' == th.(phase := if th.signalled then Stopped else Executing)
    case Executing =>
      down' == down
      && exists o :: th' == th.(phase := Deciding(o), counters := Count(th.counters, o))
    case Deciding(o) =>
      down' == down
      && th' == if Reached(th.check, th.counters, o) && (th.id in down) != Failed(o)
                then th.(phase := Writing(o)) else EndTask(th)
    case Writing(o) => down' == (if Failed(o) then down + {th.id} else down - {th.id}) && th' == EndTask(th)
    case Sleeping => down' == down && th' == th.(phase := Testing)
    case Stopped => false
  }

  /** A thread dies of something `task` does not catch. */
  ghost predicate Crash(s: State, s': State, t: Tid) {
    t in s.pool && s.pool[t].Alive() && s' == s.(pool := s.pool[t := s.pool[t].(phase := Stopped)])
  }

  function Signal(pool: map<Tid, Thread>, t: Tid): map<Tid, Thread>
    requires t in pool
  {
    pool[t := pool[t].(signalled := true)]
  }

  /** `MonitorManager.shutdown`, from another thread, signals any thread it once found in the table. */
  ghost predicate ShutdownSignal(s: State, s': State, t: Tid) {
    t in s.pool && s' == s.(pool := Signal(s.pool, t))
  }

  ghost predicate BeginReconcile(s: State, s': State, desired: map<int, Check>) {
    s.mgr.Idle? && s' == s.(mgr := Diffing(desired, s.threads, s.threads.Keys, {}, {}))
  }

  /** One turn of the diff loop. */
  ghost predicate DiffOne(s: State, s': State, id: int) {
    s.mgr.Diffing? && id in s.mgr.ids && id in s.threads && s.threads[id] in s.pool
    && var m, t := s.mgr, s.threads[id];
       var stopIt := id !in m.desired || !s.pool[t].Alive() || s.pool[t].check != m.desired[id];
       s' == s.(mgr := m.(ids := m.ids - {id},
                          stop := if stopIt then m.stop + {t} else m.stop,
                          start := if stopIt && id in m.desired then m.start + {id} else m.start))
  }

  /** The second loop adds the ids that have no thread yet. */
  ghost predicate DiffDone(s: State, s': State) {
    s.mgr.Diffing? && s.mgr.ids == {}
    && var m := s.mgr;
       s' == s.(mgr := Signalling(m.desired, m.before, m.stop, m.stop, m.start + (m.desired.Keys - s.threads.Keys)))
  }

  /** The first loop of `_stop_threads`: a thread that is alive is signalled. */
  ghost predicate SignalOne(s: State, s': State, t: Tid) {
    s.mgr.Signalling? && t in s.mgr.todo && t in s.pool
    && s' == s.(mgr := Signalling(s.mgr.desired, s.mgr.before, s.mgr.todo - {t}, s.mgr.stop, s.mgr.start),
                pool := if s.pool[t].Alive() then Signal(s.pool, t) else s.pool)
  }

  /** Waiting for the threads changes nothing shared, so the join loop is the steps the threads take meanwhile. */
  ghost predicate SignalDone(s: State, s': State) {
    s.mgr.Signalling? && s.mgr.todo == {}
    && s' == s.(mgr := Popping(s.mgr.desired, s.mgr.before, s.mgr.stop, s.mgr.start))
  }

  ghost predicate PopOne(s: State, s': State, t: Tid) {
    s.mgr.Popping? && t in s.mgr.todo && t in s.pool
    && s' == s.(mgr := s.mgr.(todo := s.mgr.todo - {t}), threads := s.threads - {s.pool[t].id})
  }

  ghost predicate PopDone(s: State, s': State) {
    s.mgr.Popping? && s.mgr.todo == {} && s' == s.(mgr := Starting(s.mgr.desired, s.mgr.before, s.mgr.start))
  }

  ghost predicate StartOne(s: State, s': State, id: int, t: Tid) {
    s.mgr.Starting? && id in s.mgr.ids && id in s.mgr.desired && t !in s.pool
    && s' == s.(mgr := s.mgr.(ids := s.mgr.ids - {id}), threads := s.threads[id := t], writers := s.writers + {t},
                pool := s.pool[t := Thread(id, s.mgr.desired[id], Counters(0, 0), Testing, false, 0)])
  }

  ghost predicate StartDone(s: State, s': State) {
    s.mgr.Starting? && s.mgr.ids == {} && s' == s.(mgr := Cleaning(s.mgr.desired, s.mgr.before))
  }

  /** The threads that may still write: monitored, or alive. */
  function Potential(s: State): set<Tid> {
    set t | t in s.pool && (s.pool[t].Alive() || Monitored(s, t))
  }

  /** `_clean_status`: ids that are no longer desired leave the registry. */
  ghost predicate Clean(s: State, s': State) {
    s.mgr.Cleaning?
    && s' == s.(mgr := Idle(s.mgr.desired, s.mgr.before), down := s.down * s.mgr.desired.Keys,
                writers := Potential(s))
  }

  ghost predicate ManagerStep(s: State, s': State) {
    (exists d :: BeginReconcile(s, s', d)) || (exists id :: DiffOne(s, s', id)) || DiffDone(s, s')
    || (exists t :: SignalOne(s, s', t)) || SignalDone(s, s') || (exists t :: PopOne(s, s', t)) || PopDone(s, s')
    || (exists id, t :: StartOne(s, s', id, t)) || StartDone(s, s') || Clean(s, s')
  }

  ghost predicate Next(s: State, s': State) {
    ManagerStep(s, s') || (exists t :: ThreadStep(s, s', t)) || (exists t :: Crash(s, s', t))
    || (exists t :: ShutdownSignal(s, s', t))
  }

  // The invariant.

  /** The table maps each id to a thread of that id. */
  ghost predicate TableOk(s: State) {
    forall id :: id in s.threads ==> s.threads[id] in s.pool && s.pool[s.threads[id]].id == id
  }

  /** After its signal a thread finishes at most the task() call it is in. */
  predicate OneMoreAtMost(th: Thread) {
    th.finished + (if th.signalled && th.InTask() then 1 else 0) <= 1 && (!th.signalled ==> th.finished == 0)
  }

  ghost predicate SignalOk(s: State) {
    forall t :: t in s.pool ==> OneMoreAtMost(s.pool[t])
  }

  /** Only writers can be alive, and only their ids can be down. */
  ghost predicate WritersOk(s: State) {
    && s.writers <= s.pool.Keys && Potential(s) <= s.writers
    && (forall id :: id in s.down ==> exists t :: t in s.writers && s.pool[t].id == id)
  }

  ghost predicate Ready(s: State, t: Tid) {
    t in s.pool && (s.pool[t].Alive() ==> s.pool[t].signalled)
  }

  /** Every thread that left the table was signalled before. */
  ghost predicate LeaversSignalled(s: State) {
    forall t :: t in s.pool && !Monitored(s, t) ==> Ready(s, t)
  }

  ghost predicate Fits(s: State, desired: map<int, Check>, id: int) {
    id in desired && id in s.threads && s.threads[id] in s.pool && s.pool[s.threads[id]].check == desired[id]
  }

  ghost predicate StillWanted(s: State, desired: map<int, Check>, before: map<int, Tid>, id: int) {
    id in before && id in desired && before[id] in s.pool && s.pool[before[id]].Alive()
    && s.pool[before[id]].check == desired[id]
  }

  /** A thread of `before` that is still wanted and was alive throughout is still in the table, unless in `leaving`. */
  ghost predicate Kept(s: State, desired: map<int, Check>, before: map<int, Tid>, leaving: set<Tid>) {
    forall id :: StillWanted(s, desired, before, id) ==>
      id in s.threads && s.threads[id] == before[id] && before[id] !in leaving
  }

  ghost predicate InOrder(s: State, stop: set<Tid>) {
    forall t :: t in stop ==> Monitored(s, t)
  }

  /** The diff has settled `id`: it stays with a fitting check, or its thread is to stop and restarts iff desired. */
  ghost predicate Judged(s: State, desired: map<int, Check>, stop: set<Tid>, start: set<int>, id: int)
    requires id in s.threads
  {
    if s.threads[id] in stop then id in desired <==> id in start else id !in start && Fits(s, desired, id)
  }

  ghost predicate ManagerOk(s: State) {
    match s.mgr
    case Idle(d, b) =>
      && s.threads.Keys == d.Keys && (forall id :: id in d ==> Fits(s, d, id)) && Kept(s, d, b, {})
      && (forall t :: t in s.writers ==> t in s.pool && (Monitored(s, t) || s.pool[t].signalled))
    case Diffing(d, b, todo, stop, start) =>
      && b == s.threads && InOrder(s, stop) && start <= d.Keys * s.threads.Keys && todo <= s.threads.Keys
      && (forall id :: id in todo ==> s.threads[id] !in stop && id !in start)
      && (forall id :: id in s.threads && id !in todo ==> Judged(s, d, stop, start, id))
      && Kept(s, d, b, stop)
    case Signalling(d, b, todo, stop, start) =>
      && InOrder(s, stop) && start <= d.Keys && d.Keys <= s.threads.Keys + start && todo <= stop
      && (forall t :: t in stop && t !in todo ==> Ready(s, t))
      && (forall id :: id in s.threads ==> Judged(s, d, stop, start, id))
      && Kept(s, d, b, stop)
    case Popping(d, b, todo, start) =>
      && InOrder(s, todo) && start <= d.Keys && d.Keys <= s.threads.Keys + start
      && (forall t :: t in todo ==> Ready(s, t))
      && (forall id :: id in s.threads ==> Judged(s, d, todo, start, id))
      && Kept(s, d, b, todo)
    case Starting(d, b, todo) =>
      && todo <= d.Keys && s.threads.Keys == d.Keys - todo
      && (forall id :: id in s.threads ==> Fits(s, d, id)) && Kept(s, d, b, {})
    case Cleaning(d, b) =>
      s.threads.Keys == d.Keys && (forall id :: id in d ==> Fits(s, d, id)) && Kept(s, d, b, {})
  }

  ghost predicate Inv(s: State) {
    TableOk(s) && SignalOk(s) && WritersOk(s) && LeaversSignalled(s) && ManagerOk(s)
      && forall id :: id in s.mgr.before ==> s.mgr.before[id] in s.pool
  }

  // Steps of the check threads.

  /** What every step does to the pool: threads keep id and check, stay stopped, stay signalled. */
  ghost predicate Evolves(pool: map<Tid, Thread>, pool': map<Tid, Thread>) {
    pool.Keys <= pool'.Keys
    && forall t :: t in pool ==>
         && pool'[t].id == pool[t].id && pool'[t].check == pool[t].check
         && (pool'[t].Alive() ==> pool[t].Alive()) && (pool[t].signalled ==> pool'[t].signalled)
  }

  /** The manager's invariant survives whatever the threads do among themselves. */
  lemma EnvironmentKeepsManager(s: State, s': State)
    requires Inv(s) && Evolves(s.pool, s'.pool) && s.pool.Keys == s'.pool.Keys
    requires s'.threads == s.threads && s'.mgr == s.mgr && s'.writers == s.writers
    ensures TableOk(s') && LeaversSignalled(s') && ManagerOk(s')
  {
    FactsSurvive(s, s');
  }

  lemma FactsSurvive(s: State, s': State)
    requires Inv(s) && Evolves(s.pool, s'.pool) && s.pool.Keys == s'.pool.Keys
    requires s'.threads == s.threads && s'.mgr == s.mgr
    ensures forall t :: Monitored(s, t) <==> Monitored(s', t)
    ensures forall t :: Ready(s, t) ==> Ready(s', t)
    ensures forall d, id :: Fits(s, d, id) ==> Fits(s', d, id)
    ensures forall d, b, l :: Kept(s, d, b, l) ==> Kept(s', d, b, l)
    ensures forall d, stop, start, id :: id in s.threads && Judged(s, d, stop, start, id) ==>
              Judged(s', d, stop, start, id)
  {
    assert forall d, b, id :: StillWanted(s', d, b, id) && b == s.mgr.before ==> StillWanted(s, d, b, id);
  }

  /** A move of thread `t` alone, to a state that still finishes at most one call after the signal. */
  lemma OneThreadKeeps(s: State, s': State, t: Tid)
    requires Inv(s) && t in s.pool && s.pool.Keys == s'.pool.Keys && Evolves(s.pool, s'.pool)
    requires s' == s.(pool := s'.pool, down := s'.down) && s'.pool == s.pool[t := s'.pool[t]] && SignalOk(s')
    requires s'.down <= s.down + if s.pool[t].Alive() then {s.pool[t].id} else {}
    ensures Inv(s')
  {
    EnvironmentKeepsManager(s, s');
    assert forall w :: w in s.pool ==> (Monitored(s', w) <==> Monitored(s, w));
    forall id | id in s'.down
      ensures exists w :: w in s'.writers && s'.pool[w].id == id
    {
      if id in s.down {
        var w :| w in s.writers && s.pool[w].id == id;
        assert s'.pool[w].id == id;
      } else {
        assert t in Potential(s) && s'.pool[t].id == id;
      }
    }
  }

  lemma MovesKeepThread(th: Thread, down: set<int>, th': Thread, down': set<int>)
    requires OneMoreAtMost(th) && ThreadMoves(th, down, th', down')
    ensures th.Alive() && OneMoreAtMost(th') && down' <= down + {th.id}
    ensures th'.id == th.id && th'.check == th.check && th'.signalled == th.signalled
  {
  }

  lemma ThreadStepKeeps(s: State, s': State, t: Tid)
    requires Inv(s) && ThreadStep(s, s', t)
    ensures Inv(s')
  {
    var th := s.pool[t];
    var th', down' :| ThreadMoves(th, s.down, th', down') && s' == s.(pool := s.pool[t := th'], down := down');
    MovesKeepThread(th, s.down, th', down');
    OneThreadKeeps(s, s', t);
  }

  lemma CrashKeeps(s: State, s': State, t: Tid)
    requires Inv(s) && Crash(s, s', t)
    ensures Inv(s')
  {
    OneThreadKeeps(s, s', t);
  }

  lemma ShutdownSignalKeeps(s: State, s': State, t: Tid)
    requires Inv(s) && ShutdownSignal(s, s', t)
    ensures Inv(s')
  {
    OneThreadKeeps(s, s', t);
  }

  // Steps of the manager.

  lemma BeginKeeps(s: State, s': State, d: map<int, Check>)
    requires Inv(s) && BeginReconcile(s, s', d)
    ensures Inv(s')
  {
  }

  lemma DiffOneKeeps(s: State, s': State, id: int)
    requires Inv(s) && DiffOne(s, s', id)
    ensures Inv(s')
  {
  }

  lemma DiffDoneKeeps(s: State, s': State)
    requires Inv(s) && DiffDone(s, s')
    ensures Inv(s')
  {
  }

  lemma SignalOneKeeps(s: State, s': State, t: Tid)
    requires Inv(s) && SignalOne(s, s', t)
    ensures Inv(s')
  {
  }

  lemma SignalDoneKeeps(s: State, s': State)
    requires Inv(s) && SignalDone(s, s')
    ensures Inv(s')
  {
  }

  lemma PopOneKeeps(s: State, s': State, t: Tid)
    requires Inv(s) && PopOne(s, s', t)
    ensures Inv(s')
  {
    assert Monitored(s, t);
    assert Judged(s, s.mgr.desired, s.mgr.todo, s.mgr.start, s.pool[t].id);
  }

  lemma PopDoneKeeps(s: State, s': State)
    requires Inv(s) && PopDone(s, s')
    ensures Inv(s')
  {
    forall id
      ensures id in s.threads <==> id in s.mgr.desired && id !in s.mgr.start
    {
      assert id in s.threads ==> Judged(s, s.mgr.desired, s.mgr.todo, s.mgr.start, id);
    }
  }

  /** The new thread stands under a free id; all others are as they were. */
  lemma StartOneAdds(s: State, s': State, id: int, t: Tid)
    requires Inv(s) && StartOne(s, s', id, t)
    ensures id !in s.threads && t !in s.pool && s'.pool.Keys == s.pool.Keys + {t}
            && s'.threads.Keys == s.threads.Keys + {id}
    ensures forall w :: w in s.pool ==> s'.pool[w] == s.pool[w] && (Monitored(s', w) <==> Monitored(s, w))
    ensures Monitored(s', t) && s'.pool[t].id == id && OneMoreAtMost(s'.pool[t])
  {
  }

  lemma StartOneKeeps(s: State, s': State, id: int, t: Tid)
    requires Inv(s) && StartOne(s, s', id, t)
    ensures Inv(s')
  {
    StartOneAdds(s, s', id, t);
    assert TableOk(s') && SignalOk(s') && LeaversSignalled(s');
    assert WritersOk(s');
    assert Fits(s', s'.mgr.desired, id);
    assert forall k :: Fits(s, s.mgr.desired, k) ==> Fits(s', s'.mgr.desired, k);
  }

  lemma StartDoneKeeps(s: State, s': State)
    requires Inv(s) && StartDone(s, s')
    ensures Inv(s')
  {
  }

  lemma CleanKeeps(s: State, s': State)
    requires Inv(s) && Clean(s, s')
    ensures Inv(s')
  {
  }

  // Whole runs.

  lemma NextKeeps(s: State, s': State)
    requires Inv(s) && Next(s, s')
    ensures Inv(s')
  {
    if d: map<int, Check> :| BeginReconcile(s, s', d) {
      BeginKeeps(s, s', d);
    } else if id: int :| DiffOne(s, s', id) {
      DiffOneKeeps(s, s', id);
    } else if DiffDone(s, s') {
      DiffDoneKeeps(s, s');
    } else if t: Tid :| SignalOne(s, s', t) {
      SignalOneKeeps(s, s', t);
    } else if SignalDone(s, s') {
      SignalDoneKeeps(s, s');
    } else if t: Tid :| PopOne(s, s', t) {
      PopOneKeeps(s, s', t);
    } else if PopDone(s, s') {
      PopDoneKeeps(s, s');
    } else if id: int, t: Tid :| StartOne(s, s', id, t) {
      StartOneKeeps(s, s', id, t);
    } else if StartDone(s, s') {
      StartDoneKeeps(s, s');
    } else if Clean(s, s') {
      CleanKeeps(s, s');
    } else if t: Tid :| ThreadStep(s, s', t) {
      ThreadStepKeeps(s, s', t);
    } else if t: Tid :| Crash(s, s', t) {
      CrashKeeps(s, s', t);
    } else {
      var t: Tid :| ShutdownSignal(s, s', t);
      ShutdownSignalKeeps(s, s', t);
    }
  }

  /** A run: from the initial state by steps of the manager and of the threads, interleaved in any way. */
  ghost predicate Behaviour(run: seq<State>) {
    run != [] && Init(run[0]) && forall i :: 0 <= i < |run| - 1 ==> StepAt(run, i)
  }

  ghost predicate StepAt(run: seq<State>, i: nat)
    requires i < |run| - 1
  {
    Next(run[i], run[i + 1])
  }

  lemma {:induction false} RunsKeepInvariant(run: seq<State>, i: nat)
    requires Behaviour(run) && i < |run|
    ensures Inv(run[i])
  {
    if i > 0 {
      RunsKeepInvariant(run, i - 1);
      assert StepAt(run, i - 1);
      NextKeeps(run[i - 1], run[i]);
    }
  }

  /** A thread the manager gave up on: no longer in its table, but alive when the registry was last cleaned. */
  ghost predicate Abandoned(s: State, t: Tid) {
    t in s.writers && t in s.pool && !Monitored(s, t)
  }

  /**
   Between reconciles, in every run: the table has exactly the desired ids, each with its desired check; a thread of
   the table before whose check is still desired and that is still alive is the same thread; an id is down only if it
   is monitored or belongs to an abandoned thread; every abandoned thread was signalled.
   */
  lemma BetweenReconciles(run: seq<State>, i: nat)
    requires Behaviour(run) && i < |run| && run[i].mgr.Idle?
    ensures var s := run[i];
            && s.threads.Keys == s.mgr.desired.Keys
            && (forall id :: id in s.threads ==>
                  s.threads[id] in s.pool && s.pool[s.threads[id]].id == id
                  && s.pool[s.threads[id]].check == s.mgr.desired[id])
            && (forall id :: StillWanted(s, s.mgr.desired, s.mgr.before, id) ==> s.threads[id] == s.mgr.before[id])
            && (forall id :: id in s.down ==> id in s.threads || exists t :: Abandoned(s, t) && s.pool[t].id == id)
            && (forall t :: Abandoned(s, t) ==> s.pool[t].signalled)
  {
    RunsKeepInvariant(run, i);
    var s := run[i];
    assert forall id :: id in s.threads ==> Fits(s, s.mgr.desired, id);
    forall id | id in s.down && id !in s.threads
      ensures exists t :: Abandoned(s, t) && s.pool[t].id == id
    {
      var t :| t in s.writers && s.pool[t].id == id;
      assert Abandoned(s, t);
    }
  }

  /** In every run, a thread finishes at most one more task() call after its shutdown signal. */
  lemma AtMostOneMoreTask(run: seq<State>, i: nat, t: Tid)
    requires Behaviour(run) && i < |run| && t in run[i].pool
    ensures run[i].pool[t].finished <= 1
    ensures run[i].pool[t].signalled && run[i].pool[t].finished == 1 ==> !run[i].pool[t].InTask()
  {
    RunsKeepInvariant(run, i);
  }

  /** The manager never touches a running thread's counters or place, and starts threads with fresh counters. */
  lemma ManagerLeavesThreadsAlone(s: State, s': State)
    requires ManagerStep(s, s')
    ensures forall t :: t in s.pool ==>
              t in s'.pool && s'.pool[t].counters == s.pool[t].counters && s'.pool[t].phase == s.pool[t].phase
    ensures forall t :: t in s'.pool && t !in s.pool ==> s'.pool[t].counters == Counters(0, 0)
  {
  }

  /** The manager changes the status only of ids that are no longer desired, when it cleans up. */
  lemma ManagerDropsOnlyUndesired(s: State, s': State)
    requires ManagerStep(s, s')
    ensures forall id :: (id in s.down) != (id in s'.down) ==>
              s.mgr.Cleaning? && id in s.down && id !in s.mgr.desired
  {
  }
}
