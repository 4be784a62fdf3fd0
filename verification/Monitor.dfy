/** The monitor manager as an object: the reconcile loops over its thread table and the shared stop budget. */
module Monitor {
  import opened HealthStatus
  import opened Debounce

  /** A check thread as the manager sees it: its check, whether it was asked to stop, whether it has stopped. */
  class ManagedThread {
    const contentId: int
    const check: Check
    var requested: bool
    var stopped: bool

    constructor (contentId: int, check: Check)
      ensures this.contentId == contentId && this.check == check && !requested && !stopped
    {
      this.contentId := contentId;
      this.check := check;
      requested, stopped := false, false;
    }

    predicate IsAlive()
      reads this
    {
      !stopped
    }
  }

  /** One wait of the join loop, as the scheduler lets it happen: how long it took and whether the thread stopped. */
  datatype Wait = Wait(elapsed: real, exits: bool)

  /** What `_stop_threads` did, in order: the signals, then the waits with their timeouts and durations. */
  datatype Action = Signalled(i: nat) | Joined(i: nat, timeout: real, elapsed: real)

  /** The largest check timeout among the threads at the `live` positions, 0 if there are none. */
  function MaxTimeout(threads: seq<ManagedThread>, live: set<nat>): (m: nat)
    ensures forall i :: 0 <= i < |threads| && i in live ==> threads[i].check.timeout <= m
    ensures m > 0 ==> exists i :: 0 <= i < |threads| && i in live && threads[i].check.timeout == m
  {
    if threads == [] then 0
    else
      var n := |threads| - 1;
      var rest := MaxTimeout(threads[..n], live);
      if n in live && threads[n].check.timeout > rest then threads[n].check.timeout else rest
  }

  /** `timeout` is the largest check timeout of the listed threads, 0 if there are none. */
  ghost predicate IsLargest(threads: seq<ManagedThread>, alive: seq<nat>, timeout: nat)
    requires forall k :: 0 <= k < |alive| ==> alive[k] < |threads|
  {
    && (forall k :: 0 <= k < |alive| ==> threads[alive[k]].check.timeout <= timeout)
    && (timeout > 0 ==> exists k :: 0 <= k < |alive| && threads[alive[k]].check.timeout == timeout)
  }

  lemma OneMoreTimeout(threads: seq<ManagedThread>, alive: seq<nat>, timeout: nat, i: nat)
    requires i < |threads| && forall k :: 0 <= k < |alive| ==> alive[k] < |threads|
    requires IsLargest(threads, alive, timeout)
    ensures var own := threads[i].check.timeout;
            IsLargest(threads, alive + [i], if own > timeout then own else timeout)
  {
    var more := alive + [i];
    if timeout > 0 {
      var k :| 0 <= k < |alive| && threads[alive[k]].check.timeout == timeout;
      assert more[k] == alive[k];
    }
    assert more[|alive|] == i;
  }

  /** The time the waits among `actions` took. */
  function Elapsed(actions: seq<Action>): real {
    if actions == [] then 0.0
    else
      var a := actions[|actions| - 1];
      Elapsed(actions[..|actions| - 1]) + if a.Joined? then a.elapsed else 0.0
  }

  lemma ElapsedMore(actions: seq<Action>, a: Action)
    ensures Elapsed(actions + [a]) == Elapsed(actions) + if a.Joined? then a.elapsed else 0.0
  {
    assert (actions + [a])[..|actions|] == actions;
  }

  /** The scheduler never lets a wait last longer than its timeout. */
  ghost predicate Fair(waits: (nat, real) -> Wait) {
    forall i, timeout :: timeout >= 0.0 ==> 0.0 <= waits(i, timeout).elapsed <= timeout
  }

  ghost predicate AllSignals(actions: seq<Action>, alive: seq<nat>) {
    |actions| == |alive| && forall k :: 0 <= k < |alive| ==> actions[k] == Signalled(alive[k])
  }

  lemma {:induction false} SignalsTakeNoTime(actions: seq<Action>, alive: seq<nat>)
    requires AllSignals(actions, alive)
    ensures Elapsed(actions) == 0.0
  {
    if actions != [] {
      SignalsTakeNoTime(actions[..|actions| - 1], alive[..|alive| - 1]);
    }
  }

  /** The first loop: `shutdown()` with timeout 0 sets the request and returns at once. */
  method SignalAlive(threads: seq<ManagedThread>) returns (actions: seq<Action>, alive: seq<nat>, timeout: nat)
    modifies threads
    ensures forall i :: 0 <= i < |threads| ==> (i in alive <==> old(threads[i].IsAlive()))
    ensures forall k :: 0 <= k < |alive| ==> alive[k] < |threads|
    ensures AllSignals(actions, alive) && IsLargest(threads, alive, timeout)
    ensures forall i :: 0 <= i < |threads| ==>
              threads[i].stopped == old(threads[i].stopped)
              && threads[i].requested == (old(threads[i].requested) || old(threads[i].IsAlive()))
  {
    actions, alive, timeout := [], [], 0;
    for i := 0 to |threads|
      invariant AllSignals(actions, alive)
      invariant forall k :: 0 <= k < |alive| ==> alive[k] < i
      invariant IsLargest(threads, alive, timeout)
      invariant forall j :: 0 <= j < i ==> (j in alive <==> old(threads[j].IsAlive()))
      invariant forall j :: 0 <= j < |threads| ==> threads[j].stopped == old(threads[j].stopped)
      invariant forall j :: 0 <= j < |threads| ==> threads[j].requested ==>
                old(threads[j].requested || threads[j].IsAlive())
      invariant forall j :: 0 <= j < |threads| ==> old(threads[j].requested) || j in alive ==> threads[j].requested
    {
      if threads[i].IsAlive() {
        threads[i].requested := true;
        OneMoreTimeout(threads, alive, timeout, i);
        actions, alive := actions + [Signalled(i)], alive + [i];
        if threads[i].check.timeout > timeout {
          timeout := threads[i].check.timeout;
        }
      }
    }
  }

  /** The join loop: each wait gets what is left of the shared budget. */
  method JoinAlive(threads: seq<ManagedThread>, alive: seq<nat>, budget: real, before: seq<Action>,
                   waits: (nat, real) -> Wait)
      returns (actions: seq<Action>)
    requires Fair(waits) && budget >= 0.0 && Elapsed(before) == 0.0
    requires forall k :: 0 <= k < |alive| ==> alive[k] < |threads|
    modifies threads
    ensures before <= actions && |actions| == |before| + |alive|
    ensures forall k :: |before| <= k < |actions| ==> actions[k].Joined? && actions[k].i == alive[k - |before|]
    ensures 0.0 <= Elapsed(actions) <= budget
    ensures forall i :: 0 <= i < |threads| && threads[i].requested && !old(threads[i].requested) ==>
              exists k :: 0 <= k < |alive| && threads[alive[k]] == threads[i]
    ensures forall i :: 0 <= i < |threads| && old(threads[i].requested) ==> threads[i].requested
    ensures forall i :: 0 <= i < |threads| && old(threads[i].stopped) ==> threads[i].stopped
  {
    actions := before;
    var now := 0.0;
    for k := 0 to |alive|
      invariant before <= actions && |actions| == |before| + k
      invariant forall j :: |before| <= j < |actions| ==> actions[j].Joined? && actions[j].i == alive[j - |before|]
      invariant 0.0 <= now <= budget && Elapsed(actions) == now
      invariant forall i :: 0 <= i < |threads| && threads[i].requested && !old(threads[i].requested) ==>
                  exists j :: 0 <= j < |alive| && threads[alive[j]] == threads[i]
      invariant forall i :: 0 <= i < |threads| && old(threads[i].requested) ==> threads[i].requested
      invariant forall i :: 0 <= i < |threads| && old(threads[i].stopped) ==> threads[i].stopped
    {
      var i := alive[k];
      var timeout := if budget - now > 0.0 then budget - now else 0.0;
      var wait := waits(k, timeout);
      threads[i].requested := true;
      if wait.exits {
        threads[i].stopped := true;
      }
      now := now + wait.elapsed;
      ElapsedMore(actions, Joined(i, timeout, wait.elapsed));
      actions := actions + [Joined(i, timeout, wait.elapsed)];
    }
  }

  /** Every thread alive at the start is signalled before the first wait, and waits only follow signals. */
  ghost predicate SignalsFirst(actions: seq<Action>, alive: set<nat>) {
    exists split :: 0 <= split <= |actions| && SplitsAt(actions, alive, split)
  }

  ghost predicate SplitsAt(actions: seq<Action>, alive: set<nat>, split: nat)
    requires split <= |actions|
  {
    (forall k :: 0 <= k < split ==> actions[k].Signalled?)
    && (forall k :: split <= k < |actions| ==> actions[k].Joined?)
    && (forall i :: i in alive ==> Signalled(i) in actions[..split])
  }

  lemma SignalsThenJoins(actions: seq<Action>, signals: seq<Action>, alive: seq<nat>, live: set<nat>)
    requires AllSignals(signals, alive) && signals <= actions && forall i :: i in live ==> i in alive
    requires forall k :: |signals| <= k < |actions| ==> actions[k].Joined?
    ensures SignalsFirst(actions, live)
  {
    forall i | i in live
      ensures Signalled(i) in actions[..|signals|]
    {
      var j :| 0 <= j < |alive| && alive[j] == i;
      assert actions[..|signals|][j] == Signalled(i);
    }
    assert SplitsAt(actions, live, |signals|);
  }

  /**
   Stop the listed threads. Every thread that was alive is signalled before any thread is waited for, all waits together
   take at most twice the largest check timeout among those, however many there are, and the others are left alone.
   */
  method StopThreads(threads: seq<ManagedThread>, waits: (nat, real) -> Wait) returns (actions: seq<Action>)
    requires Fair(waits)
    modifies threads
    ensures SignalsFirst(actions, old(set i: nat | i < |threads| && threads[i].IsAlive()))
    ensures var live := old(set i: nat | i < |threads| && threads[i].IsAlive());
            0.0 <= Elapsed(actions) <= 2.0 * MaxTimeout(threads, live) as real
    ensures forall i :: 0 <= i < |threads| && !old(threads[i].IsAlive()) ==>
              threads[i].requested == old(threads[i].requested)
    ensures forall i :: 0 <= i < |threads| ==> old(threads[i].IsAlive()) ==> threads[i].requested
    ensures forall i :: 0 <= i < |threads| ==> threads[i].IsAlive() ==> old(threads[i].IsAlive())
  {
    ghost var live := set i: nat | i < |threads| && threads[i].IsAlive();
    var signals, alive, timeout := SignalAlive(threads);
    SignalsTakeNoTime(signals, alive);
    actions := JoinAlive(threads, alive, 2.0 * timeout as real, signals, waits);
    SignalsThenJoins(actions, signals, alive, live);
  }

  /** Dictionaries are walked in any order. */
  method AnyOf(ids: set<int>) returns (id: int)
    requires ids != {}
    ensures id in ids
  {
    assert (forall x :: x !in ids) ==> ids == {};
    id :| id in ids;
  }

  class MonitorManager {
    var threads: map<int, ManagedThread>
    const registry: StatusRegistry

    constructor (registry: StatusRegistry)
      ensures this.registry == registry && threads == map[]
    {
      this.registry := registry;
      threads := map[];
    }

    /** Each thread stands under its own id, so no thread stands under two. */
    ghost predicate Valid()
      reads this
    {
      forall id :: id in threads ==> threads[id].contentId == id
    }

    /** The thread of `id` is wanted as it is: desired, alive, and with the same check. */
    predicate Keeps(desired: map<int, Check>, id: int)
      requires id in threads
      reads this, threads[id]
    {
      id in desired && threads[id].IsAlive() && threads[id].check == desired[id]
    }

    /** The two diff loops: which threads to stop and which ids to start. */
    method Diff(desired: map<int, Check>) returns (toStop: seq<ManagedThread>, toStart: set<int>)
      requires Valid()
      ensures forall t ::
                t in toStop <==> t.contentId in threads && threads[t.contentId] == t && !Keeps(desired, t.contentId)
      ensures forall id :: id in toStart <==> id in desired && (id in threads ==> !Keeps(desired, id))
    {
      toStop, toStart := [], {};
      var todo := threads.Keys;
      while todo != {}
        invariant todo <= threads.Keys
        invariant forall t :: t in toStop <==> (t.contentId in threads && t.contentId !in todo
                                                && threads[t.contentId] == t && !Keeps(desired, t.contentId))
        invariant forall id :: id in toStart <==> id in desired && id in threads && id !in todo && !Keeps(desired, id)
        decreases todo
      {
        var id := AnyOf(todo);
        todo := todo - {id};
        var thread := threads[id];
        if id !in desired {
          toStop := toStop + [thread];
        } else if !thread.IsAlive() || thread.check != desired[id] {
          toStop := toStop + [thread];
          toStart := toStart + {id};
        }
      }
      toStart := toStart + (desired.Keys - threads.Keys);
    }

    lemma StoppedIds(toStop: seq<ManagedThread>, kept: set<int>)
      requires Valid() && kept <= threads.Keys
      requires forall t :: t in toStop <==>
                 t.contentId in threads && threads[t.contentId] == t && t.contentId !in kept
      ensures (set t | t in toStop :: t.contentId) == threads.Keys - kept
      ensures forall t :: t in toStop ==> t in threads.Values
      ensures forall id :: id in threads && id !in kept ==> threads[id] in toStop
    {
      forall id | id in threads && id !in kept
        ensures threads[id] in toStop && id in set t | t in toStop :: t.contentId
      {
        assert threads[id].contentId == id;
        assert threads[id] in toStop;
      }
      forall t | t in toStop
        ensures t in threads.Values
      {
        assert t.contentId in threads && t == threads[t.contentId];
      }
    }

    method PopAll(toStop: seq<ManagedThread>)
      requires Valid()
      modifies this`threads
      ensures Valid()
      ensures threads == old(threads) - set t | t in toStop :: t.contentId
    {
      for i := 0 to |toStop|
        invariant Valid() && threads == old(threads) - set t | t in toStop[..i] :: t.contentId
      {
        threads := threads - {toStop[i].contentId};
        assert toStop[..i + 1] == toStop[..i] + [toStop[i]];
      }
      assert toStop[..|toStop|] == toStop;
    }

    /** Stopping the listed threads and taking them out of the table. */
    method StopAndPop(toStop: seq<ManagedThread>, waits: (nat, real) -> Wait)
      requires Valid() && Fair(waits)
      modifies this`threads, toStop
      ensures Valid() && threads == old(threads) - set t | t in toStop :: t.contentId
      ensures forall t :: t in toStop && old(t.IsAlive()) ==> t.requested
    {
      var _ := StopThreads(toStop, waits);
      PopAll(toStop);
    }

    method StartAll(desired: map<int, Check>, toStart: set<int>)
      requires Valid() && toStart <= desired.Keys && toStart !! threads.Keys
      modifies this`threads
      ensures Valid() && threads.Keys == old(threads.Keys) + toStart
      ensures forall id :: id in old(threads) ==> threads[id] == old(threads[id])
      ensures forall id :: id in toStart ==>
                && fresh(threads[id]) && threads[id].check == desired[id]
                && threads[id].IsAlive() && !threads[id].requested
    {
      var todo := toStart;
      while todo != {}
        invariant Valid() && todo <= toStart && threads.Keys == old(threads.Keys) + (toStart - todo)
        invariant forall id :: id in old(threads) ==> threads[id] == old(threads[id])
        invariant forall id :: id in toStart - todo ==>
                    && fresh(threads[id]) && threads[id].check == desired[id]
                    && threads[id].IsAlive() && !threads[id].requested
        decreases todo
      {
        var id := AnyOf(todo);
        todo := todo - {id};
        var thread := new ManagedThread(id, desired[id]);
        threads := threads[id := thread];
      }
    }

    /** The first half of a reconcile: what is not wanted as it is gets stopped and leaves the table. */
    method Retire(desired: map<int, Check>, waits: (nat, real) -> Wait) returns (toStart: set<int>)
      requires Valid() && Fair(waits)
      modifies this`threads, threads.Values
      ensures Valid() && threads.Keys <= old(threads.Keys) * desired.Keys && toStart == desired.Keys - threads.Keys
      ensures forall id :: id in old(threads) ==> (id in threads <==> old(Keeps(desired, id)))
      ensures forall id :: id in threads ==> id in desired && threads[id] == old(threads[id]) && unchanged(threads[id])
      ensures forall id :: id in old(threads) && id !in threads && old(threads[id].IsAlive()) ==>
                old(threads[id]).requested
    {
      ghost var kept := set id | id in threads && Keeps(desired, id);
      var toStop: seq<ManagedThread>;
      toStop, toStart := Diff(desired);
      StoppedIds(toStop, kept);
      assert forall id :: id in toStart <==> id in desired.Keys - kept;
      StopAndPop(toStop, waits);
      assert threads.Keys == kept;
    }

    /**
     One reconcile: afterwards the table has exactly the desired ids. A thread that was alive with the desired check is
     the same object, untouched; every other thread is new and runs the desired check. Of the status, exactly the ids
     that are no longer desired are dropped.
     */
    method Reconcile(desired: map<int, Check>, waits: (nat, real) -> Wait)
      requires Valid() && Fair(waits)
      modifies this`threads, registry, threads.Values
      ensures Valid() && threads.Keys == desired.Keys
      ensures forall id :: id in desired ==> threads[id].check == desired[id]
      ensures forall id :: id in desired && id in old(threads) && old(Keeps(desired, id)) ==>
                threads[id] == old(threads[id]) && unchanged(threads[id])
      ensures forall id :: id in desired && !(id in old(threads) && old(Keeps(desired, id))) ==>
                fresh(threads[id]) && threads[id].IsAlive() && !threads[id].requested
      ensures forall id :: id in old(threads) && !old(Keeps(desired, id)) && old(threads[id].IsAlive()) ==>
                old(threads[id]).requested
      ensures registry.status == old(registry.status) * desired.Keys
    {
      var toStart := Retire(desired, waits);
      assert threads.Keys + toStart == desired.Keys;
      StartAll(desired, toStart);
      var _ := registry.Retain(desired.Keys);
    }
  }
}
