/** The shared health status and the rise/fall debounce of one check thread. */
module HealthStatus {

  /** The ids that are down; every operation is atomic. */
  class StatusRegistry {
    var status: set<int>

    constructor ()
      ensures status == {}
    {
      status := {};
    }

    method Add(id: int)
      modifies this
      ensures status == old(status) + {id}
    {
      status := status + {id};
    }

    method Remove(id: int)
      modifies this
      ensures status == old(status) - {id}
    {
      status := status - {id};
    }

    predicate IsDown(id: int)
      reads this
    {
      id in status
    }

    /** Drops every id that is not valid and returns the dropped ones. */
    method Retain(validIds: set<int>) returns (stale: set<int>)
      modifies this
      ensures status == old(status) * validIds && stale == old(status) - validIds
    {
      stale := status - validIds;
      status := status * validIds;
    }
  }

  /** Write access to one id. */
  class StatusWriter {
    const registry: StatusRegistry
    const contentId: int

    constructor (registry: StatusRegistry, contentId: int)
      ensures this.registry == registry && this.contentId == contentId
    {
      this.registry := registry;
      this.contentId := contentId;
    }

    method SetDown()
      modifies registry
      ensures registry.status == old(registry.status) + {contentId}
    {
      registry.Add(contentId);
    }

    method SetUp()
      modifies registry
      ensures registry.status == old(registry.status) - {contentId}
    {
      registry.Remove(contentId);
    }

    predicate IsDown()
      reads registry
    {
      registry.IsDown(contentId)
    }
  }
}

/** One check's debounce: a pure step, the thread object that performs it, and its meaning over whole histories. */
module Debounce {
  import opened Common
  import opened HealthStatus

  /** A validated check: every count is positive, the timeout is capped at the interval. */
  datatype Check = Check(name: string, interval: nat, timeout: nat, fall: nat, rise: nat) {
    ghost predicate Valid() {
      1 <= timeout <= interval && fall >= 1 && rise >= 1
    }
  }

  datatype Outcome = Success | Failure | Raised

  datatype Counters = Counters(fall: nat, rise: nat)

  predicate Failed(o: Outcome) {
    o != Success
  }

  /** The counters after one run. */
  function Count(c: Counters, o: Outcome): Counters {
    if Failed(o) then Counters(c.fall + 1, 0) else Counters(0, c.rise + 1)
  }

  /** The run that was just counted reached its threshold. */
  predicate Reached(check: Check, c: Counters, o: Outcome) {
    if Failed(o) then c.fall >= check.fall else c.rise >= check.rise
  }

  /** The status after an undisturbed run. */
  function Decide(check: Check, c: Counters, down: bool, o: Outcome): bool {
    if Reached(check, c, o) then Failed(o) else down
  }

  /** The debounce part of CheckThread. */
  class CheckThread {
    var fall: nat
    var rise: nat
    const check: Check
    const writer: StatusWriter

    constructor (check: Check, writer: StatusWriter)
      ensures this.check == check && this.writer == writer && State() == Counters(0, 0)
    {
      this.check := check;
      this.writer := writer;
      fall := 0;
      rise := 0;
    }

    function State(): Counters
      reads this
    {
      Counters(fall, rise)
    }

    method CheckFall()
      modifies this, writer.registry
      ensures State() == Count(old(State()), Failure)
      ensures writer.registry.status
              == old(writer.registry.status) + if State().fall >= check.fall then {writer.contentId} else {}
    {
      fall := fall + 1;
      rise := 0;
      if fall >= check.fall && !writer.IsDown() {
        writer.SetDown();
      }
    }

    method CheckRise()
      modifies this, writer.registry
      ensures State() == Count(old(State()), Success)
      ensures writer.registry.status
              == old(writer.registry.status) - if State().rise >= check.rise then {writer.contentId} else {}
    {
      fall := 0;
      rise := rise + 1;
      if rise >= check.rise && writer.IsDown() {
        writer.SetUp();
      }
    }

    /** One run: the status of this id follows the debounce step, no other id changes. */
    method Task(outcome: Outcome)
      modifies this, writer.registry
      ensures State() == Count(old(State()), outcome)
      ensures writer.IsDown() == Decide(check, State(), old(writer.IsDown()), outcome)
      ensures writer.registry.status - {writer.contentId} == old(writer.registry.status) - {writer.contentId}
    {
      match outcome {
        case Success => CheckRise();
        case Failure => CheckFall();
        case Raised => CheckFall();
      }
    }
  }

  // Whole histories without interference.

  datatype Status = Status(counters: Counters, down: bool)

  function Step(check: Check, s: Status, o: Outcome): Status {
    var c := Count(s.counters, o);
    Status(c, Decide(check, c, s.down, o))
  }

  /** The state of a fresh thread after a history of runs; `down` is the status it started from. */
  function Run(check: Check, down: bool, h: seq<Outcome>): Status {
    if h == [] then Status(Counters(0, 0), down) else Step(check, Run(check, down, h[..|h| - 1]), h[|h| - 1])
  }

  /** The `n` runs before position `end` all failed (or all succeeded). */
  ghost predicate Window(h: seq<Outcome>, failed: bool, n: nat, end: nat) {
    n <= end <= |h| && forall i :: end - n <= i < end ==> Failed(h[i]) == failed
  }

  function Trailing(h: seq<Outcome>, failed: bool): nat {
    if h == [] || Failed(h[|h| - 1]) != failed then 0 else 1 + Trailing(h[..|h| - 1], failed)
  }

  lemma {:induction false} TrailingIsWindow(h: seq<Outcome>, failed: bool, n: nat)
    ensures Trailing(h, failed) >= n <==> Window(h, failed, n, |h|)
  {
    if n > 0 && h != [] {
      var init := h[..|h| - 1];
      if Failed(h[|h| - 1]) == failed {
        TrailingIsWindow(init, failed, n - 1);
        assert forall i :: 0 <= i < |init| ==> init[i] == h[i];
      }
    }
  }

  lemma {:induction false} CountersAreTrailing(check: Check, down: bool, h: seq<Outcome>)
    ensures Run(check, down, h).counters == Counters(Trailing(h, true), Trailing(h, false))
  {
    if h != [] {
      CountersAreTrailing(check, down, h[..|h| - 1]);
    }
  }

  /**
   A window of `fall` failures that no window of `rise` successes follows, or down from the start and no such window.
   */
  ghost predicate ShouldBeDown(check: Check, down: bool, h: seq<Outcome>) {
    (exists end :: Window(h, true, check.fall, end) && NoRiseAfter(check, h, end)) || (down && NoRiseAfter(check, h, 0))
  }

  ghost predicate NoRiseAfter(check: Check, h: seq<Outcome>, from: nat) {
    forall end :: end > from ==> !Window(h, false, check.rise, end)
  }

  lemma WindowGrows(h: seq<Outcome>, o: Outcome, failed: bool, n: nat, end: nat)
    requires n >= 1
    ensures end <= |h| ==> (Window(h + [o], failed, n, end) <==> Window(h, failed, n, end))
    ensures Failed(o) != failed ==> !Window(h + [o], failed, n, |h| + 1)
  {
    if end <= |h| {
      assert forall i :: 0 <= i < end ==> (h + [o])[i] == h[i];
    }
    assert (h + [o])[|h|] == o;
  }

  lemma NoRiseGrows(check: Check, h: seq<Outcome>, o: Outcome, from: nat)
    requires check.Valid()
    ensures NoRiseAfter(check, h + [o], from)
            <==> NoRiseAfter(check, h, from) && (from <= |h| ==> !Window(h + [o], false, check.rise, |h| + 1))
  {
    forall end: nat
      ensures end <= |h| ==> (Window(h + [o], false, check.rise, end) <==> Window(h, false, check.rise, end))
    {
      WindowGrows(h, o, false, check.rise, end);
    }
    if NoRiseAfter(check, h + [o], from) {
      forall end | end > from
        ensures !Window(h, false, check.rise, end)
      {
        assert end <= |h| ==> !Window(h + [o], false, check.rise, end);
      }
    }
  }

  lemma ShouldBeDownGrows(check: Check, down: bool, h: seq<Outcome>, o: Outcome)
    requires check.Valid()
    ensures ShouldBeDown(check, down, h + [o])
            <==> Window(h + [o], true, check.fall, |h| + 1)
                 || (ShouldBeDown(check, down, h) && !Window(h + [o], false, check.rise, |h| + 1))
  {
    forall end: nat
      ensures end <= |h| ==> (Window(h + [o], true, check.fall, end) <==> Window(h, true, check.fall, end))
      ensures NoRiseAfter(check, h + [o], end)
              <==> NoRiseAfter(check, h, end) && (end <= |h| ==> !Window(h + [o], false, check.rise, |h| + 1))
    {
      WindowGrows(h, o, true, check.fall, end);
      NoRiseGrows(check, h, o, end);
    }
    var top := |h| + 1;
    if Window(h + [o], true, check.fall, top) {
      assert NoRiseAfter(check, h + [o], top);
    }
    if ShouldBeDown(check, down, h + [o]) && !Window(h + [o], true, check.fall, top) {
      if end: nat :| Window(h + [o], true, check.fall, end) && NoRiseAfter(check, h + [o], end) {
        assert Window(h, true, check.fall, end);
      }
    }
    if ShouldBeDown(check, down, h) && !Window(h + [o], false, check.rise, top) {
      if end: nat :| Window(h, true, check.fall, end) && NoRiseAfter(check, h, end) {
        assert Window(h + [o], true, check.fall, end);
      }
    }
  }

  /** Closed form of the debounce: after any history the status is exactly what its windows say. */
  lemma {:induction false} DebounceClosedForm(check: Check, down: bool, h: seq<Outcome>)
    requires check.Valid()
    ensures Run(check, down, h).down <==> ShouldBeDown(check, down, h)
  {
    if h == [] {
      assert NoRiseAfter(check, h, 0);
    } else {
      var init, o := h[..|h| - 1], h[|h| - 1];
      assert h == init + [o];
      DebounceClosedForm(check, down, init);
      ShouldBeDownGrows(check, down, init, o);
      CountersAreTrailing(check, down, h);
      TrailingIsWindow(h, true, check.fall);
      TrailingIsWindow(h, false, check.rise);
      WindowGrows(init, o, true, check.fall, 0);
      WindowGrows(init, o, false, check.rise, 0);
    }
  }

  function Flips(check: Check, down: bool, h: seq<Outcome>): nat {
    if h == [] then 0
    else
      var init := h[..|h| - 1];
      Flips(check, down, init) + if Run(check, down, h).down != Run(check, down, init).down then 1 else 0
  }

  function Slower(check: Check): nat {
    if check.fall <= check.rise then check.fall else check.rise
  }

  /** Runs already spent towards the next flip. */
  function Progress(s: Status): nat {
    if s.down then s.counters.rise else s.counters.fall
  }

  /** A flip takes a whole threshold of progress and starts over. */
  lemma FlipStep(check: Check, s: Status, o: Outcome)
    requires check.Valid()
    ensures var t := Step(check, s, o);
            if t.down != s.down then Progress(s) + 1 >= Slower(check) && Progress(t) == 0
            else Progress(t) <= Progress(s) + 1
  {
  }

  lemma {:induction false} FlipsAreSpaced(check: Check, down: bool, h: seq<Outcome>)
    requires check.Valid()
    ensures Flips(check, down, h) * Slower(check) + Progress(Run(check, down, h)) <= |h|
  {
    if h != [] {
      var init := h[..|h| - 1];
      FlipsAreSpaced(check, down, init);
      FlipStep(check, Run(check, down, init), h[|h| - 1]);
      OneMoreTimes(Flips(check, down, init), Slower(check));
    }
  }

  /** The status after run `i` is not what it was before it. */
  predicate ChangedAt(check: Check, down: bool, h: seq<Outcome>, i: nat)
    requires i < |h|
  {
    Run(check, down, h[..i + 1]).down != Run(check, down, h[..i]).down
  }

  function Changes(check: Check, down: bool, h: seq<Outcome>): set<nat> {
    set i: nat | i < |h| && ChangedAt(check, down, h, i)
  }

  lemma {:induction false} FlipsAreChanges(check: Check, down: bool, h: seq<Outcome>)
    ensures Flips(check, down, h) == |Changes(check, down, h)|
  {
    if h == [] {
      assert Changes(check, down, h) == {};
    } else {
      var n := |h| - 1;
      FlipsAreChanges(check, down, h[..n]);
      ChangesGrow(check, down, h);
    }
  }

  lemma ChangesGrow(check: Check, down: bool, h: seq<Outcome>)
    requires h != []
    ensures var (n, init) := (|h| - 1, h[..|h| - 1]);
            && n !in Changes(check, down, init)
            && Changes(check, down, h)
               == Changes(check, down, init)
                  + if Run(check, down, h).down != Run(check, down, init).down then {n} else {}
  {
    var n := |h| - 1;
    LastChange(check, down, h);
    forall i: nat | i < n
      ensures i in Changes(check, down, h) <==> i in Changes(check, down, h[..n])
    {
      EarlierChange(check, down, h, n, i);
    }
    SetGrows(Changes(check, down, h), Changes(check, down, h[..n]), n);
  }

  lemma SetGrows(a: set<nat>, b: set<nat>, n: nat)
    requires (forall i :: i in a ==> i <= n) && (forall i :: i in b ==> i < n)
    requires forall i: nat :: i < n ==> (i in a <==> i in b)
    ensures a == b + if n in a then {n} else {}
  {
  }

  lemma LastChange(check: Check, down: bool, h: seq<Outcome>)
    requires h != []
    ensures |h| - 1 in Changes(check, down, h)
            <==> Run(check, down, h).down != Run(check, down, h[..|h| - 1]).down
  {
    assert h[..|h|] == h;
    assert |h| - 1 in Changes(check, down, h) <==> ChangedAt(check, down, h, |h| - 1);
  }

  lemma EarlierChange(check: Check, down: bool, h: seq<Outcome>, n: nat, i: nat)
    requires i < n <= |h|
    ensures i in Changes(check, down, h) <==> i in Changes(check, down, h[..n])
  {
    SameChange(check, down, h, n, i);
    assert i in Changes(check, down, h) <==> ChangedAt(check, down, h, i);
  }

  lemma SameChange(check: Check, down: bool, h: seq<Outcome>, n: nat, i: nat)
    requires i < n <= |h|
    ensures ChangedAt(check, down, h, i) <==> ChangedAt(check, down, h[..n], i)
  {
    assert h[..n][..i] == h[..i];
    assert h[..n][..i + 1] == h[..i + 1];
  }

  /** The status changes at most once per min(fall, rise) runs. */
  lemma FlipRateIsBounded(check: Check, down: bool, h: seq<Outcome>)
    requires check.Valid()
    ensures |Changes(check, down, h)| * Min(check.fall, check.rise) <= |h|
  {
    FlipsAreSpaced(check, down, h);
    FlipsAreChanges(check, down, h);
  }

  // Interference by other writers on the same id.

  /**
   What can happen to the thread and its status: an own run whose status read returned `seen`, whatever interference
   made of it, or another thread's write. The own write, if any, takes effect at the event.
   */
  datatype Event = Own(outcome: Outcome, seen: bool) | Other(down: bool)

  function Disturbed(check: Check, s: Status, e: Event): Status {
    match e
    case Own(o, seen) =>
      var c := Count(s.counters, o);
      Status(c, if Reached(check, c, o) && seen != Failed(o) then Failed(o) else s.down)
    case Other(down) => s.(down := down)
  }

  function RunDisturbed(check: Check, down: bool, events: seq<Event>): Status {
    if events == [] then Status(Counters(0, 0), down)
    else Disturbed(check, RunDisturbed(check, down, events[..|events| - 1]), events[|events| - 1])
  }

  function OwnRuns(events: seq<Event>): seq<Outcome> {
    if events == [] then []
    else
      var e := events[|events| - 1];
      OwnRuns(events[..|events| - 1]) + if e.Own? then [e.outcome] else []
  }

  lemma {:induction false} DisturbedCounters(check: Check, down: bool, events: seq<Event>)
    ensures RunDisturbed(check, down, events).counters
            == Counters(Trailing(OwnRuns(events), true), Trailing(OwnRuns(events), false))
  {
    if events != [] {
      var init, e := events[..|events| - 1], events[|events| - 1];
      DisturbedCounters(check, down, init);
      if e.Own? {
        var runs := OwnRuns(init);
        assert (runs + [e.outcome])[..|runs|] == runs;
      } else {
        assert OwnRuns(events) == OwnRuns(init);
      }
    }
  }

  /**
   Self-correction. After any interference whatsoever, one undisturbed run (its read sees the true status) leaves the
   status equal to the run's outcome exactly when the trailing own runs of that outcome reach the threshold or the
   status already agreed.
   */
  lemma OneRunCorrects(check: Check, down: bool, events: seq<Event>, o: Outcome)
    requires check.Valid()
    ensures var before := RunDisturbed(check, down, events);
            var after := RunDisturbed(check, down, events + [Own(o, before.down)]);
            var run := Trailing(OwnRuns(events) + [o], Failed(o));
            after.down == Failed(o)
            <==> run >= (if Failed(o) then check.fall else check.rise) || before.down == Failed(o)
  {
    var before := RunDisturbed(check, down, events);
    var last := Own(o, before.down);
    assert (events + [last])[..|events|] == events;
    DisturbedCounters(check, down, events + [last]);
  }
}
