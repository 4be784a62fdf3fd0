/** weighted-random: proportional sampling without replacement. */
module WeightedSampling {
  import opened Common
  import opened Ordering
  import opened Routing

  function TotalWeight(s: seq<Record>): nat {
    if s == [] then 0 else s[0].weight + TotalWeight(s[1..])
  }

  /** The position the cumulative walk stops at; the last position is the fallback. */
  function PickIndex(s: seq<Record>, draw: nat): (k: nat)
    requires s != []
    ensures k < |s|
  {
    if draw < s[0].weight || |s| == 1 then 0 else 1 + PickIndex(s[1..], draw - s[0].weight)
  }

  method WeightedPick(candidates: seq<Record>, draw: nat) returns (chosen: Record)
    requires candidates != []
    ensures chosen == candidates[PickIndex(candidates, draw)]
  {
    var cumulative := 0;
    for i := 0 to |candidates|
      invariant cumulative <= draw
      invariant i < |candidates| ==>
                  PickIndex(candidates, draw) == i + PickIndex(candidates[i..], draw - cumulative)
      invariant i == |candidates| ==> PickIndex(candidates, draw) == |candidates| - 1
    {
      cumulative := cumulative + candidates[i].weight;
      assert candidates[i..][1..] == candidates[i + 1..];
      if draw < cumulative {
        return candidates[i];
      }
    }
    chosen := candidates[|candidates| - 1];
  }

  lemma {:induction false} TotalOfPrefix(s: seq<Record>, i: nat)
    requires i < |s|
    ensures TotalWeight(s[..i + 1]) == TotalWeight(s[..i]) + s[i].weight
    ensures TotalWeight(s[..i + 1]) <= TotalWeight(s)
  {
    if i == 0 {
      assert s[..1] == [s[0]];
      assert TotalWeight(s[..1]) == s[0].weight + TotalWeight([]);
    } else {
      TotalOfPrefix(s[1..], i - 1);
      assert s[..i + 1][1..] == s[1..][..i] && s[..i][1..] == s[1..][..i - 1];
    }
  }

  /** Position i owns exactly the half-open bucket between the two cumulative weights around it. */
  lemma {:induction false} PickIsBucket(s: seq<Record>, draw: nat, i: nat)
    requires i < |s| && draw < TotalWeight(s)
    ensures PickIndex(s, draw) == i <==> TotalWeight(s[..i]) <= draw < TotalWeight(s[..i + 1])
  {
    TotalOfPrefix(s, i);
    if i == 0 {
      assert s[..1] == [s[0]];
      assert TotalWeight(s[..1]) == s[0].weight + TotalWeight([]);
      if |s| == 1 { assert s[1..] == []; }
    } else {
      TotalOfPrefix(s, 0);
      assert s[..1] == [s[0]];
      assert s[..i][0] == s[0] && s[..i][1..] == s[1..][..i - 1];
      assert s[..i + 1][1..] == s[1..][..i];
      if draw >= s[0].weight {
        PickIsBucket(s[1..], draw - s[0].weight, i - 1);
      }
    }
  }

  /** The draws on which position i is picked. */
  function DrawsFor(s: seq<Record>, i: nat): set<nat>
    requires i < |s|
  {
    set d: nat | d < TotalWeight(s) && PickIndex(s, d) == i
  }

  lemma {:induction false} IntervalSize(lo: nat, hi: nat, s: set<nat>)
    requires lo <= hi && forall d :: d in s <==> lo <= d < hi
    ensures |s| == hi - lo
    decreases hi
  {
    if lo == hi {
      assert s == {};
    } else {
      assert s == (s - {hi - 1}) + {hi - 1};
      IntervalSize(lo, hi - 1, s - {hi - 1});
    }
  }

  /** Exact proportionality of one pick: position i answers on exactly `weight` of the `total` draws. */
  lemma PickIsProportional(s: seq<Record>, i: nat)
    requires i < |s|
    ensures |DrawsFor(s, i)| == s[i].weight
  {
    TotalOfPrefix(s, i);
    forall d: nat
      ensures d in DrawsFor(s, i) <==> TotalWeight(s[..i]) <= d < TotalWeight(s[..i + 1])
    {
      if d < TotalWeight(s) {
        PickIsBucket(s, d, i);
      }
    }
    IntervalSize(TotalWeight(s[..i]), TotalWeight(s[..i + 1]), DrawsFor(s, i));
  }

  /** A legal draw never lands on a zero-weight record, so the defensive fallback is unreachable. */
  lemma PickHasWeight(s: seq<Record>, draw: nat)
    requires s != [] && draw < TotalWeight(s)
    ensures s[PickIndex(s, draw)].weight > 0
  {
    var i := PickIndex(s, draw);
    PickIsBucket(s, draw, i);
    TotalOfPrefix(s, i);
  }

  /** Python's `list.remove`: drops the first element equal to `x`. */
  function RemoveFirst(s: seq<Record>, x: Record): (r: seq<Record>)
    requires x in s
    ensures |r| == |s| - 1
  {
    if s[0] == x then s[1..] else [s[0]] + RemoveFirst(s[1..], x)
  }

  /** `RemoveFirst` drops exactly the first occurrence and leaves everything else where it is. */
  lemma {:induction false} RemoveFirstIsFirst(s: seq<Record>, x: Record) returns (i: nat)
    requires x in s
    ensures i < |s| && s[i] == x && (forall k :: 0 <= k < i ==> s[k] != x) && RemoveFirst(s, x) == s[..i] + s[i + 1..]
  {
    if s[0] == x {
      i := 0;
    } else {
      var k := RemoveFirstIsFirst(s[1..], x);
      i := k + 1;
      assert [s[0]] + (s[1..][..k] + s[1..][k + 1..]) == s[..i] + s[i + 1..];
    }
  }

  lemma {:induction false} RemoveFirstMultiset(s: seq<Record>, x: Record)
    requires x in s
    ensures multiset(s) == multiset{x} + multiset(RemoveFirst(s, x))
  {
    assert s == [s[0]] + s[1..];
    if s[0] != x {
      RemoveFirstMultiset(s[1..], x);
    }
  }

  /** `random.sample` of `k` of the remaining records. */
  function EqualSample(remaining: seq<Record>, k: nat, draws: Draws): (r: seq<Record>)
    requires draws.Valid() && k <= |remaining|
    ensures |r| == k
  {
    assert IsSample(draws.sample(|remaining|, k), |remaining|, k);
    At(remaining, draws.sample(|remaining|, k))
  }

  /** The `select` loop over the remaining records; `i` numbers the draws already made. */
  function Sampled(remaining: seq<Record>, count: nat, draws: Draws, i: nat): (r: seq<Record>)
    requires draws.Valid() && count <= |remaining|
    ensures |r| == count
    decreases count
  {
    var total := TotalWeight(remaining);
    if count == 0 then []
    else if total == 0 then EqualSample(remaining, count, draws)
    else
      var chosen := remaining[PickIndex(remaining, draws.below(i, total))];
      [chosen] + Sampled(RemoveFirst(remaining, chosen), count - 1, draws, i + 1)
  }

  predicate ContentLeq(a: Record, b: Record) {
    StringLeq(a.content, b.content)
  }

  function WeightedRandomSelect(max: nat, candidates: seq<Record>, draws: Draws): seq<Record>
    requires draws.Valid()
  {
    var sorted := SortBy(candidates, ContentLeq);
    SortPermutes(candidates, ContentLeq);
    Sampled(sorted, Min(max, |candidates|), draws, 0)
  }

  /** Every candidate is selected or remains. */
  ghost predicate NoneLost(whole: seq<Record>, selected: seq<Record>, remaining: seq<Record>) {
    multiset(selected) + multiset(remaining) == multiset(whole)
  }

  /** What is selected so far and what a run on the rest selects with `more` records to go make up `target`. */
  ghost predicate OnCourse(target: seq<Record>, more: nat, draws: Draws, selected: seq<Record>, remaining: seq<Record>)
    requires draws.Valid()
  {
    more <= |remaining| && selected + Sampled(remaining, more, draws, |selected|) == target
  }

  /** Where the loop stands. */
  ghost predicate Progress(whole: seq<Record>, count: nat, draws: Draws, selected: seq<Record>, remaining: seq<Record>)
    requires draws.Valid() && count <= |whole|
  {
    && |selected| <= count && NoneLost(whole, selected, remaining)
    && OnCourse(Sampled(whole, count, draws, 0), count - |selected|, draws, selected, remaining)
  }

  lemma SampledStep(remaining: seq<Record>, count: nat, draws: Draws, i: nat, d: nat)
    requires draws.Valid() && 0 < count <= |remaining|
    requires d < TotalWeight(remaining) && draws.below(i, TotalWeight(remaining)) == d
    ensures var chosen := remaining[PickIndex(remaining, d)];
            Sampled(remaining, count, draws, i)
            == [chosen] + Sampled(RemoveFirst(remaining, chosen), count - 1, draws, i + 1)
  {
  }

  lemma MovingLosesNone(whole: seq<Record>, selected: seq<Record>, remaining: seq<Record>, chosen: Record)
    requires NoneLost(whole, selected, remaining) && chosen in remaining
    ensures NoneLost(whole, selected + [chosen], RemoveFirst(remaining, chosen))
  {
    RemoveFirstMultiset(remaining, chosen);
  }

  lemma Regroup(selected: seq<Record>, chosen: Record, tail: seq<Record>, rest: seq<Record>)
    requires rest == [chosen] + tail
    ensures (selected + [chosen]) + tail == selected + rest
  {
  }

  lemma MovingStaysOnCourse(target: seq<Record>, more: nat, draws: Draws, selected: seq<Record>,
                            remaining: seq<Record>, d: nat)
    requires draws.Valid() && 0 < more && OnCourse(target, more, draws, selected, remaining)
    requires d < TotalWeight(remaining) && d == draws.below(|selected|, TotalWeight(remaining))
    ensures var chosen := remaining[PickIndex(remaining, d)];
            OnCourse(target, more - 1, draws, selected + [chosen], RemoveFirst(remaining, chosen))
  {
    var chosen, n := remaining[PickIndex(remaining, d)], |selected|;
    var tail := Sampled(RemoveFirst(remaining, chosen), more - 1, draws, n + 1);
    var rest := Sampled(remaining, more, draws, n);
    assert rest == [chosen] + tail by { SampledStep(remaining, more, draws, n, d); }
    Regroup(selected, chosen, tail, rest);
    assert |selected + [chosen]| == n + 1;
  }

  /** One turn of the loop: the chosen record moves from `remaining` to the end of `selected`. */
  lemma MoveChosen(whole: seq<Record>, count: nat, draws: Draws, selected: seq<Record>, remaining: seq<Record>,
                   chosen: Record)
    requires draws.Valid() && count <= |whole| && |selected| < count
    requires Progress(whole, count, draws, selected, remaining) && TotalWeight(remaining) > 0
    requires chosen == remaining[PickIndex(remaining, draws.below(|selected|, TotalWeight(remaining)))]
    ensures Progress(whole, count, draws, selected + [chosen], RemoveFirst(remaining, chosen))
  {
    var target, more := Sampled(whole, count, draws, 0), count - |selected|;
    MovingStaysOnCourse(target, more, draws, selected, remaining, draws.below(|selected|, TotalWeight(remaining)));
    MovingLosesNone(whole, selected, remaining, chosen);
    assert count - |selected + [chosen]| == more - 1;
  }

  lemma Started(whole: seq<Record>, count: nat, draws: Draws)
    requires draws.Valid() && count <= |whole|
    ensures Progress(whole, count, draws, [], whole)
  {
    assert [] + Sampled(whole, count, draws, 0) == Sampled(whole, count, draws, 0);
    assert multiset([]) + multiset(whole) == multiset(whole);
  }

  /** The loop ends with the whole selection, or with no weight left and an equal sample of the rest. */
  lemma Finished(whole: seq<Record>, count: nat, draws: Draws, selected: seq<Record>, remaining: seq<Record>)
    requires draws.Valid() && count <= |whole| && |selected| <= count
    requires Progress(whole, count, draws, selected, remaining)
    ensures |selected| == count ==> selected == Sampled(whole, count, draws, 0)
    ensures |selected| < count && TotalWeight(remaining) == 0 ==>
              selected + EqualSample(remaining, count - |selected|, draws) == Sampled(whole, count, draws, 0)
  {
    if |selected| == count {
      assert Sampled(remaining, 0, draws, |selected|) == [];
      assert selected + [] == selected;
    }
  }

  /** The loop of `select`: what is selected plus what remains is always the candidates. */
  method SelectWeighted(max: nat, candidates: seq<Record>, draws: Draws) returns (selected: seq<Record>)
    requires draws.Valid()
    ensures selected == WeightedRandomSelect(max, candidates, draws)
  {
    var count := Min(max, |candidates|);
    SortPermutes(candidates, ContentLeq);
    var remaining := SortBy(candidates, ContentLeq);
    ghost var whole := remaining;
    Started(whole, count, draws);
    selected := [];
    while |selected| < count
      invariant |selected| <= count && Progress(whole, count, draws, selected, remaining)
    {
      Finished(whole, count, draws, selected, remaining);
      var total := TotalWeight(remaining);
      if total == 0 {
        selected := selected + EqualSample(remaining, count - |selected|, draws);
        return;
      }
      var chosen := WeightedPick(remaining, draws.below(|selected|, total));
      MoveChosen(whole, count, draws, selected, remaining, chosen);
      selected, remaining := selected + [chosen], RemoveFirst(remaining, chosen);
    }
    Finished(whole, count, draws, selected, remaining);
  }

  lemma SampleWithout(positions: seq<nat>, n: nat, k: nat)
    requires IsSample(positions, n + 1, |positions|) && k < |positions| && positions[k] == n
    ensures IsSample(RemoveAt(positions, k), n, |positions| - 1)
  {
  }

  lemma AtRemoved(s: seq<Record>, positions: seq<nat>, k: nat)
    requires IsSample(positions, |s|, |positions|) && k < |positions| && positions[k] == |s| - 1
    requires IsSample(RemoveAt(positions, k), |s| - 1, |positions| - 1)
    ensures multiset(At(s, positions)) == multiset(At(s[..|s| - 1], RemoveAt(positions, k))) + multiset{s[|s| - 1]}
  {
    RemoveAtMultiset(At(s, positions), k);
    assert At(s[..|s| - 1], RemoveAt(positions, k)) == RemoveAt(At(s, positions), k);
  }

  /** What sampling at distinct positions leaves behind: the records at all other positions. */
  lemma {:induction false} AtLeaves(s: seq<Record>, positions: seq<nat>) returns (rest: seq<Record>)
    requires IsSample(positions, |s|, |positions|)
    ensures multiset(At(s, positions)) + multiset(rest) == multiset(s)
    decreases |s|
  {
    if s == [] {
      rest := [];
    } else {
      var n := |s| - 1;
      assert s == s[..n] + [s[n]];
      if n in positions {
        var k :| 0 <= k < |positions| && positions[k] == n;
        SampleWithout(positions, n, k);
        rest := AtLeaves(s[..n], RemoveAt(positions, k));
        AtRemoved(s, positions, k);
      } else {
        var r := AtLeaves(s[..n], positions);
        assert At(s, positions) == At(s[..n], positions);
        rest := r + [s[n]];
      }
    }
  }

  lemma EqualSampleLeaves(remaining: seq<Record>, k: nat, draws: Draws) returns (rest: seq<Record>)
    requires draws.Valid() && k <= |remaining|
    ensures multiset(EqualSample(remaining, k, draws)) + multiset(rest) == multiset(remaining)
  {
    assert IsSample(draws.sample(|remaining|, k), |remaining|, k);
    rest := AtLeaves(remaining, draws.sample(|remaining|, k));
  }

  /** `rest` is what `selection` leaves of `whole`; weight is left over only when all of `selection` has weight. */
  ghost predicate SampleOf(selection: seq<Record>, rest: seq<Record>, whole: seq<Record>) {
    && multiset(selection) + multiset(rest) == multiset(whole)
    && ((exists z :: z in selection && z.weight == 0) ==> forall l :: l in rest ==> l.weight == 0)
  }

  lemma Recombine(selection: seq<Record>, chosen: Record, tail: seq<Record>, rest: seq<Record>, whole: seq<Record>)
    requires chosen in whole && SampleOf(tail, rest, RemoveFirst(whole, chosen)) && chosen.weight > 0
    requires selection == [chosen] + tail
    ensures SampleOf(selection, rest, whole)
  {
    RemoveFirstMultiset(whole, chosen);
    assert multiset(selection) == multiset{chosen} + multiset(tail);
  }

  lemma {:induction false} ZeroTotal(s: seq<Record>)
    requires TotalWeight(s) == 0
    ensures forall r :: r in s ==> r.weight == 0
  {
    if s != [] {
      assert s == [s[0]] + s[1..];
      ZeroTotal(s[1..]);
    }
  }

  lemma WeightlessLeaves(remaining: seq<Record>, count: nat, draws: Draws) returns (rest: seq<Record>)
    requires draws.Valid() && count <= |remaining| && TotalWeight(remaining) == 0
    ensures SampleOf(EqualSample(remaining, count, draws), rest, remaining)
  {
    rest := EqualSampleLeaves(remaining, count, draws);
    ZeroTotal(remaining);
    assert forall l :: l in rest ==> l in multiset(remaining);
  }

  /**
   Sampling without replacement: the selection and some leftover make up the candidates, element for element, and a
   zero-weight record is selected only when no positive weight is left over.
   */
  lemma {:induction false} SampledLeaves(remaining: seq<Record>, count: nat, draws: Draws, i: nat)
      returns (rest: seq<Record>)
    requires draws.Valid() && count <= |remaining|
    ensures SampleOf(Sampled(remaining, count, draws, i), rest, remaining)
    decreases count
  {
    var total := TotalWeight(remaining);
    if count == 0 {
      rest := remaining;
    } else if total == 0 {
      rest := WeightlessLeaves(remaining, count, draws);
    } else {
      var d := draws.below(i, total);
      var chosen := remaining[PickIndex(remaining, d)];
      var left := RemoveFirst(remaining, chosen);
      rest := SampledLeaves(left, count - 1, draws, i + 1);
      SampledStep(remaining, count, draws, i, d);
      PickHasWeight(remaining, d);
      Recombine(Sampled(remaining, count, draws, i), chosen, Sampled(left, count - 1, draws, i + 1), rest, remaining);
    }
  }

  /** What `WeightedRandom.select` promises of every answer, whatever is drawn. */
  lemma SelectionIsASample(max: nat, candidates: seq<Record>, draws: Draws) returns (rest: seq<Record>)
    requires draws.Valid()
    ensures |WeightedRandomSelect(max, candidates, draws)| == Min(max, |candidates|)
    ensures SampleOf(WeightedRandomSelect(max, candidates, draws), rest, candidates)
  {
    SortPermutes(candidates, ContentLeq);
    rest := SampledLeaves(SortBy(candidates, ContentLeq), Min(max, |candidates|), draws, 0);
  }

  // Counting draw vectors.

  /** Every draw lies below the total weight that remains when it is made. */
  predicate Legal(remaining: seq<Record>, ds: seq<nat>)
    decreases |ds|
  {
    ds == []
    || (remaining != [] && ds[0] < TotalWeight(remaining)
        && Legal(RemoveFirst(remaining, remaining[PickIndex(remaining, ds[0])]), ds[1..]))
  }

  /** The records a legal vector of draws picks, in order. */
  function PickedBy(remaining: seq<Record>, ds: seq<nat>): seq<Record>
    requires Legal(remaining, ds)
    decreases |ds|
  {
    if ds == [] then []
    else
      var chosen := remaining[PickIndex(remaining, ds[0])];
      [chosen] + PickedBy(RemoveFirst(remaining, chosen), ds[1..])
  }

  /** `ds` are the draws that `Sampled` makes from the i-th on. */
  predicate Follows(remaining: seq<Record>, ds: seq<nat>, draws: Draws, i: nat)
    requires Legal(remaining, ds)
    decreases |ds|
  {
    ds == []
    || (draws.below(i, TotalWeight(remaining)) == ds[0]
        && Follows(RemoveFirst(remaining, remaining[PickIndex(remaining, ds[0])]), ds[1..], draws, i + 1))
  }

  lemma {:induction false} LegalLength(remaining: seq<Record>, ds: seq<nat>)
    requires Legal(remaining, ds)
    ensures |ds| <= |remaining|
    decreases |ds|
  {
    if ds != [] {
      LegalLength(RemoveFirst(remaining, remaining[PickIndex(remaining, ds[0])]), ds[1..]);
    }
  }

  lemma {:induction false} SampledFollowsDraws(remaining: seq<Record>, ds: seq<nat>, draws: Draws, i: nat)
    requires draws.Valid() && Legal(remaining, ds) && |ds| <= |remaining| && Follows(remaining, ds, draws, i)
    ensures Sampled(remaining, |ds|, draws, i) == PickedBy(remaining, ds)
    decreases |ds|
  {
    if ds != [] {
      var chosen := remaining[PickIndex(remaining, ds[0])];
      var left := RemoveFirst(remaining, chosen);
      SampledFollowsDraws(left, ds[1..], draws, i + 1);
      SampledStep(remaining, |ds|, draws, i, ds[0]);
      assert PickedBy(remaining, ds) == [chosen] + PickedBy(left, ds[1..]);
    }
  }

  function IndexOf(s: seq<Record>, x: Record): (i: nat)
    requires x in s
    ensures i < |s| && s[i] == x
  {
    if s[0] == x then 0 else 1 + IndexOf(s[1..], x)
  }

  /** The vectors of draws that give exactly the ordered selection `target`. */
  function VectorsFor(remaining: seq<Record>, target: seq<Record>): set<seq<nat>>
    decreases |target|
  {
    if target == [] then {[]}
    else if target[0] !in remaining then {}
    else Prefixed(DrawsFor(remaining, IndexOf(remaining, target[0])),
                  VectorsFor(RemoveFirst(remaining, target[0]), target[1..]))
  }

  function Prefixed(heads: set<nat>, tails: set<seq<nat>>): set<seq<nat>> {
    set d, ds | d in heads && ds in tails :: [d] + ds
  }

  function WeightProduct(s: seq<Record>): nat {
    if s == [] then 1 else s[0].weight * WeightProduct(s[1..])
  }

  lemma PrefixedMember(heads: set<nat>, tails: set<seq<nat>>, ds: seq<nat>)
    ensures ds in Prefixed(heads, tails) <==> ds != [] && ds[0] in heads && ds[1..] in tails
  {
    if ds != [] {
      assert ds == [ds[0]] + ds[1..];
    }
    if ds in Prefixed(heads, tails) {
      var d, t :| d in heads && t in tails && ds == [d] + t;
      assert ds[1..] == t;
    }
  }

  lemma PrefixedSplit(heads: set<nat>, d: nat, tails: set<seq<nat>>)
    requires d in heads
    ensures Prefixed(heads, tails) == Prefixed(heads - {d}, tails) + Prefixed({d}, tails)
    ensures Prefixed(heads - {d}, tails) !! Prefixed({d}, tails)
  {
    forall v: seq<nat>
      ensures v in Prefixed(heads, tails) <==> v in Prefixed(heads - {d}, tails) || v in Prefixed({d}, tails)
      ensures !(v in Prefixed(heads - {d}, tails) && v in Prefixed({d}, tails))
    {
      PrefixedMember(heads, tails, v);
      PrefixedMember(heads - {d}, tails, v);
      PrefixedMember({d}, tails, v);
    }
  }

  lemma {:induction false} PrefixedSize(heads: set<nat>, tails: set<seq<nat>>)
    ensures |Prefixed(heads, tails)| == |heads| * |tails|
  {
    if heads == {} {
      assert Prefixed(heads, tails) == {};
    } else {
      var d :| d in heads;
      PrefixedSize(heads - {d}, tails);
      PrefixedOneMore(heads, d, tails);
      OneMoreTimes(|heads - {d}|, |tails|);
    }
  }

  lemma PrefixedOneMore(heads: set<nat>, d: nat, tails: set<seq<nat>>)
    requires d in heads
    ensures |Prefixed(heads, tails)| == |Prefixed(heads - {d}, tails)| + |tails|
    ensures |heads| == |heads - {d}| + 1
  {
    PrefixedSplit(heads, d, tails);
    OneHeadSize(d, tails);
    var others, own := Prefixed(heads - {d}, tails), Prefixed({d}, tails);
    assert |others + own| == |others| + |own|;
  }

  lemma {:induction false} OneHeadSize(d: nat, tails: set<seq<nat>>)
    ensures |Prefixed({d}, tails)| == |tails|
  {
    if tails == {} {
      assert Prefixed({d}, tails) == {};
    } else {
      var t :| t in tails;
      OneHeadSize(d, tails - {t});
      forall v: seq<nat>
        ensures v in Prefixed({d}, tails) <==> v in Prefixed({d}, tails - {t}) || v == [d] + t
      {
        PrefixedMember({d}, tails, v);
        PrefixedMember({d}, tails - {t}, v);
        assert v != [] && v[0] == d && v[1..] == t ==> v == [d] + t;
        assert ([d] + t)[1..] == t;
      }
      assert Prefixed({d}, tails) == Prefixed({d}, tails - {t}) + {[d] + t};
      PrefixedMember({d}, tails - {t}, [d] + t);
      assert ([d] + t)[1..] == t;
    }
  }

  lemma {:induction false} RemoveFirstKeepsOthers(s: seq<Record>, x: Record)
    requires x in s && Distinct(s)
    ensures Distinct(RemoveFirst(s, x))
    ensures forall y :: y in RemoveFirst(s, x) <==> y in s && y != x
  {
    assert s == [s[0]] + s[1..];
    if s[0] != x {
      RemoveFirstKeepsOthers(s[1..], x);
      assert s[0] !in RemoveFirst(s[1..], x);
    }
  }

  lemma IndexIsUnique(s: seq<Record>, x: Record, i: nat)
    requires Distinct(s) && i < |s| && s[i] == x
    ensures IndexOf(s, x) == i
  {
  }

  /** `VectorsFor` is exactly the set of legal draw vectors whose picks are `target`. */
  lemma {:induction false} VectorsForIsExact(remaining: seq<Record>, target: seq<Record>, ds: seq<nat>)
    requires Distinct(remaining)
    ensures ds in VectorsFor(remaining, target) <==> Legal(remaining, ds) && PickedBy(remaining, ds) == target
    decreases |target|
  {
    if target == [] {
    } else if ds == [] {
      assert [] !in VectorsFor(remaining, target);
    } else if target[0] !in remaining {
    } else {
      var left := RemoveFirst(remaining, target[0]);
      RemoveFirstKeepsOthers(remaining, target[0]);
      VectorsForIsExact(left, target[1..], ds[1..]);
      PrefixedMember(DrawsFor(remaining, IndexOf(remaining, target[0])), VectorsFor(left, target[1..]), ds);
      var k := PickIndex(remaining, ds[0]);
      IndexIsUnique(remaining, remaining[k], k);
      assert target == [target[0]] + target[1..];
    }
  }

  /**
   Exact proportionality of a whole selection: among the legal draw vectors, the number that give the ordered
   selection `target` is the product of its weights.
   */
  lemma {:induction false} SelectionIsProportional(remaining: seq<Record>, target: seq<Record>)
    requires Distinct(remaining) && Distinct(target) && forall r :: r in target ==> r in remaining
    ensures |VectorsFor(remaining, target)| == WeightProduct(target)
    decreases |target|
  {
    if target != [] {
      var i := IndexOf(remaining, target[0]);
      var left := RemoveFirst(remaining, target[0]);
      RemoveFirstKeepsOthers(remaining, target[0]);
      SelectionIsProportional(left, target[1..]);
      PickIsProportional(remaining, i);
      PrefixedSize(DrawsFor(remaining, i), VectorsFor(left, target[1..]));
    }
  }
}
