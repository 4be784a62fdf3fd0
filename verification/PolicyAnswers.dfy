/** What each routing policy answers, said without the functions that compute it. */
module PolicyAnswers {
  import opened Common
  import opened Ordering
  import opened Client
  import opened Routing
  import opened StickyHashing
  import opened WeightedSampling
  import opened PowerDns

  // round-robin.

  /** A tier within the cap is answered whole, a larger one at the drawn positions. */
  lemma RoundRobinAnswers(policy: Policy, candidates: seq<Record>, ip: Address, hash: Hash, draws: Draws)
    requires policy.RoundRobin? && policy.Valid() && draws.Valid()
    ensures var (answer, tier) := (PolicySelect(policy, candidates, ip, hash, draws), TopTier(candidates));
            if |tier| <= policy.maxAnswers then answer == tier
            else
              var positions := draws.sample(|tier|, policy.maxAnswers);
              && |answer| == |positions| == policy.maxAnswers
              && forall i :: 0 <= i < |answer| ==> positions[i] < |tier| && answer[i] == tier[positions[i]]
  {
    var tier := TopTier(candidates);
    if |tier| > policy.maxAnswers {
      assert IsSample(draws.sample(|tier|, policy.maxAnswers), |tier|, policy.maxAnswers);
    }
  }

  // sticky-hash.

  /** `a` ranks before `b`: the larger hash, and on equal hashes the larger content. */
  ghost predicate RanksBefore(hash: Hash, network: Address, a: Record, b: Record) {
    hash(network, a.content) > hash(network, b.content)
    || (hash(network, a.content) == hash(network, b.content) && StringLeq(b.content, a.content))
  }

  /**
   The answer is the highest ranked of the top tier, in rank order: no record left out, and none further back in the
   answer, has a larger hash under the masked network.
   */
  lemma StickyHashAnswers(policy: Policy, candidates: seq<Record>, ip: Address, hash: Hash, draws: Draws)
      returns (rest: seq<Record>)
    requires policy.StickyHash? && policy.Valid() && draws.Valid()
    ensures var (answer, tier) := (PolicySelect(policy, candidates, ip, hash, draws), TopTier(candidates));
            var network := MaskedNetwork(ip, policy.ipv4Prefix, policy.ipv6Prefix);
            && |answer| == Min(policy.maxAnswers, |tier|) && multiset(answer) + multiset(rest) == multiset(tier)
            && (forall w, l :: w in answer && l in rest ==> RanksBefore(hash, network, w, l))
            && forall i, j :: 0 <= i < j < |answer| ==> RanksBefore(hash, network, answer[i], answer[j])
  {
    var tier := TopTier(candidates);
    var network := MaskedNetwork(ip, policy.ipv4Prefix, policy.ipv6Prefix);
    if tier == [] {
      rest := [];
    } else {
      rest := PickIsTop(hash, tier, network, policy.maxAnswers);
      PickIsRanked(hash, tier, network, policy.maxAnswers);
    }
  }

  lemma PickIsRanked(hash: Hash, s: seq<Record>, network: Address, count: nat)
    ensures var pick := StickyPick(hash, s, network, count);
            forall i, j :: 0 <= i < j < |pick| ==> RanksBefore(hash, network, pick[i], pick[j])
  {
    ContentBeforeIsTotalOrder(hash, network);
    SortSorts(s, RankOrder(hash, network));
    var ranked := Ranked(hash, s, network);
    assert forall i, j :: 0 <= i < j < |ranked| ==> RankOrder(hash, network)(ranked[i], ranked[j]);
  }

  // weighted-random.

  /** The records sorted by content; among equal contents in the order they came. */
  ghost predicate ContentSorted(s: seq<Record>, candidates: seq<Record>) {
    && multiset(s) == multiset(candidates)
    && (forall i, j :: 0 <= i < j < |s| ==> StringLeq(s[i].content, s[j].content))
    && forall content: string :: Filter(s, HasContent(content)) == Filter(candidates, HasContent(content))
  }

  function HasContent(content: string): Record -> bool {
    (r: Record) => r.content == content
  }

  lemma SortedByContent(candidates: seq<Record>)
    ensures ContentSorted(SortBy(candidates, ContentLeq), candidates)
  {
    ContentOrderIsTotal();
    SortPermutes(candidates, ContentLeq);
    SortSorts(candidates, ContentLeq);
    forall content: string
      ensures Filter(SortBy(candidates, ContentLeq), HasContent(content)) == Filter(candidates, HasContent(content))
    {
      SortKeepsTies(candidates, ContentLeq, HasContent(content));
    }
  }

  lemma ContentOrderIsTotal()
    ensures TotalPreorder(ContentLeq)
    ensures forall a: Record, b: Record :: ContentLeq(a, b) && ContentLeq(b, a) ==> a.content == b.content
  {
    forall a: Record, b: Record
      ensures ContentLeq(a, b) || ContentLeq(b, a)
      ensures ContentLeq(a, b) && ContentLeq(b, a) ==> a.content == b.content
    {
      StringLeqTotal(a.content, b.content);
    }
    forall a: Record, b: Record, c: Record | ContentLeq(a, b) && ContentLeq(b, c)
      ensures ContentLeq(a, c)
    {
      StringLeqTransitive(a.content, b.content, c.content);
    }
  }

  /** What a legal vector of draws leaves behind. */
  function LeftBy(remaining: seq<Record>, ds: seq<nat>): seq<Record>
    requires Legal(remaining, ds)
    decreases |ds|
  {
    if ds == [] then remaining
    else LeftBy(RemoveFirst(remaining, remaining[PickIndex(remaining, ds[0])]), ds[1..])
  }

  /** The draws `ds` were made from the i-th on, until `count` records were picked or no weight was left. */
  ghost predicate DrawnBy(remaining: seq<Record>, count: nat, draws: Draws, i: nat, ds: seq<nat>) {
    && |ds| <= count && Legal(remaining, ds) && Follows(remaining, ds, draws, i)
    && |LeftBy(remaining, ds)| + |ds| == |remaining|
    && (|ds| < count ==> TotalWeight(LeftBy(remaining, ds)) == 0)
  }

  /** What the draws pick, and then an equal sample of what they leave. */
  function AnswerBy(remaining: seq<Record>, count: nat, draws: Draws, ds: seq<nat>): seq<Record>
    requires draws.Valid() && Legal(remaining, ds) && |ds| <= count <= |ds| + |LeftBy(remaining, ds)|
  {
    PickedBy(remaining, ds) + EqualSample(LeftBy(remaining, ds), count - |ds|, draws)
  }

  /** Every run of the loop is a legal vector of draws, followed by an equal sample once no weight is left. */
  lemma {:induction false} SampledIsDrawn(remaining: seq<Record>, count: nat, draws: Draws, i: nat)
      returns (ds: seq<nat>)
    requires draws.Valid() && count <= |remaining|
    ensures DrawnBy(remaining, count, draws, i, ds)
    ensures Sampled(remaining, count, draws, i) == AnswerBy(remaining, count, draws, ds)
    decreases count
  {
    var total := TotalWeight(remaining);
    if count == 0 || total == 0 {
      ds := [];
      NoDraws(remaining, count, draws, i);
    } else {
      var d := draws.below(i, total);
      var left := RemoveFirst(remaining, remaining[PickIndex(remaining, d)]);
      var more := SampledIsDrawn(left, count - 1, draws, i + 1);
      ds := [d] + more;
      OneDrawMore(remaining, count, draws, i, d, more);
      SampledStep(remaining, count, draws, i, d);
    }
  }

  lemma NoDraws(remaining: seq<Record>, count: nat, draws: Draws, i: nat)
    requires draws.Valid() && count <= |remaining| && (count == 0 || TotalWeight(remaining) == 0)
    ensures DrawnBy(remaining, count, draws, i, [])
    ensures Sampled(remaining, count, draws, i) == AnswerBy(remaining, count, draws, [])
  {
    var sample := EqualSample(remaining, count, draws);
    assert [] + sample == sample;
  }

  lemma DrawUnfolds(remaining: seq<Record>, d: nat, more: seq<nat>)
    requires remaining != [] && d < TotalWeight(remaining)
    requires Legal(RemoveFirst(remaining, remaining[PickIndex(remaining, d)]), more)
    ensures var (chosen, ds) := (remaining[PickIndex(remaining, d)], [d] + more);
            var left := RemoveFirst(remaining, chosen);
            && Legal(remaining, ds) && PickedBy(remaining, ds) == [chosen] + PickedBy(left, more)
            && LeftBy(remaining, ds) == LeftBy(left, more)
  {
    assert ([d] + more)[1..] == more && ([d] + more)[0] == d;
  }

  lemma FollowsUnfolds(remaining: seq<Record>, d: nat, more: seq<nat>, draws: Draws, i: nat)
    requires remaining != [] && d < TotalWeight(remaining) && d == draws.below(i, TotalWeight(remaining))
    requires var left := RemoveFirst(remaining, remaining[PickIndex(remaining, d)]);
             Legal(left, more) && Follows(left, more, draws, i + 1)
    ensures Legal(remaining, [d] + more) && Follows(remaining, [d] + more, draws, i)
  {
    assert ([d] + more)[1..] == more && ([d] + more)[0] == d;
  }

  lemma OneDrawMore(remaining: seq<Record>, count: nat, draws: Draws, i: nat, d: nat, more: seq<nat>)
    requires draws.Valid() && 0 < count <= |remaining|
    requires d < TotalWeight(remaining) && d == draws.below(i, TotalWeight(remaining))
    requires DrawnBy(RemoveFirst(remaining, remaining[PickIndex(remaining, d)]), count - 1, draws, i + 1, more)
    ensures DrawnBy(remaining, count, draws, i, [d] + more)
    ensures var chosen := remaining[PickIndex(remaining, d)];
            AnswerBy(remaining, count, draws, [d] + more)
            == [chosen] + AnswerBy(RemoveFirst(remaining, chosen), count - 1, draws, more)
  {
    var chosen := remaining[PickIndex(remaining, d)];
    var left := RemoveFirst(remaining, chosen);
    DrawUnfolds(remaining, d, more);
    FollowsUnfolds(remaining, d, more, draws, i);
    assert DrawnBy(remaining, count, draws, i, [d] + more);
    ConcatAssociates([chosen], PickedBy(left, more), EqualSample(LeftBy(left, more), count - 1 - |more|, draws));
  }

  /** `tail` is the records of `left` at as many sampled positions. */
  ghost predicate SampledFrom(left: seq<Record>, draws: Draws, tail: seq<Record>) {
    var positions := draws.sample(|left|, |tail|);
    IsSample(positions, |left|, |tail|) && forall k :: 0 <= k < |tail| ==> tail[k] == left[positions[k]]
  }

  lemma EqualSampleIsSampled(left: seq<Record>, more: nat, draws: Draws)
    requires draws.Valid() && more <= |left|
    ensures SampledFrom(left, draws, EqualSample(left, more, draws))
  {
    assert IsSample(draws.sample(|left|, more), |left|, more);
  }

  /**
   The answer of weighted-random, whatever is drawn: over the candidates sorted by content, what the draws pick by
   cumulative bucket while weight is left, then an equal sample of what is left without weight.
   */
  lemma WeightedRandomAnswers(policy: Policy, candidates: seq<Record>, ip: Address, hash: Hash, draws: Draws)
      returns (sorted: seq<Record>, ds: seq<nat>, tail: seq<Record>, rest: seq<Record>)
    requires policy.WeightedRandom? && policy.Valid() && draws.Valid()
    ensures ContentSorted(sorted, candidates)
    ensures DrawnBy(sorted, Min(policy.maxAnswers, |candidates|), draws, 0, ds)
    ensures SampledFrom(LeftBy(sorted, ds), draws, tail) && |ds| + |tail| == Min(policy.maxAnswers, |candidates|)
    ensures PolicySelect(policy, candidates, ip, hash, draws) == PickedBy(sorted, ds) + tail
    ensures SampleOf(PolicySelect(policy, candidates, ip, hash, draws), rest, candidates)
  {
    sorted := SortBy(candidates, ContentLeq);
    SortedByContent(candidates);
    SortPermutes(candidates, ContentLeq);
    ds, tail := SampledParts(sorted, Min(policy.maxAnswers, |candidates|), draws);
    rest := SelectionIsASample(policy.maxAnswers, candidates, draws);
  }

  lemma SampledParts(sorted: seq<Record>, count: nat, draws: Draws) returns (ds: seq<nat>, tail: seq<Record>)
    requires draws.Valid() && count <= |sorted|
    ensures DrawnBy(sorted, count, draws, 0, ds) && SampledFrom(LeftBy(sorted, ds), draws, tail)
    ensures |ds| + |tail| == count && Sampled(sorted, count, draws, 0) == PickedBy(sorted, ds) + tail
  {
    ds := SampledIsDrawn(sorted, count, draws, 0);
    tail := EqualSample(LeftBy(sorted, ds), count - |ds|, draws);
    EqualSampleIsSampled(LeftBy(sorted, ds), count - |ds|, draws);
  }

  lemma {:induction false} PickedLength(remaining: seq<Record>, ds: seq<nat>)
    requires Legal(remaining, ds)
    ensures |PickedBy(remaining, ds)| == |ds|
    decreases |ds|
  {
    if ds != [] {
      PickedLength(RemoveFirst(remaining, remaining[PickIndex(remaining, ds[0])]), ds[1..]);
    }
  }

  /**
   Exact proportionality of the answer. Among the draws below the total that remains each time, exactly the product of
   the target's weights give the ordered answer `target`, in this sense: the vectors in `VectorsFor` are that many, and
   whenever the draws made are one of them, the policy answers `target`.
   */
  lemma WeightedRandomIsProportional(policy: Policy, candidates: seq<Record>, ip: Address, hash: Hash, draws: Draws,
                                     target: seq<Record>)
    requires policy.WeightedRandom? && policy.Valid() && draws.Valid()
    requires Distinct(candidates) && Distinct(target) && |target| == Min(policy.maxAnswers, |candidates|)
    requires forall r :: r in target ==> r in candidates && r.weight > 0
    ensures var vectors := VectorsFor(SortBy(candidates, ContentLeq), target);
            && |vectors| == WeightProduct(target)
            && (PolicySelect(policy, candidates, ip, hash, draws) == target <==>
                exists ds :: ds in vectors && FollowsFrom(SortBy(candidates, ContentLeq), ds, draws))
  {
    var sorted := SortBy(candidates, ContentLeq);
    SortPermutes(candidates, ContentLeq);
    SortStaysDistinct(candidates);
    assert forall r :: r in target ==> r in multiset(candidates) && r in multiset(sorted);
    SelectionIsProportional(sorted, target);
    if ds :| ds in VectorsFor(sorted, target) && FollowsFrom(sorted, ds, draws) {
      DrawnGivesTarget(sorted, target, ds, draws);
    }
    if Sampled(sorted, |target|, draws, 0) == target {
      var ds := TargetIsDrawn(sorted, target, draws);
    }
  }

  lemma DrawnGivesTarget(sorted: seq<Record>, target: seq<Record>, ds: seq<nat>, draws: Draws)
    requires draws.Valid() && Distinct(sorted) && |target| <= |sorted|
    requires ds in VectorsFor(sorted, target) && FollowsFrom(sorted, ds, draws)
    ensures Sampled(sorted, |target|, draws, 0) == target
  {
    VectorsForIsExact(sorted, target, ds);
    PickedLength(sorted, ds);
    SampledFollowsDraws(sorted, ds, draws, 0);
  }

  lemma TargetIsDrawn(sorted: seq<Record>, target: seq<Record>, draws: Draws) returns (ds: seq<nat>)
    requires draws.Valid() && Distinct(sorted) && |target| <= |sorted| && forall r :: r in target ==> r.weight > 0
    requires Sampled(sorted, |target|, draws, 0) == target
    ensures ds in VectorsFor(sorted, target) && FollowsFrom(sorted, ds, draws)
  {
    ds := SampledIsDrawn(sorted, |target|, draws, 0);
    PickedLength(sorted, ds);
    AllDrawn(sorted, ds, target, draws);
    VectorsForIsExact(sorted, target, ds);
  }

  /** The vector is legal and the draws are made from its start. */
  ghost predicate FollowsFrom(sorted: seq<Record>, ds: seq<nat>, draws: Draws) {
    Legal(sorted, ds) && Follows(sorted, ds, draws, 0)
  }

  /** A selection of records with weight draws them all. */
  lemma AllDrawn(sorted: seq<Record>, ds: seq<nat>, target: seq<Record>, draws: Draws)
    requires draws.Valid() && |target| <= |sorted| && DrawnBy(sorted, |target|, draws, 0, ds)
    requires target == AnswerBy(sorted, |target|, draws, ds) && forall r :: r in target ==> r.weight > 0
    ensures PickedBy(sorted, ds) == target
  {
    PickedLength(sorted, ds);
    var left, more := LeftBy(sorted, ds), |target| - |ds|;
    if more > 0 {
      var z := SampleHasZero(PickedBy(sorted, ds), left, more, draws);
      assert false;
    }
  }

  lemma SampleHasZero(picked: seq<Record>, left: seq<Record>, more: nat, draws: Draws) returns (z: Record)
    requires draws.Valid() && 0 < more <= |left| && TotalWeight(left) == 0
    ensures z in picked + EqualSample(left, more, draws) && z.weight == 0
  {
    ZeroTotal(left);
    assert IsSample(draws.sample(|left|, more), |left|, more);
    z := EqualSample(left, more, draws)[0];
    assert z in left && (picked + EqualSample(left, more, draws))[|picked|] == z;
  }

  lemma SortStaysDistinct(s: seq<Record>)
    requires Distinct(s)
    ensures Distinct(SortBy(s, ContentLeq))
  {
    SortPermutes(s, ContentLeq);
    DistinctIsMultiset(s);
    DistinctIsMultiset(SortBy(s, ContentLeq));
  }

  lemma {:induction false} DistinctIsMultiset(s: seq<Record>)
    ensures Distinct(s) <==> forall r :: r in s ==> multiset(s)[r] == 1
  {
    if s != [] {
      var x, rest := s[0], s[1..];
      assert s == [x] + rest;
      DistinctIsMultiset(rest);
      if Distinct(s) {
        assert x !in rest;
      }
      if forall r :: r in s ==> multiset(s)[r] == 1 {
        assert multiset(s)[x] == 1 + multiset(rest)[x];
        assert x !in rest;
        forall r | r in rest
          ensures multiset(rest)[r] == 1
        {
          assert r in s && multiset(s)[r] == multiset(rest)[r];
        }
      }
    }
  }
}
