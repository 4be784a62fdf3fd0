/** Records, routing policies and the highest-weight tier. */
module Routing {
  import opened Common
  import opened Client
  import opened ViewRules

  /**
   One record of an rrset as the DNS read returns it. `rule` and `policy` are the compiled view rule and
   routing policy; None stands for text that does not compile (ValueError in the source).
   */
  datatype Record = Record(id: int, qname: string, qtype: string, content: string, ttl: nat, weight: nat,
                           rule: Option<ViewRule>, policy: Option<Policy>)

  datatype Policy =
    | RoundRobin(maxAnswers: nat)
    | StickyHash(maxAnswers: nat, ipv4Prefix: nat, ipv6Prefix: nat)
    | WeightedRandom(maxAnswers: nat)
  {
    /** The ranges the policy's field validators accept. */
    predicate Valid() {
      maxAnswers >= 1 && (StickyHash? ==> ipv4Prefix <= Width(IPv4) && ipv6Prefix <= Width(IPv6))
    }

    /** The prefix length the answer varies by; None when it does not depend on the client. */
    function NetworkPrefix(ip: Address): Option<nat> {
      if StickyHash? then Some(if ip.family == IPv6 then ipv6Prefix else ipv4Prefix) else None
    }
  }

  /**
   The random results one `select` call consumes, as explicit values: `below(i, n)` is its i-th `randrange(n)` and
   `sample(n, k)` the positions of its `random.sample` of k out of n.
   */
  datatype Draws = Draws(below: (nat, nat) -> nat, sample: (nat, nat) -> seq<nat>) {
    ghost predicate Valid() {
      && (forall i, n :: n > 0 ==> below(i, n) < n)
      && (forall n, k :: k <= n ==> IsSample(sample(n, k), n, k))
    }
  }

  ghost predicate IsSample(positions: seq<nat>, n: nat, k: nat) {
    |positions| == k && Distinct(positions) && forall i :: 0 <= i < k ==> positions[i] < n
  }

  function At(s: seq<Record>, positions: seq<nat>): (r: seq<Record>)
    requires forall i :: 0 <= i < |positions| ==> positions[i] < |s|
    ensures |r| == |positions|
    ensures forall i :: 0 <= i < |r| ==> r[i] == s[positions[i]]
  {
    seq(|positions|, i requires 0 <= i < |positions| => s[positions[i]])
  }

  function MaxWeight(s: seq<Record>): (m: nat)
    requires s != []
    ensures forall r :: r in s ==> r.weight <= m
    ensures exists r :: r in s && r.weight == m
  {
    if |s| == 1 then s[0].weight
    else
      var rest := MaxWeight(s[1..]);
      assert s == [s[0]] + s[1..];
      if s[0].weight >= rest then s[0].weight else rest
  }

  function OfWeight(s: seq<Record>, w: nat): seq<Record> {
    Filter(s, (r: Record) => r.weight == w)
  }

  predicate Heaviest(s: seq<Record>, r: Record) {
    forall o :: o in s ==> o.weight <= r.weight
  }

  function HeaviestOf(s: seq<Record>): Record -> bool {
    r => Heaviest(s, r)
  }

  /** The records of maximal weight, each as often as it occurs, in candidate order. */
  function TopTier(s: seq<Record>): (tier: seq<Record>)
    ensures tier == [] <==> s == []
    ensures tier == Filter(s, HeaviestOf(s))
    ensures forall r :: r in tier <==> r in s && forall o :: o in s ==> o.weight <= r.weight
  {
    if s == [] then []
    else
      var m := MaxWeight(s);
      var tier := OfWeight(s, m);
      assert exists r :: r in s && r.weight == m;
      assert forall r :: r in tier ==> r.weight == m;
      FilterSame(s, (r: Record) => r.weight == m, HeaviestOf(s));
      tier
  }

  /** `tiers` holds, per weight that occurs in `s`, the records of that weight in order. */
  ghost predicate TiersOf(tiers: map<nat, seq<Record>>, s: seq<Record>) {
    forall w :: (w in tiers <==> OfWeight(s, w) != []) && (w in tiers ==> tiers[w] == OfWeight(s, w))
  }

  /** `tiers[candidate['weight']].append(candidate)` on a defaultdict. */
  function WithOne(tiers: map<nat, seq<Record>>, c: Record): map<nat, seq<Record>> {
    tiers[c.weight := (if c.weight in tiers then tiers[c.weight] else []) + [c]]
  }

  lemma GroupOne(tiers: map<nat, seq<Record>>, s: seq<Record>, i: nat)
    requires i < |s| && TiersOf(tiers, s[..i])
    ensures TiersOf(WithOne(tiers, s[i]), s[..i + 1])
  {
    forall w: nat
      ensures OfWeight(s[..i + 1], w) == OfWeight(s[..i], w) + if s[i].weight == w then [s[i]] else []
    {
      FilterOneMore(s, i, (r: Record) => r.weight == w);
    }
  }

  /** The grouping loop of `highest_tier`, then the largest key of the dictionary. */
  method HighestTier(candidates: seq<Record>) returns (tier: seq<Record>)
    ensures tier == TopTier(candidates)
  {
    if candidates == [] {
      return [];
    }
    var tiers: map<nat, seq<Record>> := map[];
    for i := 0 to |candidates|
      invariant TiersOf(tiers, candidates[..i])
    {
      GroupOne(tiers, candidates, i);
      tiers := WithOne(tiers, candidates[i]);
    }
    assert candidates[..|candidates|] == candidates;
    KeysAreWeights(tiers, candidates);
    var top :| top in tiers && forall w :: w in tiers ==> w <= top;
    assert top == MaxWeight(candidates);
    tier := tiers[top];
  }

  lemma KeysAreWeights(tiers: map<nat, seq<Record>>, s: seq<Record>)
    requires TiersOf(tiers, s) && s != []
    ensures MaxWeight(s) in tiers && forall w :: w in tiers ==> w <= MaxWeight(s)
  {
    var m := MaxWeight(s);
    var r :| r in s && r.weight == m;
    assert r in OfWeight(s, r.weight);
    forall w | w in tiers
      ensures w <= MaxWeight(s)
    {
      var x := OfWeight(s, w)[0];
      assert x in OfWeight(s, w);
    }
  }

  /** round-robin: the top tier whole, or a sample of it when it is larger than the cap. */
  function RoundRobinSelect(max: nat, candidates: seq<Record>, draws: Draws): seq<Record>
    requires draws.Valid()
  {
    var tier := TopTier(candidates);
    if |tier| <= max then tier else
      assert IsSample(draws.sample(|tier|, max), |tier|, max);
      At(tier, draws.sample(|tier|, max))
  }
}
