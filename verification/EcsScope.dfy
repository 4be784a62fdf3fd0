/** When an answer computed for one client subnet may be given to another, and which tier answers come from. */
module EcsScope {
  import opened Common
  import opened Client
  import opened ViewRules
  import opened Routing
  import opened StickyHashing
  import opened WeightedSampling
  import opened PowerDns

  /** A client subnet as RFC 7871 carries it: a source prefix and zero bits beyond it. */
  ghost predicate ClientSubnet(c: Network) {
    c.Valid() && c.ZeroHostBits()
  }

  /** Every record of a match-all group is in view for every client. */
  lemma {:induction false} AllInView(reader: GeoReader, ip: Address, group: seq<Record>)
    requires ip.Valid() && ValidRecords(group) && forall r :: r in group ==> IsCatchAll(r)
    ensures InViewOf(reader, ip, group) == group
  {
    if group != [] {
      assert group == [group[0]] + group[1..];
      assert group[0] in group;
      MatchAllAdmitsByCidr(group[0].rule.value, ip);
      AllInView(reader, ip, group[1..]);
    }
  }

  /** Policies read no more of the client than their network prefix. */
  lemma PolicyReadsItsPrefix(policy: Policy, candidates: seq<Record>, a: Address, b: Address, hash: Hash, draws: Draws)
    requires policy.Valid() && draws.Valid() && a.Valid() && b.Valid() && a.family == b.family
    requires policy.NetworkPrefix(a).Some? ==> AgreeOnFirst(policy.NetworkPrefix(a).value, a, b)
    ensures PolicySelect(policy, candidates, a, hash, draws) == PolicySelect(policy, candidates, b, hash, draws)
  {
    if policy.StickyHash? {
      SameNetworkIffAgree(policy, a, b);
    }
  }

  /** Where every record is in view of everybody, the answer varies with no more than the policy's prefix. */
  lemma MatchAllSelectsAlike(env: Env, a: Address, b: Address, set_: Rrset)
    requires env.Valid() && a.Valid() && b.Valid() && a.family == b.family
    requires ValidRecords(set_.records) && forall r :: r in set_.records ==> IsCatchAll(r)
    requires set_.records != [] && set_.records[0].policy.Some?
    requires var prefix := set_.records[0].policy.value.NetworkPrefix(a);
             prefix.Some? ==> AgreeOnFirst(prefix.value, a, b)
    ensures Select(env, a, set_) == Select(env, b, set_)
  {
    var group := set_.records;
    AllInView(env.reader, a, group);
    AllInView(env.reader, b, group);
    assert group[0] in group;
    PolicyReadsItsPrefix(group[0].policy.value, Candidates(env.isDown, group), a, b, env.hash, env.draws(set_.qtype));
  }

  /**
   A scope below the source prefix comes from the policy alone, and is the same for every client of the family whose
   source prefix is no shorter.
   */
  lemma NarrowScopeIsMatchAll(c1: Network, c2: Network, group: seq<Record>)
    requires c1.ip.family == c2.ip.family
    requires group != [] && group[0].qtype !in AUTHORITY_QTYPES
    requires ScopePrefix(c1, group).Some? && ScopePrefix(c1, group).value < c1.prefixlen
    requires ScopePrefix(c1, group).value <= c2.prefixlen
    ensures forall r :: r in group ==> IsCatchAll(r)
    ensures group[0].policy.Some? && ScopePrefix(c1, group) == ScopePrefix(c2, group)
    ensures var prefix := group[0].policy.value.NetworkPrefix(c1.ip);
            prefix.Some? ==> prefix == ScopePrefix(c1, group)
  {
  }

  /**
   A scope below the source prefix is sound for more than client subnets of that length: for any client whose source
   prefix is at least the scope, host bits or not.
   */
  lemma GroupScopeSoundBelowSource(env: Env, c1: Network, c2: Network, set_: Rrset)
    requires env.Valid() && c1.Valid() && c2.Valid()
    requires ValidRecords(set_.records) && set_.records != [] && set_.records[0].qtype !in AUTHORITY_QTYPES
    requires Select(env, c1.ip, set_).Some?
    requires ScopePrefix(c1, set_.records).value < c1.prefixlen && ScopePrefix(c1, set_.records).value <= c2.prefixlen
    requires AgreeOnFirst(ScopePrefix(c1, set_.records).value, c1.ip, c2.ip)
    ensures GroupAnswers(env, c1, set_) == GroupAnswers(env, c2, set_)
  {
    NarrowScopeIsMatchAll(c1, c2, set_.records);
    MatchAllSelectsAlike(env, c1.ip, c2.ip, set_);
  }

  /**
   Scope soundness for one rrset: a client that agrees with `c1` on the scope computed for `c1` gets the same rows,
   scope included.
   */
  lemma GroupScopeSound(env: Env, c1: Network, c2: Network, set_: Rrset)
    requires env.Valid() && ClientSubnet(c1) && ClientSubnet(c2) && c1.prefixlen == c2.prefixlen
    requires ValidRecords(set_.records) && set_.records != [] && set_.records[0].qtype !in AUTHORITY_QTYPES
    requires Select(env, c1.ip, set_).Some?
    requires AgreeOnFirst(ScopePrefix(c1, set_.records).value, c1.ip, c2.ip)
    ensures GroupAnswers(env, c1, set_) == GroupAnswers(env, c2, set_)
  {
    if ScopePrefix(c1, set_.records).value >= c1.prefixlen {
      SubnetDeterminesAddress(c1, c2);
      assert c1 == c2;
    } else {
      GroupScopeSoundBelowSource(env, c1, c2, set_);
    }
  }

  /**
   The promise of scope 0. Where every view matches all and the policy does not depend on the client, all clients get
   the same rows with scope 0, whatever their family, source prefix and host bits.
   */
  lemma SharedAnswerIsGlobal(env: Env, c1: Network, c2: Network, set_: Rrset)
    requires env.Valid() && c1.ip.Valid() && c2.ip.Valid() && ValidRecords(set_.records)
    requires set_.records != [] && forall r :: r in set_.records ==> IsCatchAll(r)
    requires set_.records[0].policy.Some? ==> set_.records[0].policy.value.NetworkPrefix(c1.ip).None?
    ensures GroupAnswers(env, c1, set_) == GroupAnswers(env, c2, set_)
    ensures forall a :: a in GroupAnswers(env, c1, set_) ==> a.scopeMask == 0
  {
    SharedSelection(env, c1.ip, c2.ip, set_);
    if Select(env, c1.ip, set_).Some? {
      SharedScope(c1, set_.records);
      SharedScope(c2, set_.records);
    }
  }

  lemma SharedScope(c: Network, group: seq<Record>)
    requires group != [] && forall r :: r in group ==> IsCatchAll(r)
    requires group[0].policy.Some? && !group[0].policy.value.StickyHash?
    ensures ScopePrefix(c, group) == Some(0)
  {
  }

  lemma SharedSelection(env: Env, a: Address, b: Address, set_: Rrset)
    requires env.Valid() && a.Valid() && b.Valid() && ValidRecords(set_.records)
    requires set_.records != [] && forall r :: r in set_.records ==> IsCatchAll(r)
    requires set_.records[0].policy.Some? ==> !set_.records[0].policy.value.StickyHash?
    ensures Select(env, a, set_) == Select(env, b, set_)
  {
    AllInView(env.reader, a, set_.records);
    AllInView(env.reader, b, set_.records);
    assert set_.records[0] in set_.records;
  }

  lemma RowWithinSource(env: Env, c: Network, set_: Rrset, row: Answer)
    requires env.Valid() && ValidRecords(set_.records) && row in GroupAnswers(env, c, set_)
    ensures row.scopeMask <= c.prefixlen
  {
    SelectedHasScope(env, c, set_);
    assert ScopePrefix(c, set_.records).value <= c.prefixlen;
  }

  /** No row's scope is longer than the client's source prefix, so a client that opted out gets scope 0. */
  lemma {:induction false} ScopeWithinSource(env: Env, c: Network, groups: seq<Rrset>, row: Answer)
    requires env.Valid() && forall g :: g in groups ==> ValidRecords(g.records)
    requires row in LookupGroups(env, c, groups)
    ensures row.scopeMask <= c.prefixlen
    decreases |groups|
  {
    var n := |groups| - 1;
    var last := groups[n];
    assert last in groups;
    if row in LookupGroups(env, c, groups[..n]) {
      ScopeWithinSource(env, c, groups[..n], row);
    } else {
      RowWithinSource(env, c, last, row);
    }
  }

  function AnswersOf(rows: seq<Answer>, qtype: string): seq<Answer> {
    Filter(rows, (a: Answer) => a.qtype == qtype)
  }

  lemma {:induction false} AllOf(rows: seq<Answer>, qtype: string, same: bool)
    requires forall a :: a in rows ==> (a.qtype == qtype) == same
    ensures AnswersOf(rows, qtype) == if same then rows else []
  {
    if rows != [] {
      assert rows == [rows[0]] + rows[1..];
      AllOf(rows[1..], qtype, same);
    }
  }

  /** What a tiered policy promises of its answer. */
  ghost predicate FromTopTier(answer: seq<Record>, max: nat, candidates: seq<Record>) {
    |answer| == Min(max, |TopTier(candidates)|) && multiset(answer) <= multiset(TopTier(candidates))
  }

  lemma RoundRobinSelects(max: nat, candidates: seq<Record>, draws: Draws)
    requires draws.Valid()
    ensures FromTopTier(RoundRobinSelect(max, candidates, draws), max, candidates)
  {
    var tier := TopTier(candidates);
    if |tier| > max {
      var rest := EqualSampleLeaves(tier, max, draws);
    }
  }

  lemma StickySelects(policy: Policy, candidates: seq<Record>, ip: Address, hash: Hash)
    requires policy.StickyHash? && policy.Valid()
    ensures FromTopTier(StickyHashSelect(policy, candidates, ip, hash), policy.maxAnswers, candidates)
  {
    var tier := TopTier(candidates);
    if tier != [] {
      var answer := StickyHashSelect(policy, candidates, ip, hash);
      var rest := PickIsTop(hash, tier, MaskedNetwork(ip, policy.ipv4Prefix, policy.ipv6Prefix), policy.maxAnswers);
      assert multiset(answer) <= multiset(answer) + multiset(rest);
    }
  }

  lemma WeightedSelects(max: nat, candidates: seq<Record>, draws: Draws)
    requires draws.Valid()
    ensures |WeightedRandomSelect(max, candidates, draws)| == Min(max, |candidates|)
    ensures multiset(WeightedRandomSelect(max, candidates, draws)) <= multiset(candidates)
  {
    var answer := WeightedRandomSelect(max, candidates, draws);
    var rest := SelectionIsASample(max, candidates, draws);
    assert multiset(answer) <= multiset(answer) + multiset(rest);
  }

  /** Every policy answers candidates, none of them more often than it occurs. */
  lemma PolicySelects(policy: Policy, candidates: seq<Record>, ip: Address, hash: Hash, draws: Draws)
    requires policy.Valid() && draws.Valid()
    ensures multiset(PolicySelect(policy, candidates, ip, hash, draws)) <= multiset(candidates)
    ensures policy.WeightedRandom? ==>
              |PolicySelect(policy, candidates, ip, hash, draws)| == Min(policy.maxAnswers, |candidates|)
    ensures !policy.WeightedRandom? ==>
              FromTopTier(PolicySelect(policy, candidates, ip, hash, draws), policy.maxAnswers, candidates)
  {
    FilterIsPart(candidates, HeaviestOf(candidates));
    match policy {
      case RoundRobin(max) => RoundRobinSelects(max, candidates, draws);
      case StickyHash(_, _, _) => StickySelects(policy, candidates, ip, hash);
      case WeightedRandom(max) => WeightedSelects(max, candidates, draws);
    }
  }

  lemma CandidatesInView(isDown: int -> bool, inView: seq<Record>)
    ensures forall r :: r in Candidates(isDown, inView) ==> r in inView
    ensures Candidates(isDown, inView) == [] <==> inView == []
  {
    assert forall i :: 0 <= i < |inView| ==> inView[i] in Specific(inView) || inView[i] in CatchAll(inView);
  }

  /** The records chosen for an rrset are candidates, and so records of the rrset. */
  lemma SelectedAreCandidates(env: Env, ip: Address, set_: Rrset, r: Record)
    requires env.Valid() && ValidRecords(set_.records)
    requires Select(env, ip, set_).Some? && r in Select(env, ip, set_).value
    ensures r in Candidates(env.isDown, InViewOf(env.reader, ip, set_.records)) && r in set_.records
  {
    var inView := InViewOf(env.reader, ip, set_.records);
    assert inView[0] in set_.records;
    assert set_.records[0] in set_.records;
    CandidatesInView(env.isDown, inView);
    PolicySelects(set_.records[0].policy.value, Candidates(env.isDown, inView), ip, env.hash, env.draws(set_.qtype));
    assert r in multiset(Select(env, ip, set_).value);
  }

  lemma GroupAnswersQtype(env: Env, c: Network, set_: Rrset)
    requires env.Valid() && ValidRecords(set_.records) && forall r :: r in set_.records ==> r.qtype == set_.qtype
    ensures forall a :: a in GroupAnswers(env, c, set_) ==>
              a.qtype == set_.qtype && Some(a.scopeMask) == ScopePrefix(c, set_.records)
    ensures Select(env, c.ip, set_).None? ==> GroupAnswers(env, c, set_) == []
  {
    var chosen := Select(env, c.ip, set_);
    if chosen.Some? {
      forall r | r in chosen.value
        ensures r in set_.records
      {
        SelectedAreCandidates(env, c.ip, set_, r);
      }
      SelectedHasScope(env, c, set_);
    }
  }

  ghost predicate WellGrouped(groups: seq<Rrset>) {
    forall g :: g in groups ==> ValidRecords(g.records) && forall r :: r in g.records ==> r.qtype == g.qtype
  }

  /** What the last group adds to the rows of qtype `q`. */
  lemma LastGroupRows(env: Env, c: Network, groups: seq<Rrset>, q: string)
    requires env.Valid() && groups != [] && WellGrouped(groups)
    ensures var n := |groups| - 1;
            AnswersOf(LookupGroups(env, c, groups), q)
            == AnswersOf(LookupGroups(env, c, groups[..n]), q)
               + if groups[n].qtype == q then GroupAnswers(env, c, groups[n]) else []
  {
    var n := |groups| - 1;
    assert groups[n] in groups;
    var last := GroupAnswers(env, c, groups[n]);
    GroupAnswersQtype(env, c, groups[n]);
    AllOf(last, q, groups[n].qtype == q);
    FilterConcat(LookupGroups(env, c, groups[..n]), last, (a: Answer) => a.qtype == q);
  }

  lemma {:induction false} NoRowsOfQtype(env: Env, c: Network, groups: seq<Rrset>, q: string)
    requires env.Valid() && WellGrouped(groups) && forall g :: g in groups ==> g.qtype != q
    ensures AnswersOf(LookupGroups(env, c, groups), q) == []
    decreases |groups|
  {
    if groups != [] {
      var n := |groups| - 1;
      assert groups[n] in groups;
      NoRowsOfQtype(env, c, groups[..n], q);
      LastGroupRows(env, c, groups, q);
    }
  }

  lemma InitStaysGood(groups: seq<Rrset>)
    requires groups != [] && DistinctQtypes(groups) && WellGrouped(groups)
    ensures var n := |groups| - 1;
            && DistinctQtypes(groups[..n]) && WellGrouped(groups[..n])
            && (forall i :: 0 <= i < n ==> groups[..n][i] == groups[i] && groups[i].qtype != groups[n].qtype)
            && forall g :: g in groups[..n] ==> g.qtype != groups[n].qtype
  {
  }

  /** The rows of one qtype in a lookup are the answers of that qtype's rrset. */
  lemma {:induction false} RowsOfQtype(env: Env, c: Network, groups: seq<Rrset>, k: nat)
    requires env.Valid() && k < |groups| && DistinctQtypes(groups) && WellGrouped(groups)
    ensures AnswersOf(LookupGroups(env, c, groups), groups[k].qtype) == GroupAnswers(env, c, groups[k])
    decreases |groups|
  {
    var n, q := |groups| - 1, groups[k].qtype;
    InitStaysGood(groups);
    LastGroupRows(env, c, groups, q);
    if k == n {
      NoRowsOfQtype(env, c, groups[..n], q);
    } else {
      RowsOfQtype(env, c, groups[..n], k);
    }
  }

  lemma {:induction false} RowComesFromRecord(env: Env, c: Network, groups: seq<Rrset>, row: Answer)
    requires env.Valid() && WellGrouped(groups) && row in LookupGroups(env, c, groups)
    ensures exists g :: g in groups && g.qtype == row.qtype
    decreases |groups|
  {
    var n := |groups| - 1;
    assert groups[n] in groups;
    GroupAnswersQtype(env, c, groups[n]);
    if row !in GroupAnswers(env, c, groups[n]) {
      RowComesFromRecord(env, c, groups[..n], row);
    }
  }

  /** A row of a lookup belongs to one rrset, whose answers are all the rows of its qtype, with the row's scope. */
  lemma RowOfRrset(env: Env, c: Network, records: seq<Record>, row: Answer) returns (k: nat)
    requires env.Valid() && ValidRecords(records) && row in Lookup(env, c, records)
    ensures GroupsOf(Grouped(records), records) && WellGrouped(Grouped(records))
    ensures k < |Grouped(records)|
    ensures var g := Grouped(records)[k];
            && g.qtype == row.qtype && g.records != [] && g.records[0].qtype == row.qtype
            && ScopePrefix(c, g.records) == Some(row.scopeMask) && Select(env, c.ip, g).Some?
  {
    var groups := Grouped(records);
    GroupedIsExact(records);
    GroupRecordsValid(groups, records);
    RowComesFromRecord(env, c, groups, row);
    var g :| g in groups && g.qtype == row.qtype;
    k :| 0 <= k < |groups| && groups[k] == g;
    RowsOfQtype(env, c, groups, k);
    assert row in AnswersOf(Lookup(env, c, records), row.qtype);
    GroupAnswersQtype(env, c, g);
    assert g.records[0] in g.records;
  }

  /** The first record of a qtype, whose policy is the rrset's. */
  lemma FirstOfRrset(records: seq<Record>, k: nat)
    requires GroupsOf(Grouped(records), records) && k < |Grouped(records)|
    ensures var (g, i) := (Grouped(records)[k], FirstOf(records, Grouped(records)[k].qtype));
            && i < |records| && g.records != [] && g.records[0] == records[i]
            && forall r :: r in g.records <==> r in records && r.qtype == g.qtype
  {
    var g := Grouped(records)[k];
    assert g in Grouped(records);
    OccursInGroup(Grouped(records), records, k);
    FirstOfFilter(records, g.qtype);
  }

  lemma {:induction false} FirstOfFilter(records: seq<Record>, qtype: string)
    requires FirstOf(records, qtype) < |records|
    ensures Filter(records, HasQtype(qtype)) != []
    ensures Filter(records, HasQtype(qtype))[0] == records[FirstOf(records, qtype)]
  {
    if records[0].qtype != qtype {
      FirstOfFilter(records[1..], qtype);
    }
  }

  /** Some record of the qtype has a view that does not match all. */
  ghost predicate HasNarrowView(records: seq<Record>, qtype: string) {
    exists r :: r in records && r.qtype == qtype && !IsCatchAll(r)
  }

  /**
   The promised scope of a qtype, its policy being that of `first`. SOA, NS and DS: 0. Under a narrow view: the source
   prefix. Otherwise a sticky policy's prefix for the family, or the source prefix if that is shorter, and 0 under the
   other policies.
   */
  ghost predicate PromisedScope(scope: nat, c: Network, records: seq<Record>, first: Record, qtype: string) {
    if qtype in {"SOA", "NS", "DS"} then scope == 0
    else if HasNarrowView(records, qtype) then scope == c.prefixlen
    else
      first.policy.Some?
      && if !first.policy.value.StickyHash? then scope == 0
         else
           var sticky := first.policy.value;
           var p := if c.ip.family == IPv4 then sticky.ipv4Prefix else sticky.ipv6Prefix;
           scope <= p && scope <= c.prefixlen && (scope == p || scope == c.prefixlen)
  }

  lemma ScopeOfGroup(c: Network, group: seq<Record>, qtype: string)
    requires group != [] && ScopePrefix(c, group).Some? && forall r :: r in group ==> r.qtype == qtype
    ensures PromisedScope(ScopePrefix(c, group).value, c, group, group[0], qtype)
  {
    assert group[0] in group;
  }

  /** The scope of every row of a lookup, from the records and the client alone. */
  lemma ScopeOfRow(env: Env, c: Network, records: seq<Record>, row: Answer)
    requires env.Valid() && ValidRecords(records) && row in Lookup(env, c, records)
    ensures FirstOf(records, row.qtype) < |records|
    ensures PromisedScope(row.scopeMask, c, records, records[FirstOf(records, row.qtype)], row.qtype)
  {
    var k := RowOfRrset(env, c, records, row);
    var g := Grouped(records)[k];
    FirstOfRrset(records, k);
    ScopeOfGroup(c, g.records, row.qtype);
    assert HasNarrowView(g.records, row.qtype) <==> HasNarrowView(records, row.qtype);
  }

  /** Clients that get the same answers of every rrset of a qtype get the same rows of that qtype. */
  lemma SameRowsOfQtype(env: Env, c1: Network, c2: Network, records: seq<Record>, k: nat)
    requires env.Valid() && GroupsOf(Grouped(records), records) && WellGrouped(Grouped(records))
             && ValidRecords(records)
    requires k < |Grouped(records)|
    requires GroupAnswers(env, c1, Grouped(records)[k]) == GroupAnswers(env, c2, Grouped(records)[k])
    ensures AnswersOf(Lookup(env, c1, records), Grouped(records)[k].qtype)
            == AnswersOf(Lookup(env, c2, records), Grouped(records)[k].qtype)
  {
    RowsOfQtype(env, c1, Grouped(records), k);
    RowsOfQtype(env, c2, Grouped(records), k);
  }

  /**
   A row whose scope is below the source prefix may be given to every client of any source prefix no shorter than the
   scope that agrees on it, host bits or not: for the row's qtype it gets exactly the same rows.
   */
  lemma LookupScopeSoundBelowSource(env: Env, c1: Network, c2: Network, records: seq<Record>, row: Answer)
    requires env.Valid() && ValidRecords(records) && c1.Valid() && c2.Valid()
    requires row in Lookup(env, c1, records) && row.qtype !in AUTHORITY_QTYPES
    requires row.scopeMask < c1.prefixlen && row.scopeMask <= c2.prefixlen
    requires AgreeOnFirst(row.scopeMask, c1.ip, c2.ip)
    ensures AnswersOf(Lookup(env, c1, records), row.qtype) == AnswersOf(Lookup(env, c2, records), row.qtype)
  {
    var k := RowOfRrset(env, c1, records, row);
    assert Grouped(records)[k] in Grouped(records);
    GroupScopeSoundBelowSource(env, c1, c2, Grouped(records)[k]);
    SameRowsOfQtype(env, c1, c2, records, k);
  }

  /**
   Client-subnet scope soundness (sections 7.2.1 and 7.3.1 of RFC 7871). Take one row of the answer given to `c1`. Any
   client subnet of the same length that agrees with `c1` on the first scopeMask bits of that row gets, for that
   row's qtype, exactly the same rows in the same order with the same scopeMask.
   */
  lemma LookupScopeSound(env: Env, c1: Network, c2: Network, records: seq<Record>, row: Answer)
    requires env.Valid() && ValidRecords(records)
    requires ClientSubnet(c1) && ClientSubnet(c2) && c1.prefixlen == c2.prefixlen
    requires row in Lookup(env, c1, records) && row.qtype !in AUTHORITY_QTYPES
    requires AgreeOnFirst(row.scopeMask, c1.ip, c2.ip)
    ensures AnswersOf(Lookup(env, c1, records), row.qtype) == AnswersOf(Lookup(env, c2, records), row.qtype)
  {
    var k := RowOfRrset(env, c1, records, row);
    assert Grouped(records)[k] in Grouped(records);
    GroupScopeSound(env, c1, c2, Grouped(records)[k]);
    SameRowsOfQtype(env, c1, c2, records, k);
  }

  // Which tier an answer comes from.

  /** 0: live specific, 1: live catch-all, 2: down specific, 3: down catch-all. */
  function TierOf(isDown: int -> bool, r: Record): nat {
    (if isDown(r.id) then 2 else 0) + (if IsCatchAll(r) then 1 else 0)
  }

  function TierIs(isDown: int -> bool, tier: nat): Record -> bool {
    (r: Record) => TierOf(isDown, r) == tier
  }

  lemma {:induction false} FilterTwice(s: seq<Record>, p: Record -> bool, q: Record -> bool, both: Record -> bool)
    requires forall r :: r in s ==> (both(r) <==> p(r) && q(r))
    ensures Filter(Filter(s, p), q) == Filter(s, both)
  {
    if s != [] {
      assert s == [s[0]] + s[1..];
      FilterTwice(s[1..], p, q, both);
      if p(s[0]) {
        assert ([s[0]] + Filter(s[1..], p))[1..] == Filter(s[1..], p);
      }
    }
  }

  /** The candidates are, in order, exactly the in-view records of the best tier that has any. */
  lemma CandidatesAreBestTier(isDown: int -> bool, inView: seq<Record>) returns (tier: nat)
    requires inView != []
    ensures tier < 4 && Candidates(isDown, inView) == Filter(inView, TierIs(isDown, tier))
    ensures Candidates(isDown, inView) != []
    ensures forall r :: r in inView ==> tier <= TierOf(isDown, r)
  {
    var live := (r: Record) => !isDown(r.id);
    FilterTwice(inView, IsSpecific, live, TierIs(isDown, 0));
    FilterTwice(inView, IsCatchAll, live, TierIs(isDown, 1));
    var t0, t1 := Filter(inView, TierIs(isDown, 0)), Filter(inView, TierIs(isDown, 1));
    assert Live(isDown, Specific(inView)) == t0 && Live(isDown, CatchAll(inView)) == t1;
    CandidatesInView(isDown, inView);
    EmptyTier(isDown, inView, 0);
    EmptyTier(isDown, inView, 1);
    if t0 != [] {
      tier := 0;
    } else if t1 != [] {
      tier := 1;
    } else if Specific(inView) != [] {
      FilterSame(inView, IsSpecific, TierIs(isDown, 2));
      tier := 2;
    } else {
      EmptySpecific(inView);
      FilterSame(inView, IsCatchAll, TierIs(isDown, 3));
      tier := 3;
    }
  }

  lemma EmptyTier(isDown: int -> bool, inView: seq<Record>, tier: nat)
    ensures Filter(inView, TierIs(isDown, tier)) == [] ==> forall r :: r in inView ==> TierOf(isDown, r) != tier
  {
    assert forall r :: r in inView && TierOf(isDown, r) == tier ==> r in Filter(inView, TierIs(isDown, tier));
  }

  lemma EmptySpecific(inView: seq<Record>)
    requires Specific(inView) == []
    ensures forall r :: r in inView ==> IsCatchAll(r)
  {
    assert forall r :: r in inView && IsSpecific(r) ==> r in Specific(inView);
  }

  lemma InViewIsAnswered(env: Env, ip: Address, set_: Rrset, some: Record)
    requires env.Valid() && ValidRecords(set_.records) && set_.records != [] && set_.records[0].policy.Some?
    requires some in set_.records && InView(env.reader, ip, some)
    ensures InViewOf(env.reader, ip, set_.records) != []
    ensures set_.records[0].policy.value.Valid()
    ensures Select(env, ip, set_)
            == Some(PolicySelect(set_.records[0].policy.value,
                                 Candidates(env.isDown, InViewOf(env.reader, ip, set_.records)), ip, env.hash,
                                 env.draws(set_.qtype)))
  {
    assert some in InViewOf(env.reader, ip, set_.records);
    assert set_.records[0] in set_.records;
  }

  /**
   Tier choice. Whatever each health read returned, an rrset with an in-view record and a policy that compiles gets a
   non-empty answer out of one tier only, so never a mix of specific and catch-all records, and no in-view record
   belongs to a better tier; no record is answered more often than it occurs. Under round-robin and sticky-hash the
   answer is min(max_answers, n) of the n candidates of maximal weight, under weighted-random of all n candidates.
   */
  lemma AnswersComeFromOneTier(env: Env, ip: Address, set_: Rrset) returns (tier: nat)
    requires env.Valid() && ValidRecords(set_.records)
    requires exists r :: r in set_.records && InView(env.reader, ip, r)
    requires set_.records[0].policy.Some?
    ensures Select(env, ip, set_).Some? && Select(env, ip, set_).value != []
    ensures forall r :: r in Select(env, ip, set_).value ==>
              r in set_.records && InView(env.reader, ip, r) && TierOf(env.isDown, r) == tier
    ensures forall r :: r in set_.records && InView(env.reader, ip, r) ==> tier <= TierOf(env.isDown, r)
    ensures var candidates := Filter(InViewOf(env.reader, ip, set_.records), TierIs(env.isDown, tier));
            && multiset(Select(env, ip, set_).value) <= multiset(candidates)
            && (set_.records[0].policy.value.WeightedRandom? ==>
                  |Select(env, ip, set_).value| == Min(set_.records[0].policy.value.maxAnswers, |candidates|))
    ensures !set_.records[0].policy.value.WeightedRandom? ==>
              FromTopTier(Select(env, ip, set_).value, set_.records[0].policy.value.maxAnswers,
                          Filter(InViewOf(env.reader, ip, set_.records), TierIs(env.isDown, tier)))
  {
    var inView := InViewOf(env.reader, ip, set_.records);
    var some :| some in set_.records && InView(env.reader, ip, some);
    InViewIsAnswered(env, ip, set_, some);
    tier := CandidatesAreBestTier(env.isDown, inView);
    var policy, candidates := set_.records[0].policy.value, Candidates(env.isDown, inView);
    PolicySelects(policy, candidates, ip, env.hash, env.draws(set_.qtype));
    AnswerOfCandidates(policy, candidates, Select(env, ip, set_).value);
    assert forall r :: r in candidates ==> r in inView && TierOf(env.isDown, r) == tier;
  }

  lemma AnswerOfCandidates(policy: Policy, candidates: seq<Record>, answer: seq<Record>)
    requires policy.Valid() && candidates != [] && multiset(answer) <= multiset(candidates)
    requires policy.WeightedRandom? ==> |answer| == Min(policy.maxAnswers, |candidates|)
    requires !policy.WeightedRandom? ==> FromTopTier(answer, policy.maxAnswers, candidates)
    ensures answer != [] && forall r :: r in answer ==> r in candidates
  {
    assert TopTier(candidates) != [];
    assert forall r :: r in answer ==> r in multiset(answer);
  }
}
