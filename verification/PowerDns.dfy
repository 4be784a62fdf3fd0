/** The lookup pipeline of the PowerDNS remote backend: view filter, tier, routing policy, client-subnet scope. */
module PowerDns {
  import opened Common
  import opened Client
  import opened Routing
  import opened StickyHashing
  import opened WeightedSampling

  /**
   Everything a lookup depends on besides the client and the records. A lookup reads the health of a record at most
   once, so `isDown` gives, per record id, whatever that one read returned; health may change between reads.
   Each rrset draws from its own source.
   */
  datatype Env = Env(reader: GeoReader, hash: Hash, isDown: int -> bool, draws: string -> Draws) {
    ghost predicate Valid() {
      forall qtype :: draws(qtype).Valid()
    }
  }

  ghost predicate ValidRecord(r: Record) {
    (r.rule.Some? ==> r.rule.value.Valid()) && (r.policy.Some? ==> r.policy.value.Valid())
  }

  ghost predicate ValidRecords(s: seq<Record>) {
    forall r :: r in s ==> ValidRecord(r)
  }

  const AUTHORITY_QTYPES: set<string> := {"SOA", "NS", "DS"}

  /** One rrset: an entry of the dictionary that groups the fetched records by qtype. */
  datatype Rrset = Rrset(qtype: string, records: seq<Record>)

  datatype Answer = Answer(qname: string, qtype: string, content: string, ttl: nat, scopeMask: nat)

  // View filter and tiers.

  predicate InView(reader: GeoReader, ip: Address, r: Record) {
    r.rule.Some? && r.rule.value.Admits(reader, ip)
  }

  function InViewTest(reader: GeoReader, ip: Address): Record -> bool {
    r => InView(reader, ip, r)
  }

  /** The records whose view rule compiles and admits the client. */
  function InViewOf(reader: GeoReader, ip: Address, group: seq<Record>): seq<Record> {
    Filter(group, InViewTest(reader, ip))
  }

  predicate IsCatchAll(r: Record) {
    r.rule.Some? && r.rule.value.MatchesAll()
  }

  predicate IsSpecific(r: Record) {
    !IsCatchAll(r)
  }

  function Specific(inView: seq<Record>): seq<Record> {
    Filter(inView, IsSpecific)
  }

  function CatchAll(inView: seq<Record>): seq<Record> {
    Filter(inView, IsCatchAll)
  }

  function Live(isDown: int -> bool, records: seq<Record>): seq<Record> {
    Filter(records, (r: Record) => !isDown(r.id))
  }

  /** Python's `or`: the first operand unless it is empty. */
  function Or(a: seq<Record>, b: seq<Record>): seq<Record> {
    if a != [] then a else b
  }

  function Candidates(isDown: int -> bool, inView: seq<Record>): seq<Record> {
    Or(Or(Or(Live(isDown, Specific(inView)), Live(isDown, CatchAll(inView))), Specific(inView)), CatchAll(inView))
  }

  function PolicySelect(policy: Policy, candidates: seq<Record>, ip: Address, hash: Hash, draws: Draws): seq<Record>
    requires policy.Valid() && draws.Valid()
  {
    match policy
    case RoundRobin(max) => RoundRobinSelect(max, candidates, draws)
    case StickyHash(_, _, _) => StickyHashSelect(policy, candidates, ip, hash)
    case WeightedRandom(max) => WeightedRandomSelect(max, candidates, draws)
  }

  /** The answers chosen for one rrset; None when no record is in view or the policy does not compile. */
  function Select(env: Env, ip: Address, set_: Rrset): Option<seq<Record>>
    requires env.Valid() && ValidRecords(set_.records)
  {
    var inView := InViewOf(env.reader, ip, set_.records);
    if inView == [] then None
    else
      assert inView[0] in set_.records;
      if set_.records[0].policy.None? then None
      else
        assert set_.records[0] in set_.records;
        Some(PolicySelect(set_.records[0].policy.value, Candidates(env.isDown, inView), ip, env.hash,
                          env.draws(set_.qtype)))
  }

  /** The scope of an rrset for a client; None is the ValueError of a policy that does not compile. */
  function ScopePrefix(client: Network, group: seq<Record>): Option<nat> {
    if group == [] || group[0].qtype in AUTHORITY_QTYPES then Some(0)
    else if exists r :: r in group && !IsCatchAll(r) then Some(client.prefixlen)
    else if group[0].policy.None? then None
    else match group[0].policy.value.NetworkPrefix(client.ip)
      case Some(prefix) => Some(Min(prefix, client.prefixlen))
      case None => Some(0)
  }

  function ToAnswers(records: seq<Record>, scope: nat): (a: seq<Answer>)
    ensures |a| == |records|
    ensures forall i :: 0 <= i < |records| ==>
              a[i] == Answer(records[i].qname, records[i].qtype, records[i].content, records[i].ttl, scope)
  {
    seq(|records|, i requires 0 <= i < |records| =>
      Answer(records[i].qname, records[i].qtype, records[i].content, records[i].ttl, scope))
  }

  lemma SelectedHasScope(env: Env, client: Network, set_: Rrset)
    requires env.Valid() && ValidRecords(set_.records) && Select(env, client.ip, set_).Some?
    ensures ScopePrefix(client, set_.records).Some?
  {
  }

  /** The answer rows of one rrset. */
  function GroupAnswers(env: Env, client: Network, set_: Rrset): seq<Answer>
    requires env.Valid() && ValidRecords(set_.records)
  {
    var chosen := Select(env, client.ip, set_);
    if chosen.None? then []
    else
      SelectedHasScope(env, client, set_);
      ToAnswers(chosen.value, ScopePrefix(client, set_.records).value)
  }

  // Grouping by qtype.

  function HasQtype(qtype: string): Record -> bool {
    (r: Record) => r.qtype == qtype
  }

  /** `all_records[record['qtype']].append(record)` on an insertion-ordered defaultdict of lists. */
  function Append(groups: seq<Rrset>, r: Record): seq<Rrset> {
    if groups == [] then [Rrset(r.qtype, [r])]
    else if groups[0].qtype == r.qtype then [Rrset(r.qtype, groups[0].records + [r])] + groups[1..]
    else [groups[0]] + Append(groups[1..], r)
  }

  function Grouped(records: seq<Record>): seq<Rrset> {
    if records == [] then []
    else Append(Grouped(records[..|records| - 1]), records[|records| - 1])
  }

  function LookupGroups(env: Env, client: Network, groups: seq<Rrset>): seq<Answer>
    requires env.Valid() && forall g :: g in groups ==> ValidRecords(g.records)
  {
    if groups == [] then []
    else
      var n := |groups| - 1;
      LookupGroups(env, client, groups[..n]) + GroupAnswers(env, client, groups[n])
  }

  ghost predicate DistinctQtypes(groups: seq<Rrset>) {
    forall i, j :: 0 <= i < j < |groups| ==> groups[i].qtype != groups[j].qtype
  }

  ghost predicate Has(groups: seq<Rrset>, qtype: string) {
    exists g :: g in groups && g.qtype == qtype
  }

  /** The position of the first record of a qtype, or the number of records. */
  function FirstOf(records: seq<Record>, qtype: string): (i: nat)
    ensures i <= |records| && (i < |records| ==> records[i].qtype == qtype)
    ensures forall k :: 0 <= k < i ==> records[k].qtype != qtype
  {
    if records == [] || records[0].qtype == qtype then 0 else 1 + FirstOf(records[1..], qtype)
  }

  /** A dictionary keeps insertion order: the entries stand in the order in which their qtypes first occur. */
  ghost predicate InFirstOrder(groups: seq<Rrset>, records: seq<Record>) {
    forall i, j :: 0 <= i < j < |groups| ==> FirstOf(records, groups[i].qtype) < FirstOf(records, groups[j].qtype)
  }

  /**
   The reference meaning of `groups`: one entry per qtype that occurs, in order of first occurrence, holding that
   qtype's records in order.
   */
  ghost predicate GroupsOf(groups: seq<Rrset>, records: seq<Record>) {
    && DistinctQtypes(groups) && InFirstOrder(groups, records)
    && (forall g :: g in groups ==> g.records == Filter(records, HasQtype(g.qtype)) && g.records != [])
    && (forall r :: r in records ==> Has(groups, r.qtype))
  }

  lemma HasCons(g: Rrset, rest: seq<Rrset>, q: string)
    ensures Has([g] + rest, q) <==> g.qtype == q || Has(rest, q)
  {
    if Has(rest, q) {
      var o :| o in rest && o.qtype == q;
      assert o in [g] + rest;
    }
    assert g in [g] + rest;
  }

  lemma {:induction false} AppendQtypes(groups: seq<Rrset>, r: Record, q: string)
    ensures Has(Append(groups, r), q) <==> Has(groups, q) || q == r.qtype
  {
    if groups == [] {
      HasCons(Rrset(r.qtype, [r]), [], q);
    } else {
      var rest := groups[1..];
      assert groups == [groups[0]] + rest;
      HasCons(groups[0], rest, q);
      if groups[0].qtype == r.qtype {
        HasCons(Rrset(r.qtype, groups[0].records + [r]), rest, q);
      } else {
        AppendQtypes(rest, r, q);
        HasCons(groups[0], Append(rest, r), q);
      }
    }
  }

  lemma {:induction false} AppendStaysDistinct(groups: seq<Rrset>, r: Record)
    requires DistinctQtypes(groups)
    ensures DistinctQtypes(Append(groups, r))
  {
    if groups != [] && groups[0].qtype != r.qtype {
      AppendStaysDistinct(groups[1..], r);
      AppendQtypes(groups[1..], r, groups[0].qtype);
      var rest := Append(groups[1..], r);
      assert !Has(groups[1..], groups[0].qtype);
      assert forall k :: 0 <= k < |rest| ==> rest[k] in rest;
    }
  }

  /** An entry after appending is an entry from before, the entry of `r`'s qtype with `r` added, or a new entry. */
  lemma {:induction false} AppendMembers(groups: seq<Rrset>, r: Record, g: Rrset)
    requires DistinctQtypes(groups) && g in Append(groups, r)
    ensures g.qtype != r.qtype ==> g in groups
    ensures g.qtype == r.qtype ==>
              if Has(groups, r.qtype) then exists o :: o in groups && o.qtype == r.qtype && g.records == o.records + [r]
              else g.records == [r]
  {
    if groups != [] {
      var first, rest := groups[0], groups[1..];
      assert groups == [first] + rest && first in groups;
      HasCons(first, rest, r.qtype);
      if first.qtype == r.qtype {
        assert forall o :: o in rest ==> o.qtype != r.qtype;
      } else if g != first {
        AppendMembers(rest, r, g);
      }
    }
  }

  /** Appending leaves the qtypes of the entries as they stand, and adds a new qtype at the end. */
  lemma {:induction false} AppendAtEnd(groups: seq<Rrset>, r: Record)
    ensures |groups| <= |Append(groups, r)| <= |groups| + 1
    ensures forall i :: 0 <= i < |groups| ==> Append(groups, r)[i].qtype == groups[i].qtype
    ensures |Append(groups, r)| > |groups| ==> !Has(groups, r.qtype) && Append(groups, r)[|groups|].qtype == r.qtype
  {
    if groups != [] && groups[0].qtype != r.qtype {
      AppendAtEnd(groups[1..], r);
      assert groups == [groups[0]] + groups[1..];
      HasCons(groups[0], groups[1..], r.qtype);
    }
  }

  lemma FirstIsUnique(records: seq<Record>, qtype: string, i: nat)
    requires i < |records| && records[i].qtype == qtype && forall k :: 0 <= k < i ==> records[k].qtype != qtype
    ensures FirstOf(records, qtype) == i
  {
  }

  lemma FirstStays(init: seq<Record>, r: Record, qtype: string)
    requires FirstOf(init, qtype) < |init|
    ensures FirstOf(init + [r], qtype) == FirstOf(init, qtype)
  {
    FirstIsUnique(init + [r], qtype, FirstOf(init, qtype));
  }

  lemma OccursInGroup(groups: seq<Rrset>, records: seq<Record>, i: nat)
    requires GroupsOf(groups, records) && i < |groups|
    ensures FirstOf(records, groups[i].qtype) < |records|
  {
    var g := groups[i];
    assert g in groups && g.records[0] in g.records;
    assert g.records[0] in records;
  }

  lemma AppendKeepsOrder(init: seq<Record>, r: Record, before: seq<Rrset>)
    requires GroupsOf(before, init)
    ensures InFirstOrder(Append(before, r), init + [r])
  {
    var after, records := Append(before, r), init + [r];
    AppendAtEnd(before, r);
    forall i | 0 <= i < |before|
      ensures FirstOf(records, after[i].qtype) == FirstOf(init, before[i].qtype) < |init|
    {
      OccursInGroup(before, init, i);
      FirstStays(init, r, before[i].qtype);
    }
    if |after| > |before| {
      NewQtypeComesLast(init, r, before);
    }
  }

  lemma NewQtypeComesLast(init: seq<Record>, r: Record, before: seq<Rrset>)
    requires GroupsOf(before, init) && !Has(before, r.qtype)
    ensures FirstOf(init + [r], r.qtype) == |init|
  {
    forall k | 0 <= k < |init|
      ensures (init + [r])[k].qtype != r.qtype
    {
      assert init[k] in init;
    }
    FirstIsUnique(init + [r], r.qtype, |init|);
  }

  lemma AppendedRecords(init: seq<Record>, r: Record, before: seq<Rrset>, g: Rrset)
    requires GroupsOf(before, init) && g in Append(before, r)
    ensures g.records == Filter(init + [r], HasQtype(g.qtype)) && g.records != []
  {
    AppendMembers(before, r, g);
    FilterConcat(init, [r], HasQtype(g.qtype));
    if g.qtype == r.qtype && !Has(before, r.qtype) {
      NoneOfType(init, g.qtype);
    }
  }

  lemma NoneOfType(s: seq<Record>, qtype: string)
    requires forall x :: x in s ==> x.qtype != qtype
    ensures Filter(s, HasQtype(qtype)) == []
  {
    var f := Filter(s, HasQtype(qtype));
    assert forall x :: x in f ==> x in s && x.qtype == qtype;
    assert forall i :: 0 <= i < |f| ==> f[i] in f;
  }

  lemma {:induction false} GroupedIsExact(records: seq<Record>)
    ensures GroupsOf(Grouped(records), records)
  {
    if records != [] {
      var init, r := records[..|records| - 1], records[|records| - 1];
      GroupedIsExact(init);
      AppendStaysDistinct(Grouped(init), r);
      AppendKeepsOrder(init, r, Grouped(init));
      assert records == init + [r];
      forall g | g in Grouped(records)
        ensures g.records == Filter(records, HasQtype(g.qtype)) && g.records != []
      {
        AppendedRecords(init, r, Grouped(init), g);
      }
      forall x | x in records
        ensures Has(Grouped(records), x.qtype)
      {
        AppendQtypes(Grouped(init), r, x.qtype);
      }
    }
  }

  lemma GroupRecordsValid(groups: seq<Rrset>, records: seq<Record>)
    requires ValidRecords(records) && GroupsOf(groups, records)
    ensures forall g :: g in groups ==> ValidRecords(g.records)
  {
  }

  /** The answer rows of a lookup for the fetched records. */
  function Lookup(env: Env, client: Network, records: seq<Record>): seq<Answer>
    requires env.Valid() && ValidRecords(records)
  {
    GroupedIsExact(records);
    GroupRecordsValid(Grouped(records), records);
    LookupGroups(env, client, Grouped(records))
  }

  /** The request handler: one client context per request. */
  class PowerDNSRequestHandler {
    const context: ClientContext
    const env: Env

    constructor (context: ClientContext, env: Env)
      ensures this.context == context && this.env == env
    {
      this.context := context;
      this.env := env;
    }

    ghost predicate Valid()
      reads context
    {
      env.Valid() && context.ip.Valid() && context.Valid(env.reader)
    }

    ghost function Client(): Network {
      Network(context.ip, context.prefixlen)
    }

    /** A rule that does not compile never matches; otherwise the rule decides, resolving the geo at most once. */
    method IsInView(record: Record) returns (hit: bool)
      requires Valid() && ValidRecord(record)
      modifies context`geo
      ensures Valid() && hit == InView(env.reader, context.ip, record)
      ensures old(context.geo.Some?) ==> context.geo == old(context.geo)
    {
      if record.rule.None? {
        return false;
      }
      hit := record.rule.value.Matches(env.reader, context);
    }

    /** The in-view records of a group, in order. */
    method FilterInView(group: seq<Record>) returns (inView: seq<Record>)
      requires Valid() && ValidRecords(group)
      modifies context`geo
      ensures Valid() && inView == InViewOf(env.reader, context.ip, group)
    {
      inView := [];
      for i := 0 to |group|
        invariant Valid()
        invariant inView == InViewOf(env.reader, context.ip, group[..i])
      {
        var hit := IsInView(group[i]);
        FilterOneMore(group, i, InViewTest(env.reader, context.ip));
        if hit {
          inView := inView + [group[i]];
        }
      }
      assert group[..|group|] == group;
    }

    /** The answers of one rrset, or None when the qtype is dropped. */
    method SelectRrset(set_: Rrset) returns (chosen: Option<seq<Record>>)
      requires Valid() && ValidRecords(set_.records)
      modifies context`geo
      ensures Valid() && chosen == Select(env, context.ip, set_)
    {
      var inView := FilterInView(set_.records);
      if inView == [] {
        return None;
      }
      var specific, catchAll := Split(inView);
      var candidates := Or(Or(Or(Live(env.isDown, specific), Live(env.isDown, catchAll)), specific), catchAll);
      assert inView[0] in set_.records;
      if set_.records[0].policy.None? {
        return None;
      }
      assert set_.records[0] in set_.records;
      chosen := Some(PolicySelect(set_.records[0].policy.value, candidates, context.ip, env.hash,
                                  env.draws(set_.qtype)));
    }

    /** The answers of every rrset that has an in-view record and a policy that compiles, in dictionary order. */
    method SelectRecords(allRecords: seq<Rrset>) returns (selected: seq<(Rrset, seq<Record>)>)
      requires Valid() && forall g :: g in allRecords ==> ValidRecords(g.records)
      modifies context`geo
      ensures Valid() && selected == SelectAll(env, context.ip, allRecords)
    {
      selected := [];
      for i := 0 to |allRecords|
        invariant Valid()
        invariant selected == SelectAll(env, context.ip, allRecords[..i])
      {
        var chosen := SelectRrset(allRecords[i]);
        assert allRecords[..i + 1][..i] == allRecords[..i];
        if chosen.Some? {
          selected := selected + [(allRecords[i], chosen.value)];
        }
      }
      assert allRecords[..|allRecords|] == allRecords;
    }

    /** The answer rows of a lookup: group by qtype, select per rrset, scope on the full rrset. */
    method GetLookup(records: seq<Record>) returns (result: seq<Answer>)
      requires Valid() && ValidRecords(records)
      modifies context`geo
      ensures Valid() && result == Lookup(env, Client(), records)
    {
      var groups := GroupByQtype(records);
      GroupedIsExact(records);
      GroupRecordsValid(groups, records);
      var selected := SelectRecords(groups);
      SelectAllGivesLookup(env, Client(), groups);
      result := ScopeRows(Network(context.ip, context.prefixlen), selected);
    }
  }

  lemma SplitOneMore(inView: seq<Record>, i: nat)
    requires i < |inView|
    ensures Specific(inView[..i + 1]) == Specific(inView[..i]) + if IsCatchAll(inView[i]) then [] else [inView[i]]
    ensures CatchAll(inView[..i + 1]) == CatchAll(inView[..i]) + if IsCatchAll(inView[i]) then [inView[i]] else []
  {
    FilterOneMore(inView, i, IsSpecific);
    FilterOneMore(inView, i, IsCatchAll);
  }

  /** The split of the in-view records into specific and catch-all ones. */
  method Split(inView: seq<Record>) returns (specific: seq<Record>, catchAll: seq<Record>)
    ensures specific == Specific(inView) && catchAll == CatchAll(inView)
  {
    specific, catchAll := [], [];
    for i := 0 to |inView|
      invariant specific == Specific(inView[..i]) && catchAll == CatchAll(inView[..i])
    {
      var r := inView[i];
      SplitOneMore(inView, i);
      if IsCatchAll(r) {
        catchAll := catchAll + [r];
      } else {
        specific := specific + [r];
      }
    }
    assert inView[..|inView|] == inView;
  }

  method GroupByQtype(records: seq<Record>) returns (groups: seq<Rrset>)
    ensures groups == Grouped(records)
  {
    groups := [];
    for i := 0 to |records|
      invariant groups == Grouped(records[..i])
    {
      assert records[..i + 1][..i] == records[..i];
      groups := Append(groups, records[i]);
    }
    assert records[..|records|] == records;
  }

  method ScopeRows(client: Network, selected: seq<(Rrset, seq<Record>)>) returns (result: seq<Answer>)
    requires Scoped(client, selected)
    ensures result == Rows(client, selected)
  {
    result := [];
    assert selected[..0] == [];
    for i := 0 to |selected|
      invariant Scoped(client, selected[..i]) && result == Rows(client, selected[..i])
    {
      RowsOneMore(client, selected, i);
      result := result + ToAnswers(selected[i].1, ScopePrefix(client, selected[i].0.records).value);
    }
    assert selected[..|selected|] == selected;
  }

  lemma RowsOneMore(client: Network, selected: seq<(Rrset, seq<Record>)>, i: nat)
    requires Scoped(client, selected) && i < |selected|
    ensures Scoped(client, selected[..i]) && Scoped(client, selected[..i + 1])
    ensures ScopePrefix(client, selected[i].0.records).Some?
    ensures Rows(client, selected[..i + 1])
            == Rows(client, selected[..i]) + ToAnswers(selected[i].1, ScopePrefix(client, selected[i].0.records).value)
  {
    assert selected[i] in selected;
    assert selected[..i + 1][..i] == selected[..i];
  }

  /** `selected`: the rrsets that are answered, with the records chosen. */
  function SelectAll(env: Env, ip: Address, groups: seq<Rrset>): (s: seq<(Rrset, seq<Record>)>)
    requires env.Valid() && forall g :: g in groups ==> ValidRecords(g.records)
  {
    if groups == [] then []
    else
      var n := |groups| - 1;
      var chosen := Select(env, ip, groups[n]);
      SelectAll(env, ip, groups[..n]) + if chosen.Some? then [(groups[n], chosen.value)] else []
  }

  ghost predicate Scoped(client: Network, selected: seq<(Rrset, seq<Record>)>) {
    forall s :: s in selected ==> ScopePrefix(client, s.0.records).Some?
  }

  function Rows(client: Network, selected: seq<(Rrset, seq<Record>)>): seq<Answer>
    requires Scoped(client, selected)
  {
    if selected == [] then []
    else
      var n := |selected| - 1;
      assert selected[n] in selected;
      Rows(client, selected[..n]) + ToAnswers(selected[n].1, ScopePrefix(client, selected[n].0.records).value)
  }

  lemma {:induction false} SelectAllGivesLookup(env: Env, client: Network, groups: seq<Rrset>)
    requires env.Valid() && forall g :: g in groups ==> ValidRecords(g.records)
    ensures Scoped(client, SelectAll(env, client.ip, groups))
    ensures Rows(client, SelectAll(env, client.ip, groups)) == LookupGroups(env, client, groups)
  {
    if groups != [] {
      var n := |groups| - 1;
      SelectAllGivesLookup(env, client, groups[..n]);
      var before := SelectAll(env, client.ip, groups[..n]);
      var chosen := Select(env, client.ip, groups[n]);
      if chosen.Some? {
        SelectedHasScope(env, client, groups[n]);
        assert (before + [(groups[n], chosen.value)])[..|before|] == before;
      } else {
        assert SelectAll(env, client.ip, groups) == before;
      }
    }
  }
}
