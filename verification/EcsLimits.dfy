/** The limits of the scope: authority qtypes, clients of another source length, and empty answers. */
module EcsLimits {
  import opened Common
  import opened Bits
  import opened Client
  import opened ViewRules
  import opened Routing
  import opened PowerDns
  import opened EcsScope

  // Authority qtypes.

  /** `row` was given to `c1`, and `c2`, another client subnet of that length, agrees with `c1` on the row's scope. */
  ghost predicate Reusable(env: Env, c1: Network, c2: Network, records: seq<Record>, row: Answer)
    requires env.Valid()
  {
    && ValidRecords(records) && ClientSubnet(c1) && ClientSubnet(c2) && c1.prefixlen == c2.prefixlen
    && row in Lookup(env, c1, records) && AgreeOnFirst(row.scopeMask, c1.ip, c2.ip)
  }

  ghost predicate SameRows(env: Env, c1: Network, c2: Network, records: seq<Record>, qtype: string)
    requires env.Valid() && ValidRecords(records)
  {
    AnswersOf(Lookup(env, c1, records), qtype) == AnswersOf(Lookup(env, c2, records), qtype)
  }

  /** Every reuse of a row of this qtype within its scope by client subnets of the same length is right. */
  ghost predicate ScopeIsSound(env: Env, qtype: string)
    requires env.Valid()
  {
    forall c1, c2, records, row :: Reusable(env, c1, c2, records, row) && row.qtype == qtype ==>
      SameRows(env, c1, c2, records, qtype)
  }

  /** Among client subnets of one length, the scope is sound for exactly the qtypes not forced to scope 0. */
  lemma ScopeIsSoundExactly(env: Env, qtype: string)
    requires env.Valid()
    ensures ScopeIsSound(env, qtype) <==> qtype !in AUTHORITY_QTYPES
  {
    if qtype in AUTHORITY_QTYPES {
      AuthorityIsUnsound(env, qtype);
    } else {
      forall c1, c2, records, row | Reusable(env, c1, c2, records, row) && row.qtype == qtype
        ensures SameRows(env, c1, c2, records, qtype)
      {
        LookupScopeSound(env, c1, c2, records, row);
      }
    }
  }

  lemma AuthorityIsUnsound(env: Env, qtype: string)
    requires env.Valid() && qtype in AUTHORITY_QTYPES
    ensures !ScopeIsSound(env, qtype)
  {
    AuthorityScopeDoesNotSeparate(env, qtype);
    var c1, c2 := Network(Address(IPv4, 0), 1), Network(Address(IPv4, Pow2(31)), 1);
    var records, row := [OneRecord(qtype, IPv4, 1)], Answer("a.example", qtype, "x", 60, 0);
    OneRowOfQtype(row);
    assert Reusable(env, c1, c2, records, row);
    assert !SameRows(env, c1, c2, records, qtype);
  }

  lemma OneRowOfQtype(row: Answer)
    ensures AnswersOf([row], row.qtype) == [row] && AnswersOf([], row.qtype) == []
  {
  }

  // Clients of another source length.

  /** `row`, of scope `scope`, was given to the client subnet `c1`, and `c2` of length `p2` agrees on that scope. */
  ghost predicate ReusableAcross(env: Env, c1: Network, c2: Network, p1: nat, p2: nat, records: seq<Record>,
                                 row: Answer)
    requires env.Valid()
  {
    && ValidRecords(records) && ClientSubnet(c1) && ClientSubnet(c2) && c1.prefixlen == p1 && c2.prefixlen == p2
    && row in Lookup(env, c1, records) && AgreeOnFirst(row.scopeMask, c1.ip, c2.ip)
  }

  /** Every reuse of a row of this qtype and scope, given to a client of length `p1`, by one of length `p2` is right. */
  ghost predicate ReuseIsSound(env: Env, qtype: string, family: Family, p1: nat, p2: nat, scope: nat)
    requires env.Valid()
  {
    forall c1, c2, records, row ::
      ReusableAcross(env, c1, c2, p1, p2, records, row) && c1.ip.family == family
      && row.qtype == qtype && row.scopeMask == scope ==>
        SameRows(env, c1, c2, records, qtype)
  }

  /**
   Across source lengths, a scope is good for every client that agrees on it exactly when it is below the source prefix
   it was computed for. A row with the full source prefix as its scope is good for clients of that length only.
   */
  lemma ReuseIsSoundExactly(env: Env, qtype: string, family: Family, p1: nat, p2: nat, scope: nat)
    requires env.Valid() && qtype !in AUTHORITY_QTYPES
    requires p1 <= Width(family) && p2 <= Width(family) && scope <= p1 && scope <= p2
    ensures ReuseIsSound(env, qtype, family, p1, p2, scope) <==> p1 == p2 || scope < p1
  {
    if p1 == p2 || scope < p1 {
      forall c1, c2, records, row
        | ReusableAcross(env, c1, c2, p1, p2, records, row) && c1.ip.family == family
          && row.qtype == qtype && row.scopeMask == scope
        ensures SameRows(env, c1, c2, records, qtype)
      {
        if p1 == p2 {
          LookupScopeSound(env, c1, c2, records, row);
        } else {
          LookupScopeSoundBelowSource(env, c1, c2, records, row);
        }
      }
    } else {
      FullScopeIsUnsound(env, qtype, family, p1, p2);
    }
  }

  /**
   With a view one bit longer than the source prefix, a longer client subnet that agrees on that prefix is outside.
   */
  lemma FullScopeIsUnsound(env: Env, qtype: string, family: Family, p1: nat, p2: nat)
    requires env.Valid() && qtype !in AUTHORITY_QTYPES && p1 < p2 <= Width(family)
    ensures !ReuseIsSound(env, qtype, family, p1, p2, p1)
  {
    var c1, c2 := Inside(family, p1), Outside(family, p1 + 1, p2);
    var records, row := [OneRecord(qtype, family, p1 + 1)], Answer("a.example", qtype, "x", 60, p1);
    NarrowView(env, qtype, family, p1 + 1, p1, p2);
    OutsideAgreesBelow(family, p1 + 1, p2, p1);
    OneRowOfQtype(row);
    assert ReusableAcross(env, c1, c2, p1, p2, records, row);
    assert !SameRows(env, c1, c2, records, qtype);
  }

  // Empty answers.

  ghost predicate NobodyInView(env: Env, ip: Address, set_: Rrset) {
    forall r :: r in set_.records ==> !InView(env.reader, ip, r)
  }

  /** An rrset gives a client no row exactly when its policy does not compile or none of its records is in view. */
  lemma EmptyExactly(env: Env, c: Network, set_: Rrset)
    requires env.Valid() && ValidRecords(set_.records) && set_.records != []
    ensures GroupAnswers(env, c, set_) == []
            <==> set_.records[0].policy.None? || NobodyInView(env, c.ip, set_)
  {
    if set_.records[0].policy.Some? && !NobodyInView(env, c.ip, set_) {
      var tier := AnswersComeFromOneTier(env, c.ip, set_);
      SelectedHasScope(env, c, set_);
    } else if NobodyInView(env, c.ip, set_) {
      assert forall i :: 0 <= i < |InViewOf(env.reader, c.ip, set_.records)| ==>
          InViewOf(env.reader, c.ip, set_.records)[i] in InViewOf(env.reader, c.ip, set_.records);
    }
  }

  /** All clients share the empty answer exactly when the policy does not compile or no view admits any address. */
  lemma EmptyForAllExactly(env: Env, set_: Rrset)
    requires env.Valid() && ValidRecords(set_.records) && set_.records != []
    ensures (forall c: Network :: c.Valid() ==> GroupAnswers(env, c, set_) == [])
            <==> set_.records[0].policy.None? || forall ip: Address :: ip.Valid() ==> NobodyInView(env, ip, set_)
  {
    forall c: Network | c.Valid()
      ensures GroupAnswers(env, c, set_) == [] <==> set_.records[0].policy.None? || NobodyInView(env, c.ip, set_)
    {
      EmptyExactly(env, c, set_);
    }
    if forall c: Network :: c.Valid() ==> GroupAnswers(env, c, set_) == [] {
      forall ip: Address | ip.Valid() && set_.records[0].policy.Some?
        ensures NobodyInView(env, ip, set_)
      {
        assert Network(ip, 0).Valid() && GroupAnswers(env, Network(ip, 0), set_) == [];
      }
    }
  }

  /** The view does not look at the client beyond its first `n` bits. */
  ghost predicate ReadsAtMost(env: Env, n: nat, rule: ViewRule) {
    (env.reader.None? || rule.geos == []) && forall c :: c in rule.cidrs ==> c.prefixlen <= n
  }

  lemma InViewFollows(env: Env, a: Address, b: Address, r: Record, n: nat)
    requires a.Valid() && b.Valid() && ValidRecord(r) && AgreeOnFirst(n, a, b)
    requires r.rule.Some? ==> ReadsAtMost(env, n, r.rule.value)
    ensures InView(env.reader, a, r) <==> InView(env.reader, b, r)
  {
    if r.rule.Some? {
      CidrHitFollows(r.rule.value, a, b, n);
      CidrHitFollows(r.rule.value, b, a, n);
    }
  }

  /**
   Where views and policy read at most `n` bits, clients that agree on them are answered with the same records, whatever
   their source prefixes: there a scope of `n` would do where the code gives the full source prefix.
   */
  lemma SelectionFollowsViews(env: Env, a: Address, b: Address, set_: Rrset, n: nat)
    requires env.Valid() && a.Valid() && b.Valid() && ValidRecords(set_.records) && set_.records != []
    requires forall r :: r in set_.records && r.rule.Some? ==> ReadsAtMost(env, n, r.rule.value)
    requires set_.records[0].policy.Some? ==>
               var prefix := set_.records[0].policy.value.NetworkPrefix(a); prefix.Some? ==> prefix.value <= n
    requires AgreeOnFirst(n, a, b)
    ensures Select(env, a, set_) == Select(env, b, set_)
  {
    forall r | r in set_.records
      ensures InView(env.reader, a, r) <==> InView(env.reader, b, r)
    {
      InViewFollows(env, a, b, r, n);
    }
    FilterSame(set_.records, InViewTest(env.reader, a), InViewTest(env.reader, b));
    assert set_.records[0] in set_.records;
    if set_.records[0].policy.Some? {
      var inView := InViewOf(env.reader, a, set_.records);
      PolicyReadsItsPrefix(set_.records[0].policy.value, Candidates(env.isDown, inView), a, b, env.hash,
                           env.draws(set_.qtype));
    }
  }

  /** Where views read at most `n` bits, clients that agree on them share the emptiness, whatever the policy reads. */
  lemma EmptinessFollowsViews(env: Env, c1: Network, c2: Network, set_: Rrset, n: nat)
    requires env.Valid() && c1.Valid() && c2.Valid() && ValidRecords(set_.records) && set_.records != []
    requires forall r :: r in set_.records && r.rule.Some? ==> ReadsAtMost(env, n, r.rule.value)
    requires AgreeOnFirst(n, c1.ip, c2.ip)
    ensures GroupAnswers(env, c1, set_) == [] <==> GroupAnswers(env, c2, set_) == []
  {
    EmptyExactly(env, c1, set_);
    EmptyExactly(env, c2, set_);
    forall r | r in set_.records
      ensures InView(env.reader, c1.ip, r) <==> InView(env.reader, c2.ip, r)
    {
      InViewFollows(env, c1.ip, c2.ip, r, n);
    }
  }

  lemma CidrHitFollows(rule: ViewRule, a: Address, b: Address, n: nat)
    requires rule.Valid() && a.Valid() && b.Valid() && AgreeOnFirst(n, a, b)
    requires forall c :: c in rule.cidrs ==> c.prefixlen <= n
    ensures rule.CidrHit(a) ==> rule.CidrHit(b)
  {
    if c :| c in rule.cidrs && c.Contains(a) {
      ContainsIffAgree(c, a);
      ContainsIffAgree(c, b);
    }
  }

  // The examples.

  /** A view of one CIDR: the addresses of the family whose first `v` bits are zero. */
  function ZeroView(family: Family, v: nat): ViewRule {
    ViewRule([Network(Address(family, 0), v)], [])
  }

  function OneRecord(qtype: string, family: Family, v: nat): Record {
    Record(1, "a.example", qtype, "x", 60, 0, Some(ZeroView(family, v)), Some(RoundRobin(8)))
  }

  /** The client subnet of length `p` inside the view, and one that differs from it in bit `v` alone. */
  function Inside(family: Family, p: nat): Network {
    Network(Address(family, 0), p)
  }

  function Outside(family: Family, v: nat, p: nat): Network
    requires 1 <= v <= Width(family)
  {
    Network(Address(family, Pow2(Width(family) - v)), p)
  }

  /**
   SOA, NS and DS always carry scope 0, so there the scope does not separate clients: with one such record in a narrow
   view, one client gets the row with scope 0 and another gets none.
   */
  lemma AuthorityScopeDoesNotSeparate(env: Env, qtype: string)
    requires env.Valid() && qtype in AUTHORITY_QTYPES
    ensures var c1, c2 := Network(Address(IPv4, 0), 1), Network(Address(IPv4, Pow2(31)), 1);
            var records := [OneRecord(qtype, IPv4, 1)];
            && ClientSubnet(c1) && ClientSubnet(c2) && ValidRecords(records)
            && Lookup(env, c1, records) == [Answer("a.example", qtype, "x", 60, 0)]
            && Lookup(env, c2, records) == []
  {
    NarrowView(env, qtype, IPv4, 1, 1, 1);
  }

  /**
   An empty answer has no row and so no scope: with the same record as an A record, the client outside the view gets
   nothing that says how far its empty answer may be reused.
   */
  lemma EmptyAnswerHasNoScope(env: Env)
    requires env.Valid()
    ensures var c1, c2 := Network(Address(IPv4, 0), 1), Network(Address(IPv4, Pow2(31)), 1);
            var records := [OneRecord("A", IPv4, 1)];
            && ClientSubnet(c1) && ClientSubnet(c2) && ValidRecords(records)
            && Lookup(env, c1, records) == [Answer("a.example", "A", "x", 60, 1)]
            && Lookup(env, c2, records) == []
  {
    NarrowView(env, "A", IPv4, 1, 1, 1);
  }

  /** The client inside the view gets the record with the scope its qtype commands, the client outside gets nothing. */
  lemma NarrowView(env: Env, qtype: string, family: Family, v: nat, p1: nat, p2: nat)
    requires env.Valid() && 1 <= v <= p2 <= Width(family) && p1 <= Width(family)
    ensures var c1, c2, records := Inside(family, p1), Outside(family, v, p2), [OneRecord(qtype, family, v)];
            && ClientSubnet(c1) && ClientSubnet(c2) && ValidRecords(records)
            && Lookup(env, c1, records)
               == [Answer("a.example", qtype, "x", 60, if qtype in AUTHORITY_QTYPES then 0 else p1)]
            && Lookup(env, c2, records) == []
  {
    var c1, c2, r := Inside(family, p1), Outside(family, v, p2), OneRecord(qtype, family, v);
    InsideIsInside(family, v, p1);
    OutsideIsOutside(family, v, p2);
    SingleRecordLookup(env, c1, r);
    SingleRecordLookup(env, c2, r);
    OneAnswer(env, c1, qtype, v);
    NoAnswer(env, c2, qtype, v);
  }

  lemma InsideIsInside(family: Family, v: nat, p: nat)
    requires v <= Width(family) && p <= Width(family)
    ensures ClientSubnet(Inside(family, p)) && ZeroView(family, v).Valid()
    ensures ZeroView(family, v).CidrHit(Inside(family, p).ip)
  {
    var view := ZeroView(family, v);
    assert view.cidrs[0] in view.cidrs && view.cidrs[0].Contains(Inside(family, p).ip);
  }

  lemma OutsideIsOutside(family: Family, v: nat, p: nat)
    requires 1 <= v <= p <= Width(family)
    ensures ClientSubnet(Outside(family, v, p)) && !ZeroView(family, v).CidrHit(Outside(family, v, p).ip)
  {
    var w := Width(family);
    Pow2Less(w - v, w);
    Pow2Divides(w - p, w - v);
    Pow2Divides(w - v, w - v);
    DivideSmall(0, Pow2(w - v));
  }

  /** The two clients agree on every prefix shorter than the view. */
  lemma OutsideAgreesBelow(family: Family, v: nat, p: nat, n: nat)
    requires 1 <= v <= p <= Width(family) && n < v
    ensures AgreeOnFirst(n, Inside(family, n).ip, Outside(family, v, p).ip)
  {
    var w := Width(family);
    Pow2Less(w - v, w);
    Pow2Less(w - v, w - n);
    AgreeIffShiftsAgree(n, Address(family, 0), Address(family, Pow2(w - v)));
    DivideSmall(0, Pow2(w - n));
    DivideSmall(Pow2(w - v), Pow2(w - n));
  }

  lemma {:induction false} Pow2Less(a: nat, b: nat)
    requires a < b
    ensures Pow2(a) < Pow2(b)
  {
    if a + 1 < b {
      Pow2Less(a, b - 1);
    }
  }

  lemma {:induction false} Pow2Divides(a: nat, b: nat)
    requires a <= b
    ensures Pow2(b) / Pow2(a) == Pow2(b - a) && Pow2(b) % Pow2(a) == 0
  {
    Pow2Splits(a, b - a);
    DivisionIsUnique(Pow2(b), Pow2(a), Pow2(b - a), 0);
  }

  lemma TwiceInside(x: nat, y: nat)
    ensures x * (2 * y) == 2 * (x * y)
  {
  }

  lemma {:induction false} Pow2Splits(a: nat, n: nat)
    ensures Pow2(a + n) == Pow2(a) * Pow2(n)
  {
    if n > 0 {
      Pow2Splits(a, n - 1);
      TwiceInside(Pow2(a), Pow2(n - 1));
    }
  }

  lemma NarrowScope(c: Network, qtype: string, v: nat)
    requires v >= 1
    ensures ScopePrefix(c, [OneRecord(qtype, c.ip.family, v)])
            == Some(if qtype in AUTHORITY_QTYPES then 0 else c.prefixlen)
  {
    var r := OneRecord(qtype, c.ip.family, v);
    assert r in [r] && !IsCatchAll(r);
  }

  lemma SingleRecordLookup(env: Env, c: Network, r: Record)
    requires env.Valid() && ValidRecords([r])
    ensures Lookup(env, c, [r]) == GroupAnswers(env, c, Rrset(r.qtype, [r]))
  {
    var g := Rrset(r.qtype, [r]);
    assert [r][..0] == [];
    assert Grouped([r]) == [g];
    assert [g][..0] == [];
    assert LookupGroups(env, c, [g]) == LookupGroups(env, c, []) + GroupAnswers(env, c, g);
  }

  lemma OneAnswer(env: Env, c: Network, qtype: string, v: nat)
    requires env.Valid() && v >= 1
    requires ZeroView(c.ip.family, v).Valid() && ZeroView(c.ip.family, v).CidrHit(c.ip)
    ensures GroupAnswers(env, c, Rrset(qtype, [OneRecord(qtype, c.ip.family, v)]))
            == [Answer("a.example", qtype, "x", 60, if qtype in AUTHORITY_QTYPES then 0 else c.prefixlen)]
  {
    var r := OneRecord(qtype, c.ip.family, v);
    assert InViewOf(env.reader, c.ip, [r]) == [r];
    assert Candidates(env.isDown, [r]) == [r];
    assert TopTier([r]) == [r];
    assert Select(env, c.ip, Rrset(qtype, [r])) == Some([r]);
    NarrowScope(c, qtype, v);
  }

  lemma NoAnswer(env: Env, c: Network, qtype: string, v: nat)
    requires env.Valid() && ZeroView(c.ip.family, v).Valid() && !ZeroView(c.ip.family, v).CidrHit(c.ip)
    ensures GroupAnswers(env, c, Rrset(qtype, [OneRecord(qtype, c.ip.family, v)])) == []
  {
    assert InViewOf(env.reader, c.ip, [OneRecord(qtype, c.ip.family, v)]) == [];
  }
}
