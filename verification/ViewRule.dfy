/** View rules: CIDR networks and geo selectors compiled once, matched per client. */
module ViewRules {
  import opened Common
  import opened Client

  datatype GeoSelector = Country(code: string) | Continent(code: string) {
    predicate Matches(geo: ClientGeo) {
      match this
      case Country(c) => geo.country == Some(c)
      case Continent(c) => geo.continent == Some(c)
    }
  }

  datatype ViewRule = ViewRule(cidrs: seq<Network>, geos: seq<GeoSelector>) {
    ghost predicate Valid() {
      forall c :: c in cidrs ==> c.Valid()
    }

    /** A zero-length CIDR in both families. */
    predicate MatchesAll() {
      (exists c :: c in cidrs && c.prefixlen == 0 && c.ip.family == IPv4)
      && (exists c :: c in cidrs && c.prefixlen == 0 && c.ip.family == IPv6)
    }

    predicate CidrHit(ip: Address) {
      exists c :: c in cidrs && c.Contains(ip)
    }

    predicate GeoHit(geo: ClientGeo) {
      exists g :: g in geos && g.Matches(geo)
    }

    /** What the view promises: some CIDR contains the client, or some selector names its geolocation. */
    predicate Admits(reader: GeoReader, ip: Address) {
      CidrHit(ip) || (reader.Some? && GeoHit(reader.value(ip)))
    }

    /**
     The short-circuits and the memoised lookup answer exactly the declarative question, and the memo stays right.
     A lookup happens only when the CIDRs miss and the rule has selectors.
     */
    method Matches(reader: GeoReader, context: ClientContext) returns (hit: bool)
      requires Valid() && context.ip.Valid() && context.Valid(reader)
      modifies context`geo
      ensures hit == Admits(reader, context.ip)
      ensures context.Valid(reader)
      ensures CidrHit(context.ip) || geos == [] ==> context.geo == old(context.geo)
      ensures old(context.geo.Some?) ==> context.geo == old(context.geo)
    {
      if MatchesAll() {
        MatchAllAdmitsByCidr(this, context.ip);
        return true;
      }
      if exists c :: c in cidrs && c.Contains(context.ip) {
        return true;
      }
      if geos != [] {
        if context.geo == None && reader.Some? {
          context.geo := Some(reader.value(context.ip));
        }
        if context.geo != None {
          return exists g :: g in geos && g.Matches(context.geo.value);
        }
      }
      return false;
    }
  }

  /** A match-all rule admits every client by its CIDRs alone, so the short-circuit only saves work. */
  lemma MatchAllAdmitsByCidr(rule: ViewRule, ip: Address)
    requires rule.Valid() && ip.Valid() && rule.MatchesAll()
    ensures rule.CidrHit(ip)
  {
    var c :| c in rule.cidrs && c.prefixlen == 0 && c.ip.family == ip.family;
    ContainsIffAgree(c, ip);
  }

  /**
   Whom a rule admits: clients that agree with one of its CIDRs on the CIDR's prefix, and, where a reader is configured,
   clients whose country or continent code one of its selectors of that kind names.
   */
  lemma AdmitsExactly(rule: ViewRule, reader: GeoReader, ip: Address)
    requires rule.Valid() && ip.Valid()
    ensures rule.Admits(reader, ip)
            <==> || (exists c :: c in rule.cidrs && AgreeOnFirst(c.prefixlen, ip, c.ip))
                 || (reader.Some?
                     && exists code :: Country(code) in rule.geos && reader.value(ip).country == Some(code))
                 || (reader.Some?
                     && exists code :: Continent(code) in rule.geos && reader.value(ip).continent == Some(code))
  {
    forall c | c in rule.cidrs
      ensures c.Contains(ip) <==> AgreeOnFirst(c.prefixlen, ip, c.ip)
    {
      ContainsIffAgree(c, ip);
    }
    if reader.Some? {
      SelectorsExactly(rule, reader.value(ip));
    }
  }

  lemma SelectorsExactly(rule: ViewRule, geo: ClientGeo)
    ensures rule.GeoHit(geo)
            <==> || (exists code :: Country(code) in rule.geos && geo.country == Some(code))
                 || (exists code :: Continent(code) in rule.geos && geo.continent == Some(code))
  {
    if g :| g in rule.geos && g.Matches(geo) {
      match g {
        case Country(code) => assert Country(code) in rule.geos;
        case Continent(code) => assert Continent(code) in rule.geos;
      }
    }
    if code :| Country(code) in rule.geos && geo.country == Some(code) {
      assert Country(code).Matches(geo);
    }
    if code :| Continent(code) in rule.geos && geo.continent == Some(code) {
      assert Continent(code).Matches(geo);
    }
  }

  /** A rule matches all exactly when for each family some of its CIDRs has length 0. */
  lemma MatchesAllExactly(rule: ViewRule)
    ensures rule.MatchesAll() <==> CoversFamily(rule, IPv4) && CoversFamily(rule, IPv6)
  {
    if rule.MatchesAll() {
      var c :| c in rule.cidrs && c.prefixlen == 0 && c.ip.family == IPv4;
      var d :| d in rule.cidrs && d.prefixlen == 0 && d.ip.family == IPv6;
      var i :| 0 <= i < |rule.cidrs| && rule.cidrs[i] == c;
      var j :| 0 <= j < |rule.cidrs| && rule.cidrs[j] == d;
      assert IsWholeFamily(rule.cidrs[i], IPv4) && IsWholeFamily(rule.cidrs[j], IPv6);
    }
    if CoversFamily(rule, IPv4) && CoversFamily(rule, IPv6) {
      var i :| 0 <= i < |rule.cidrs| && IsWholeFamily(rule.cidrs[i], IPv4);
      var j :| 0 <= j < |rule.cidrs| && IsWholeFamily(rule.cidrs[j], IPv6);
      assert rule.cidrs[i] in rule.cidrs && rule.cidrs[j] in rule.cidrs;
    }
  }

  ghost predicate CoversFamily(rule: ViewRule, family: Family) {
    exists i :: 0 <= i < |rule.cidrs| && IsWholeFamily(rule.cidrs[i], family)
  }

  predicate IsWholeFamily(c: Network, family: Family) {
    c.prefixlen == 0 && c.ip.family == family
  }
}
