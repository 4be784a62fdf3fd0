/** The zone part of the DNS read: owning zone, relative name, rebuilt answer name. */
module ZoneLookup {
  import opened Collation

  /** `qname.rstrip('.')`. */
  function StripDots(s: string): string {
    if s != [] && s[|s| - 1] == '.' then StripDots(s[..|s| - 1]) else s
  }

  /** Exactly the dots at the end are stripped. */
  lemma {:induction false} StripsTrailingDots(s: string)
    ensures StripDots(s) <= s && (forall i :: |StripDots(s)| <= i < |s| ==> s[i] == '.')
    ensures StripDots(s) != "" ==> StripDots(s)[|StripDots(s)| - 1] != '.'
  {
    if s != [] && s[|s| - 1] == '.' {
      StripsTrailingDots(s[..|s| - 1]);
    }
  }

  function DotFrom(s: string, from: nat): (i: nat)
    requires from <= |s|
    ensures from <= i <= |s| && (i < |s| ==> s[i] == '.')
    ensures forall j :: from <= j < i ==> s[j] != '.'
    decreases |s| - from
  {
    if from == |s| || s[from] == '.' then from else DotFrom(s, from + 1)
  }

  /** `s.find('.')`, or the length when there is no dot. */
  function FirstDot(s: string): (i: nat)
    ensures i <= |s| && (i < |s| ==> s[i] == '.')
    ensures forall j :: 0 <= j < i ==> s[j] != '.'
  {
    DotFrom(s, 0)
  }

  /** `s.split('.')`. */
  function SplitDots(s: string): (labels: seq<string>)
    ensures labels != []
    decreases |s|
  {
    var i := FirstDot(s);
    if i == |s| then [s] else [s[..i]] + SplitDots(s[i + 1..])
  }

  /** `'.'.join(labels)`. */
  function JoinDots(labels: seq<string>): string
    requires labels != []
  {
    if |labels| == 1 then labels[0] else labels[0] + "." + JoinDots(labels[1..])
  }

  /** One name per way of dropping leading labels. */
  function NamesFrom(labels: seq<string>): (s: seq<string>)
    ensures |s| == |labels|
  {
    if labels == [] then [] else [JoinDots(labels)] + NamesFrom(labels[1..])
  }

  /** Name `i` is what dropping `i` labels leaves. */
  lemma {:induction false} NameAt(labels: seq<string>, i: nat)
    requires i < |labels|
    ensures NamesFrom(labels)[i] == JoinDots(labels[i..])
  {
    if i > 0 {
      NameAt(labels[1..], i - 1);
      assert labels[1..][i - 1..] == labels[i..];
    } else {
      assert labels[0..] == labels;
    }
  }

  function ZoneSuffixes(qname: string): seq<string> {
    NamesFrom(SplitDots(qname))
  }

  /** Position `i` of `qname` is a dot, or -1 for the place before its start. */
  predicate IsBoundary(qname: string, i: int) {
    -1 <= i < |qname| && (i >= 0 ==> qname[i] == '.')
  }

  predicate IsRest(d: string, qname: string, i: int) {
    IsBoundary(qname, i) && d == qname[i + 1..]
  }

  /** `d` is what is left of `qname` at the start or right behind one of its dots. */
  ghost predicate Encloses(d: string, qname: string) {
    exists i: int :: IsRest(d, qname, i)
  }

  lemma JoinCons(a: string, rest: seq<string>)
    requires rest != []
    ensures JoinDots([a] + rest) == a + ("." + JoinDots(rest))
  {
    assert ([a] + rest)[1..] == rest;
  }

  lemma CutAtDot(s: string, i: nat)
    requires i < |s| && s[i] == '.'
    ensures s[..i] + ("." + s[i + 1..]) == s
  {
  }

  lemma {:induction false} JoinUndoesSplit(s: string)
    ensures JoinDots(SplitDots(s)) == s
    decreases |s|
  {
    var i := FirstDot(s);
    if i < |s| {
      JoinUndoesSplit(s[i + 1..]);
      JoinCons(s[..i], SplitDots(s[i + 1..]));
      CutAtDot(s, i);
    }
  }

  lemma NamesCons(labels: seq<string>, head: string, rest: seq<string>)
    requires labels == [head] + rest
    ensures NamesFrom(labels) == [JoinDots(labels)] + NamesFrom(rest)
  {
    assert labels[1..] == rest;
  }

  lemma SplitUnfold(s: string)
    ensures SplitDots(s)
            == var i := FirstDot(s); if i < |s| then [s[..i]] + SplitDots(s[i + 1..]) else [s] + []
  {
  }

  /** The suffixes after the first are those of the name without its first label. */
  lemma SuffixesUnfold(s: string)
    ensures ZoneSuffixes(s) == [s] + if FirstDot(s) < |s| then ZoneSuffixes(s[FirstDot(s) + 1..]) else []
  {
    JoinUndoesSplit(s);
    SplitUnfold(s);
    var i, labels := FirstDot(s), SplitDots(s);
    if i < |s| {
      NamesCons(labels, s[..i], SplitDots(s[i + 1..]));
    } else {
      NamesCons(labels, s, []);
    }
  }

  lemma SuffixMember(d: string, s: string)
    ensures d in ZoneSuffixes(s)
            <==> d == s || (FirstDot(s) < |s| && d in ZoneSuffixes(s[FirstDot(s) + 1..]))
  {
    SuffixesUnfold(s);
    InCons(d, s, if FirstDot(s) < |s| then ZoneSuffixes(s[FirstDot(s) + 1..]) else []);
  }

  lemma InCons(d: string, x: string, rest: seq<string>)
    ensures d in [x] + rest <==> d == x || d in rest
  {
  }

  lemma SliceTwice(s: string, a: nat, b: nat)
    requires a + b <= |s|
    ensures s[a..][b..] == s[a + b..]
  {
  }

  lemma BoundaryShifts(s: string, i: nat, k: int)
    requires i < |s| && s[i] == '.' && -1 <= k
    ensures IsBoundary(s[i + 1..], k) <==> IsBoundary(s, i + 1 + k)
  {
    if 0 <= k < |s| - i - 1 {
      assert s[i + 1..][k] == s[i + 1 + k];
    }
  }

  lemma RestShifts(d: string, s: string, i: nat, k: int)
    requires i < |s| && s[i] == '.' && -1 <= k
    ensures IsRest(d, s[i + 1..], k) <==> IsRest(d, s, i + 1 + k)
  {
    BoundaryShifts(s, i, k);
    if IsBoundary(s, i + 1 + k) {
      SliceTwice(s, i + 1, k + 1);
    }
  }

  lemma EnclosedInRest(d: string, s: string, i: nat)
    requires i < |s| && s[i] == '.' && Encloses(d, s[i + 1..])
    ensures Encloses(d, s)
  {
    var k: int :| IsRest(d, s[i + 1..], k);
    RestShifts(d, s, i, k);
  }

  lemma EnclosedByRest(d: string, s: string, i: nat)
    requires i <= |s| && (i < |s| ==> s[i] == '.') && (forall j :: 0 <= j < i ==> s[j] != '.')
    requires Encloses(d, s) && d != s
    ensures i < |s| && Encloses(d, s[i + 1..])
  {
    var k: int :| IsRest(d, s, k);
    NotTheStart(d, s, k);
    RestShifts(d, s, i, k - i - 1);
  }

  lemma NotTheStart(d: string, s: string, k: int)
    requires IsRest(d, s, k) && d != s
    ensures k >= 0
  {
    assert s[0..] == s;
  }

  lemma EnclosesItself(s: string)
    ensures Encloses(s, s)
  {
    assert s[0..] == s;
    assert IsRest(s, s, -1);
  }

  lemma EnclosesUnfold(d: string, s: string, i: nat)
    requires i <= |s| && (i < |s| ==> s[i] == '.') && forall j :: 0 <= j < i ==> s[j] != '.'
    ensures Encloses(d, s) <==> d == s || (i < |s| && Encloses(d, s[i + 1..]))
  {
    EnclosesItself(s);
    if Encloses(d, s) && d != s {
      EnclosedByRest(d, s, i);
    }
    if i < |s| && Encloses(d, s[i + 1..]) {
      EnclosedInRest(d, s, i);
    }
  }

  /** `zone_suffixes` lists exactly the label-boundary suffixes of the name. */
  lemma {:induction false} SuffixesAreExact(qname: string, d: string)
    ensures d in ZoneSuffixes(qname) <==> Encloses(d, qname)
    decreases |qname|
  {
    var i := FirstDot(qname);
    SuffixMember(d, qname);
    EnclosesUnfold(d, qname, i);
    if i < |qname| {
      SuffixesAreExact(qname[i + 1..], d);
    }
  }

  /** Up to the collation, `d` is one of the suffixes. */
  ghost predicate AmongSuffixes(eq: CharEq, d: string, qname: string) {
    exists e :: e in ZoneSuffixes(qname) && SameText(eq, d, e)
  }

  /** Up to the collation, `d` stands right behind position `i` of `qname`. */
  predicate StandsBehind(eq: CharEq, d: string, qname: string, i: int) {
    IsBoundary(qname, i) && SameText(eq, d, qname[i + 1..])
  }

  /** Up to the collation, `d` encloses `qname`. */
  ghost predicate EnclosesText(eq: CharEq, d: string, qname: string) {
    exists i: int :: StandsBehind(eq, d, qname, i)
  }

  lemma AmongIffEncloses(eq: CharEq, d: string, qname: string)
    ensures AmongSuffixes(eq, d, qname) <==> EnclosesText(eq, d, qname)
  {
    if AmongSuffixes(eq, d, qname) {
      var e :| e in ZoneSuffixes(qname) && SameText(eq, d, e);
      SuffixesAreExact(qname, e);
      var i: int :| IsRest(e, qname, i);
      assert StandsBehind(eq, d, qname, i);
    }
    if i: int :| StandsBehind(eq, d, qname, i) {
      SuffixesAreExact(qname, qname[i + 1..]);
      assert IsRest(qname[i + 1..], qname, i);
    }
  }

  /** The unique index on `domain` compares by the collation. */
  ghost predicate UniqueIndex(eq: CharEq, domains: set<string>) {
    forall d, e :: d in domains && e in domains && SameText(eq, d, e) ==> d == e
  }

  /** The subquery: a stored domain among the suffixes with no longer one among them. */
  ghost predicate IsOwningZone(eq: CharEq, domains: set<string>, qname: string, d: string) {
    && d in domains && AmongSuffixes(eq, d, qname)
    && forall e :: e in domains && AmongSuffixes(eq, e, qname) ==> |e| <= |d|
  }

  /** Of two texts behind boundaries of one name, the shorter stands behind a boundary of the longer. */
  lemma EnclosingZonesNest(eq: CharEq, qname: string, d: string, e: string, i: int, k: int)
    requires ValidCollation(eq) && StandsBehind(eq, d, qname, i) && StandsBehind(eq, e, qname, k) && |e| <= |d|
    ensures i <= k && StandsBehind(eq, e, d, k - i - 1)
  {
    if i < k {
      assert qname[i + 1..][k - i - 1] == qname[k];
      assert eq(d[k - i - 1], qname[i + 1..][k - i - 1]);
    }
    forall j | 0 <= j < |e|
      ensures eq(e[j], d[k - i..][j])
    {
      assert qname[k + 1..][j] == qname[i + 1..][k - i + j];
      assert eq(e[j], qname[k + 1..][j]) && eq(d[k - i + j], qname[i + 1..][k - i + j]);
    }
  }

  /**
   The owning zone is the nearest enclosing zone (section 4.3.2 step 2 of RFC 1034): it encloses the name, and every
   stored zone that encloses the name also encloses it.
   */
  lemma OwningZoneIsNearest(eq: CharEq, domains: set<string>, qname: string, d: string)
    requires ValidCollation(eq)
    ensures IsOwningZone(eq, domains, qname, d) <==>
            d in domains && EnclosesText(eq, d, qname)
            && forall e :: e in domains && EnclosesText(eq, e, qname) ==> EnclosesText(eq, e, d)
  {
    forall e
      ensures AmongSuffixes(eq, e, qname) <==> EnclosesText(eq, e, qname)
    {
      AmongIffEncloses(eq, e, qname);
    }
    if IsOwningZone(eq, domains, qname, d) {
      forall e | e in domains && EnclosesText(eq, e, qname)
        ensures EnclosesText(eq, e, d)
      {
        var i: int :| StandsBehind(eq, d, qname, i);
        var k: int :| StandsBehind(eq, e, qname, k);
        EnclosingZonesNest(eq, qname, d, e, i, k);
      }
    }
  }

  lemma OwningZoneIsUnique(eq: CharEq, domains: set<string>, qname: string, d: string, e: string)
    requires ValidCollation(eq) && UniqueIndex(eq, domains)
    requires IsOwningZone(eq, domains, qname, d) && IsOwningZone(eq, domains, qname, e)
    ensures d == e
  {
    assert |d| == |e|;
    AmongIffEncloses(eq, d, qname);
    AmongIffEncloses(eq, e, qname);
    var i: int :| StandsBehind(eq, d, qname, i);
    var k: int :| StandsBehind(eq, e, qname, k);
    SameTextSymmetric(eq, e, qname[k + 1..]);
    SameTextTransitive(eq, d, qname[i + 1..], e);
  }

  /** When some stored zone encloses the name, there is an owning zone. */
  lemma {:induction false} OwningZoneExists(eq: CharEq, domains: set<string>, qname: string, e: string)
      returns (d: string)
    requires e in domains && EnclosesText(eq, e, qname)
    ensures IsOwningZone(eq, domains, qname, d)
    decreases |qname| - |e|
  {
    AmongIffEncloses(eq, e, qname);
    if IsOwningZone(eq, domains, qname, e) {
      d := e;
    } else {
      var f :| f in domains && AmongSuffixes(eq, f, qname) && |f| > |e|;
      AmongIffEncloses(eq, f, qname);
      d := OwningZoneExists(eq, domains, qname, f);
    }
  }

  /** The part of the name left of the zone and its dot; SUBSTRING of a non-positive length is empty. */
  function LeftPart(qname: string, d: string): string {
    if |d| < |qname| then qname[..|qname| - |d| - 1] else ""
  }

  /** The relative record name the query looks for in its zone. */
  function RelativeName(eq: CharEq, qname: string, d: string): string {
    if SameText(eq, qname, d) then "@" else LeftPart(qname, d)
  }

  /** The answer name the query rebuilds from a row. */
  function RebuiltName(eq: CharEq, name: string, d: string): string {
    if SameText(eq, name, "@") then d else name + ("." + d)
  }

  /** One row of the join of domains, rrsets, types and records. */
  datatype ZoneRow = ZoneRow(domain: string, name: string, qtype: string, disabled: bool)

  ghost predicate TypeMatches(eq: CharEq, qtype: string, row: ZoneRow) {
    qtype == "ANY" || SameText(eq, row.qtype, qtype)
  }

  /** The rows the query returns. */
  ghost predicate Returned(eq: CharEq, domains: set<string>, qname: string, qtype: string, row: ZoneRow) {
    var q := StripDots(qname);
    && IsOwningZone(eq, domains, q, row.domain)
    && !row.disabled && TypeMatches(eq, qtype, row)
    && SameText(eq, row.name, RelativeName(eq, q, row.domain))
  }

  /** A name below the zone whose left part is the literal apex marker. */
  ghost predicate LooksLikeApex(eq: CharEq, q: string, d: string) {
    !SameText(eq, q, d) && SameText(eq, LeftPart(q, d), "@")
  }

  lemma LeftOfTheDot(eq: CharEq, q: string, d: string)
    requires ValidCollation(eq) && EnclosesText(eq, d, q) && !SameText(eq, q, d)
    ensures |d| < |q| && SameText(eq, LeftPart(q, d) + ("." + d), q)
  {
    var k: int :| StandsBehind(eq, d, q, k);
    if k == -1 {
      assert q[0..] == q;
      SameTextSymmetric(eq, d, q);
      assert false;
    }
    CutAtDot(q, k);
    SameConcat(eq, ".", d, ".", q[k + 1..]);
    SameConcat(eq, q[..k], "." + d, q[..k], "." + q[k + 1..]);
  }

  /**
   A returned row carries the dot-stripped query name, up to the collation, exactly unless the part left of the zone is
   literally '@'.
   */
  lemma ReturnedNameIsQueried(eq: CharEq, domains: set<string>, qname: string, qtype: string, row: ZoneRow)
    requires ValidCollation(eq) && Returned(eq, domains, qname, qtype, row)
    ensures SameText(eq, RebuiltName(eq, row.name, row.domain), StripDots(qname))
            <==> !LooksLikeApex(eq, StripDots(qname), row.domain)
  {
    var q, d := StripDots(qname), row.domain;
    AmongIffEncloses(eq, d, q);
    if SameText(eq, q, d) {
      SameTextSymmetric(eq, q, d);
    } else {
      var left := LeftPart(q, d);
      LeftOfTheDot(eq, q, d);
      SameTextSymmetric(eq, row.name, left);
      if SameText(eq, left, "@") {
        SameTextTransitive(eq, row.name, left, "@");
      } else {
        if SameText(eq, row.name, "@") {
          SameTextTransitive(eq, left, row.name, "@");
        }
        SameConcat(eq, row.name, "." + d, left, "." + d);
        SameTextTransitive(eq, row.name + ("." + d), left + ("." + d), q);
      }
    }
  }

  /** One input: below the zone `ex`, the name `@.ex` is answered with the row of the apex, under the apex's name. */
  lemma ApexMarkerIsMistaken(eq: CharEq)
    requires ValidCollation(eq)
    ensures var row := ZoneRow("ex", "@", "A", false);
            && Returned(eq, {"ex"}, "@.ex", "A", row) && LooksLikeApex(eq, "@.ex", "ex")
            && RebuiltName(eq, row.name, row.domain) == "ex"
  {
    var q := "@.ex";
    assert q[2..] == "ex" && StandsBehind(eq, "ex", q, 1);
    AmongIffEncloses(eq, "ex", q);
    assert LeftPart(q, "ex") == "@";
  }

  /** No enabled row of the owning zone with the queried name and type is missed. */
  lemma QueriedRowIsReturned(eq: CharEq, domains: set<string>, qname: string, qtype: string, row: ZoneRow)
    requires ValidCollation(eq) && IsOwningZone(eq, domains, StripDots(qname), row.domain)
    requires !row.disabled && TypeMatches(eq, qtype, row)
    requires SameText(eq, RebuiltName(eq, row.name, row.domain), StripDots(qname))
    ensures Returned(eq, domains, qname, qtype, row)
  {
    var q, d := StripDots(qname), row.domain;
    if SameText(eq, row.name, "@") {
      SameTextSymmetric(eq, d, q);
    } else {
      var n := |row.name|;
      assert q == q[..n] + q[n..];
      SameConcat(eq, row.name, "." + d, q[..n], q[n..]);
      assert LeftPart(q, d) == q[..n];
    }
  }

  /**
   What the query returns, unless the part left of the zone is literally '@': exactly the enabled rows of the owning
   zone with the queried type, or any type for ANY, that stand at the apex or at a name which, followed by a dot and the
   zone, is the dot-stripped query name up to the collation.
   */
  lemma ReturnedExactly(eq: CharEq, domains: set<string>, qname: string, qtype: string, row: ZoneRow)
    requires ValidCollation(eq) && !LooksLikeApex(eq, StripDots(qname), row.domain)
    ensures Returned(eq, domains, qname, qtype, row)
            <==> && IsOwningZone(eq, domains, StripDots(qname), row.domain)
                 && !row.disabled && (qtype == "ANY" || SameText(eq, row.qtype, qtype))
                 && if SameText(eq, row.name, "@") then SameText(eq, row.domain, StripDots(qname))
                    else SameText(eq, row.name + ("." + row.domain), StripDots(qname))
  {
    if Returned(eq, domains, qname, qtype, row) {
      ReturnedNameIsQueried(eq, domains, qname, qtype, row);
    }
    if && IsOwningZone(eq, domains, StripDots(qname), row.domain) && !row.disabled
       && (qtype == "ANY" || SameText(eq, row.qtype, qtype))
       && SameText(eq, RebuiltName(eq, row.name, row.domain), StripDots(qname))
    {
      QueriedRowIsReturned(eq, domains, qname, qtype, row);
    }
  }
}
