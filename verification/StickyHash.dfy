/** sticky-hash: rendezvous hashing over the masked client network. */
module StickyHashing {
  import opened Common
  import opened Ordering
  import opened Bits
  import opened Client
  import opened Routing

  /** The stable digest of (masked network, content), an uninterpreted function here. */
  type Hash = (Address, string) -> nat

  /** The client address with its host bits zeroed; the family fixes the byte width of the serialised form. */
  function MaskedNetwork(ip: Address, ipv4Prefix: nat, ipv6Prefix: nat): Address
    requires ipv4Prefix <= Width(IPv4) && ipv6Prefix <= Width(IPv6)
  {
    var hostBits := Width(ip.family) - (if ip.family == IPv4 then ipv4Prefix else ipv6Prefix);
    Address(ip.family, ShiftRight(ip.value, hostBits) * Pow2(hostBits))
  }

  lemma ShiftBackIsInjective(a: nat, b: nat, k: nat)
    ensures ShiftRight(a, k) * Pow2(k) == ShiftRight(b, k) * Pow2(k) <==> ShiftRight(a, k) == ShiftRight(b, k)
  {
    MulInjective(ShiftRight(a, k), ShiftRight(b, k), Pow2(k));
  }

  lemma SameNetworkIffShiftsAgree(a: Address, b: Address, ipv4Prefix: nat, ipv6Prefix: nat)
    requires ipv4Prefix <= Width(IPv4) && ipv6Prefix <= Width(IPv6) && a.family == b.family
    ensures var hostBits := Width(a.family) - (if a.family == IPv4 then ipv4Prefix else ipv6Prefix);
            MaskedNetwork(a, ipv4Prefix, ipv6Prefix) == MaskedNetwork(b, ipv4Prefix, ipv6Prefix)
            <==> ShiftRight(a.value, hostBits) == ShiftRight(b.value, hostBits)
  {
    ShiftBackIsInjective(a.value, b.value, Width(a.family) - (if a.family == IPv4 then ipv4Prefix else ipv6Prefix));
  }

  /** Two clients share a masked network exactly when they agree on the policy's prefix. */
  lemma SameNetworkIffAgree(policy: Policy, a: Address, b: Address)
    requires policy.StickyHash? && policy.Valid() && a.Valid() && b.Valid()
    ensures MaskedNetwork(a, policy.ipv4Prefix, policy.ipv6Prefix)
            == MaskedNetwork(b, policy.ipv4Prefix, policy.ipv6Prefix)
            <==> AgreeOnFirst(policy.NetworkPrefix(a).value, a, b)
  {
    if a.family == b.family {
      AgreeIffShiftsAgree(policy.NetworkPrefix(a).value, a, b);
      SameNetworkIffShiftsAgree(a, b, policy.ipv4Prefix, policy.ipv6Prefix);
    }
  }

  /** The masked network has the client's family and first bits, and zeros behind them. */
  lemma MaskedIsPrefix(ip: Address, ipv4Prefix: nat, ipv6Prefix: nat)
    requires ip.Valid() && ipv4Prefix <= Width(IPv4) && ipv6Prefix <= Width(IPv6)
    ensures var p := if ip.family == IPv4 then ipv4Prefix else ipv6Prefix;
            var masked := MaskedNetwork(ip, ipv4Prefix, ipv6Prefix);
            && masked.Valid() && AgreeOnFirst(p, masked, ip) && Network(masked, p).ZeroHostBits()
  {
    var p := if ip.family == IPv4 then ipv4Prefix else ipv6Prefix;
    var k := Width(ip.family) - p;
    var masked := MaskedNetwork(ip, ipv4Prefix, ipv6Prefix);
    MaskDivides(ip.value, Pow2(k));
    AgreeIffShiftsAgree(p, masked, ip);
  }

  lemma MaskDivides(v: nat, d: nat)
    requires d > 0
    ensures (v / d) * d <= v && ((v / d) * d) % d == 0 && ((v / d) * d) / d == v / d
  {
    var q := v / d;
    DivisionIsUnique(d * q, d, q, 0);
    assert v == d * q + v % d;
  }

  lemma MulInjective(a: nat, b: nat, d: nat)
    requires d > 0
    ensures a * d == b * d ==> a == b
  {
    if a < b {
      MulGap(a, b, d);
    } else if b < a {
      MulGap(b, a, d);
    }
  }

  /** Descending by (hash, content). */
  predicate ContentBefore(hash: Hash, network: Address, a: string, b: string) {
    hash(network, a) > hash(network, b) || (hash(network, a) == hash(network, b) && StringLeq(b, a))
  }

  function ContentOrder(hash: Hash, network: Address): (string, string) -> bool {
    (a, b) => ContentBefore(hash, network, a, b)
  }

  function RankOrder(hash: Hash, network: Address): (Record, Record) -> bool {
    (a: Record, b: Record) => ContentBefore(hash, network, a.content, b.content)
  }

  function Ranked(hash: Hash, candidates: seq<Record>, network: Address): seq<Record> {
    SortBy(candidates, RankOrder(hash, network))
  }

  function StickyPick(hash: Hash, candidates: seq<Record>, network: Address, count: nat): seq<Record> {
    Take(Ranked(hash, candidates, network), count)
  }

  function StickyHashSelect(policy: Policy, candidates: seq<Record>, ip: Address, hash: Hash): seq<Record>
    requires policy.StickyHash? && policy.Valid()
  {
    var tier := TopTier(candidates);
    if tier == [] then []
    else StickyPick(hash, tier, MaskedNetwork(ip, policy.ipv4Prefix, policy.ipv6Prefix), policy.maxAnswers)
  }

  lemma ContentBeforeIsTotalOrder(hash: Hash, network: Address)
    ensures TotalPreorder(RankOrder(hash, network)) && TotalPreorder(ContentOrder(hash, network))
    ensures forall a, b :: ContentBefore(hash, network, a, b) && ContentBefore(hash, network, b, a) ==> a == b
  {
    forall a, b
      ensures ContentBefore(hash, network, a, b) || ContentBefore(hash, network, b, a)
      ensures ContentBefore(hash, network, a, b) && ContentBefore(hash, network, b, a) ==> a == b
    {
      StringLeqTotal(a, b);
    }
    forall a, b, c | ContentBefore(hash, network, a, b) && ContentBefore(hash, network, b, c)
      ensures ContentBefore(hash, network, a, c)
    {
      if hash(network, a) == hash(network, b) == hash(network, c) {
        StringLeqTransitive(c, b, a);
      }
    }
  }

  function Contents(s: seq<Record>): seq<string> {
    Map((r: Record) => r.content, s)
  }

  /** The ranked contents are the contents, sorted. */
  lemma RankedContentsSorted(hash: Hash, s: seq<Record>, network: Address)
    ensures SortedBy(Contents(Ranked(hash, s, network)), ContentOrder(hash, network))
    ensures multiset(Ranked(hash, s, network)) == multiset(s) && |Ranked(hash, s, network)| == |s|
  {
    var order := RankOrder(hash, network);
    ContentBeforeIsTotalOrder(hash, network);
    SortPermutes(s, order);
    SortSorts(s, order);
    var ranked := Ranked(hash, s, network);
    forall i, j | 0 <= i < j < |ranked|
      ensures ContentBefore(hash, network, Contents(ranked)[i], Contents(ranked)[j])
    {
      assert order(ranked[i], ranked[j]);
    }
  }

  lemma RankedContentsAgree(hash: Hash, a: seq<Record>, b: seq<Record>, network: Address)
    requires multiset(a) == multiset(b)
    ensures Contents(Ranked(hash, a, network)) == Contents(Ranked(hash, b, network))
  {
    RankedContentsSorted(hash, a, network);
    RankedContentsSorted(hash, b, network);
    ContentBeforeIsTotalOrder(hash, network);
    var x, y := Ranked(hash, a, network), Ranked(hash, b, network);
    MapMultiset((r: Record) => r.content, x, y);
    SortedIsUnique(Contents(x), Contents(y), ContentOrder(hash, network));
  }

  lemma ContentsOfTake(s: seq<Record>, count: nat)
    ensures Contents(Take(s, count)) == Take(Contents(s), count)
  {
  }

  /** The answered contents do not depend on the order the records were read in. */
  lemma PickIsOrderIndependent(hash: Hash, a: seq<Record>, b: seq<Record>, network: Address, count: nat)
    requires multiset(a) == multiset(b)
    ensures Contents(StickyPick(hash, a, network, count)) == Contents(StickyPick(hash, b, network, count))
  {
    RankedContentsAgree(hash, a, b, network);
    ContentsOfTake(Ranked(hash, a, network), count);
    ContentsOfTake(Ranked(hash, b, network), count);
  }

  /** The pick has the promised size, and no record left out ranks above one that was picked. */
  lemma PickIsTop(hash: Hash, s: seq<Record>, network: Address, count: nat) returns (rest: seq<Record>)
    ensures |StickyPick(hash, s, network, count)| == Min(count, |s|)
    ensures multiset(StickyPick(hash, s, network, count)) + multiset(rest) == multiset(s)
    ensures forall w, l :: w in StickyPick(hash, s, network, count) && l in rest ==>
              ContentBefore(hash, network, w.content, l.content)
  {
    var order, ranked := RankOrder(hash, network), Ranked(hash, s, network);
    ContentBeforeIsTotalOrder(hash, network);
    SortPermutes(s, order);
    SortSorts(s, order);
    var n := Min(count, |ranked|);
    rest := ranked[n..];
    CutLosesNone(ranked, n);
    SortedCut(ranked, n, order);
    assert forall w: Record, l: Record :: order(w, l) ==> ContentBefore(hash, network, w.content, l.content);
  }

  /**
   Minimal disruption. Record i holds some rank j. Dropping it changes nothing when j is outside the top `count`;
   otherwise the other winners keep their order and only the next-ranked record, if there is one, joins at the end.
   */
  lemma DroppingARecord(hash: Hash, s: seq<Record>, i: nat, network: Address, count: nat) returns (j: nat)
    requires i < |s|
    ensures j < |s| == |Ranked(hash, s, network)| && Ranked(hash, s, network)[j] == s[i]
    ensures j >= count ==> StickyPick(hash, RemoveAt(s, i), network, count) == StickyPick(hash, s, network, count)
    ensures j < count ==>
              StickyPick(hash, RemoveAt(s, i), network, count)
              == RemoveAt(StickyPick(hash, s, network, count), j)
                 + if count < |s| then [Ranked(hash, s, network)[count]] else []
  {
    ContentBeforeIsTotalOrder(hash, network);
    SortPermutes(s, RankOrder(hash, network));
    j := SortAfterRemove(s, i, RankOrder(hash, network));
    TakeAfterRemove(Ranked(hash, s, network), j, count);
  }
}
