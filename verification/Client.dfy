/** Shifts and bits of natural numbers. */
module Bits {

  function Pow2(n: nat): (r: nat)
    ensures r > 0
  {
    if n == 0 then 1 else 2 * Pow2(n - 1)
  }

  lemma QuotientIsNat(v: nat, d: nat)
    requires d > 0
    ensures v / d >= 0
  {
  }

  function ShiftRight(v: nat, k: nat): nat {
    QuotientIsNat(v, Pow2(k));
    v / Pow2(k)
  }

  function Bit(v: nat, i: nat): nat {
    ShiftRight(v, i) % 2
  }

  lemma MulGap(a: nat, b: nat, d: nat)
    requires a < b
    ensures d * a + d <= d * b
  {
    assert d * b - d * a == d * (b - a);
    assert d * (b - a) == d + d * (b - a - 1);
  }

  lemma DivisionIsUnique(v: nat, d: nat, q: nat, r: nat)
    requires r < d && v == d * q + r
    ensures v / d == q
  {
    var p := v / d;
    assert v == d * p + v % d;
    if p < q {
      MulGap(p, q, d);
    } else if p > q {
      MulGap(q, p, d);
    }
  }

  lemma DivideSmall(v: nat, d: nat)
    requires v < d
    ensures v / d == 0
  {
    DivisionIsUnique(v, d, 0, v);
  }

  lemma SameQuotientAndRemainder(a: nat, b: nat, d: nat)
    requires d > 0 && a / d == b / d && a % d == b % d
    ensures a == b
  {
    assert a == d * (a / d) + a % d;
    assert b == d * (b / d) + b % d;
  }

  /** Shifting by one more place drops exactly the lowest remaining bit. */
  lemma ShiftStep(v: nat, k: nat)
    ensures ShiftRight(v, k) == 2 * ShiftRight(v, k + 1) + Bit(v, k)
  {
    var m, q := Pow2(k), v / Pow2(k);
    assert v == m * q + v % m;
    assert q == 2 * (q / 2) + q % 2;
    assert m * q == (2 * m) * (q / 2) + m * (q % 2);
    DivisionIsUnique(v, 2 * m, q / 2, m * (q % 2) + v % m);
  }

  /** Two `w`-bit numbers are equal after dropping `k` bits iff every bit from `k` up agrees. */
  lemma {:induction false} ShiftsAgreeIffBitsAgree(a: nat, b: nat, k: nat, w: nat)
    requires a < Pow2(w) && b < Pow2(w) && k <= w
    ensures ShiftRight(a, k) == ShiftRight(b, k) <==> forall i :: k <= i < w ==> Bit(a, i) == Bit(b, i)
    decreases w - k
  {
    if k == w {
      DivideSmall(a, Pow2(w));
      DivideSmall(b, Pow2(w));
    } else {
      ShiftStep(a, k);
      ShiftStep(b, k);
      ShiftsAgreeIffBitsAgree(a, b, k + 1, w);
    }
  }
}

/** Client addresses and the per-request client data. */
module Client {
  import opened Common
  import opened Bits

  datatype Family = IPv4 | IPv6

  function Width(f: Family): nat {
    match f
    case IPv4 => 32
    case IPv6 => 128
  }

  datatype Address = Address(family: Family, value: nat) {
    ghost predicate Valid() {
      value < Pow2(Width(family))
    }
  }

  /** A network as netaddr keeps it: the written address, host bits included, and the prefix length. */
  datatype Network = Network(ip: Address, prefixlen: nat) {
    ghost predicate Valid() {
      ip.Valid() && prefixlen <= Width(ip.family)
    }

    /** Membership as netaddr tests it: same family, equal once both are shifted by the host bits. */
    predicate Contains(a: Address) {
      a.family == ip.family && prefixlen <= Width(ip.family)
      && var shift := Width(ip.family) - prefixlen; ShiftRight(a.value, shift) == ShiftRight(ip.value, shift)
    }

    /** An EDNS Client Subnet carries zero bits beyond its source prefix (section 6 of RFC 7871). */
    ghost predicate ZeroHostBits()
      requires Valid()
    {
      ip.value % Pow2(Width(ip.family) - prefixlen) == 0
    }
  }

  /** `a` and `b` are of one family and their first `n` bits, most significant first, are the same. */
  ghost predicate AgreeOnFirst(n: nat, a: Address, b: Address) {
    a.family == b.family
    && forall i :: 0 <= i < n && i < Width(a.family) ==> TopBit(a, i) == TopBit(b, i)
  }

  function TopBit(a: Address, i: nat): nat
    requires i < Width(a.family)
  {
    Bit(a.value, Width(a.family) - 1 - i)
  }

  /** Agreement bit by bit is what the code tests with one shift. */
  lemma AgreeIffShiftsAgree(n: nat, a: Address, b: Address)
    requires a.Valid() && b.Valid() && a.family == b.family && n <= Width(a.family)
    ensures AgreeOnFirst(n, a, b) <==>
            ShiftRight(a.value, Width(a.family) - n) == ShiftRight(b.value, Width(a.family) - n)
  {
    var w := Width(a.family);
    ShiftsAgreeIffBitsAgree(a.value, b.value, w - n, w);
    if AgreeOnFirst(n, a, b) {
      forall i | w - n <= i < w
        ensures Bit(a.value, i) == Bit(b.value, i)
      {
        assert TopBit(a, w - 1 - i) == TopBit(b, w - 1 - i);
      }
    }
  }

  /** CIDR membership is agreement on the network's prefix. */
  lemma ContainsIffAgree(n: Network, a: Address)
    requires n.Valid() && a.Valid()
    ensures n.Contains(a) <==> AgreeOnFirst(n.prefixlen, a, n.ip)
  {
    if a.family == n.ip.family {
      AgreeIffShiftsAgree(n.prefixlen, a, n.ip);
    }
  }

  /** Two client subnets of one length without host bits that agree on that length are the same address. */
  lemma SubnetDeterminesAddress(a: Network, b: Network)
    requires a.Valid() && b.Valid() && a.ZeroHostBits() && b.ZeroHostBits()
    requires a.prefixlen == b.prefixlen && AgreeOnFirst(a.prefixlen, a.ip, b.ip)
    ensures a.ip == b.ip
  {
    AgreeIffShiftsAgree(a.prefixlen, a.ip, b.ip);
    SameQuotientAndRemainder(a.ip.value, b.ip.value, Pow2(Width(a.ip.family) - a.prefixlen));
  }

  datatype ClientGeo = ClientGeo(country: Option<string>, continent: Option<string>)

  /** The GeoIP reader: absent when never configured, otherwise a fixed function of the address. */
  type GeoReader = Option<Address -> ClientGeo>

  /** The mutable per-request client data; `geo` memoises the one lookup. */
  class ClientContext {
    const ip: Address
    const prefixlen: nat
    var geo: Option<ClientGeo>

    constructor (remote: Network)
      ensures ip == remote.ip && prefixlen == remote.prefixlen && geo == None
    {
      ip := remote.ip;
      prefixlen := remote.prefixlen;
      geo := None;
    }

    /** The memo holds nothing, or exactly what the reader says of this client. */
    ghost predicate Valid(reader: GeoReader)
      reads this
    {
      geo.Some? ==> reader.Some? && geo.value == reader.value(ip)
    }
  }
}
