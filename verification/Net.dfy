/** IP addresses and CIDR blocks.

    An address is a family and a number below 2^width; a block is an address, possibly with
    host bits set, and a prefix length.  Blocks of one family are laminar: two blocks that
    share an address are nested.  Everything the longest-prefix-match theorems need from
    binary arithmetic is proved here once. */
module Net {

  datatype Family = V4 | V6

  function Width(f: Family): nat {
    match f
    case V4 => 32
    case V6 => 128
  }

  function Pow2(n: nat): (p: nat)
    ensures p > 0
  {
    if n == 0 then 1 else 2 * Pow2(n - 1)
  }

  datatype RawAddr = RawAddr(fam: Family, bits: nat)

  type Addr = a: RawAddr | a.bits < Pow2(Width(a.fam)) witness RawAddr(V4, 0)

  datatype RawCidr = RawCidr(addr: Addr, prefix: nat)

  /** `IpNet`: host bits below the prefix are kept, exactly as the library keeps them. */
  type Cidr = c: RawCidr | c.prefix <= Width(c.addr.fam) witness RawCidr(RawAddr(V4, 0), 32)

  /** Number of addresses of a block. */
  function Size(c: Cidr): (s: nat)
    ensures s > 0
  {
    Pow2(Width(c.addr.fam) - c.prefix)
  }

  /** First address of the block: the address with its host bits cleared. */
  function Network(c: Cidr): Addr {
    FloorBounds(c.addr.bits, Size(c));
    RawAddr(c.addr.fam, c.addr.bits / Size(c) * Size(c))
  }

  /** `IpNet::contains`: between the first and the last address, and of the same family. */
  predicate Contains(c: Cidr, ip: Addr) {
    && ip.fam == c.addr.fam
    && Network(c).bits <= ip.bits < Network(c).bits + Size(c)
  }

  /** `IpNet::trunc`. */
  function Trunc(c: Cidr): Cidr {
    RawCidr(Network(c), c.prefix)
  }

  function HostNet(ip: Addr): Cidr {
    RawCidr(ip, Width(ip.fam))
  }

  /** `nets_overlap`: either block holds the first address of the other. */
  predicate Overlap(a: Cidr, b: Cidr) {
    Contains(a, Network(b)) || Contains(b, Network(a))
  }

  /** Containment is agreement on the bits of the prefix. */
  lemma ContainsIsPrefix(c: Cidr, ip: Addr)
    ensures Contains(c, ip) <==>
            && ip.fam == c.addr.fam
            && ip.bits / Pow2((if ip.fam == V4 then 32 else 128) - c.prefix)
               == c.addr.bits / Pow2((if ip.fam == V4 then 32 else 128) - c.prefix)
  {
    if ip.fam == c.addr.fam {
      var d, q := Size(c), c.addr.bits / Size(c);
      FloorBounds(ip.bits, d);
      FloorBounds(c.addr.bits, d);
      if q * d <= ip.bits < q * d + d { DivUnique(ip.bits, d, q); }
    }
  }

  // ---------------------------------------------------------------- arithmetic

  lemma FloorBounds(x: nat, d: nat)
    requires d > 0
    ensures 0 <= x / d * d <= x < x / d * d + d
  {
  }

  lemma DivUnique(x: nat, d: nat, q: nat)
    requires d > 0
    requires q * d <= x < q * d + d
    ensures x / d == q
  {
    FloorBounds(x, d);
    var p := x / d;
    if p < q {
      assert (p + 1) * d <= q * d by { MulMonotone(p + 1, q, d); }
    } else if q < p {
      assert (q + 1) * d <= p * d by { MulMonotone(q + 1, p, d); }
    }
  }

  lemma MulMonotone(a: nat, b: nat, d: nat)
    requires a <= b
    ensures a * d <= b * d
  {
  }

  lemma DivDiv(x: nat, d: nat, k: nat)
    requires d > 0 && k > 0
    ensures d * k > 0 && x / (d * k) == x / d / k
  {
    var p, q := x / d, x / d / k;
    FloorBounds(x, d);
    FloorBounds(p, k);
    assert q * k <= p <= q * k + k - 1;
    MulMonotone(q * k, p, d);
    MulMonotone(p, q * k + k - 1, d);
    assert q * k * d == q * (d * k);
    assert (q * k + k - 1) * d == q * (d * k) + d * k - d;
    assert d * k > 0;
    DivUnique(x, d * k, q);
  }

  lemma Pow2Add(m: nat, n: nat)
    ensures Pow2(m + n) == Pow2(m) * Pow2(n)
  {
    if m > 0 { Pow2Add(m - 1, n); }
  }

  // ---------------------------------------------------------------- blocks

  /** Membership is agreement on everything above the host bits. */
  lemma ContainsIffSameBlock(c: Cidr, ip: Addr)
    ensures Contains(c, ip) <==> ip.fam == c.addr.fam && ip.bits / Size(c) == c.addr.bits / Size(c)
  {
    FloorBounds(ip.bits, Size(c));
    FloorBounds(c.addr.bits, Size(c));
    if ip.fam == c.addr.fam && Contains(c, ip) {
      DivUnique(ip.bits, Size(c), c.addr.bits / Size(c));
    }
  }

  lemma ContainsOwnAddress(c: Cidr)
    ensures Contains(c, c.addr) && Contains(c, Network(c))
  {
    ContainsIffSameBlock(c, c.addr);
    FloorBounds(c.addr.bits, Size(c));
  }

  lemma HostNetHoldsOne(h: Addr, ip: Addr)
    ensures Contains(HostNet(h), ip) <==> ip == h
    ensures Trunc(HostNet(h)) == HostNet(h)
  {
    assert Size(HostNet(h)) == Pow2(0) == 1;
    assert h.bits / 1 * 1 == h.bits;
  }

  /** A host-length block, however it is written, holds exactly its own address. */
  lemma HostLengthHoldsOne(c: Cidr, ip: Addr)
    requires c.prefix == Width(c.addr.fam)
    ensures Contains(c, ip) <==> ip == c.addr
    ensures Trunc(c) == c
  {
    HostNetHoldsOne(c.addr, ip);
    assert c == HostNet(c.addr);
  }

  lemma TruncIdempotent(c: Cidr)
    ensures Trunc(Trunc(c)) == Trunc(c)
  {
    var s := Size(c);
    var q := c.addr.bits / s;
    assert Size(Trunc(c)) == s;
    DivUnique(q * s, s, q);
  }

  lemma TruncSameMembers(c: Cidr, ip: Addr)
    ensures Contains(Trunc(c), ip) <==> Contains(c, ip)
  {
    TruncIdempotent(c);
    assert Network(Trunc(c)) == Network(c);
  }

  /** Blocks of one length that share an address are the same block. */
  lemma SameLengthSameBlock(a: Cidr, b: Cidr, ip: Addr)
    requires a.prefix == b.prefix
    requires Contains(a, ip) && Contains(b, ip)
    ensures Trunc(a) == Trunc(b)
  {
    ContainsIffSameBlock(a, ip);
    ContainsIffSameBlock(b, ip);
  }

  /** Laminarity: the longer of two blocks that share one address lies inside the other. */
  lemma Nested(longer: Cidr, shorter: Cidr, shared: Addr, ip: Addr)
    requires longer.prefix >= shorter.prefix
    requires Contains(longer, shared) && Contains(shorter, shared)
    requires Contains(longer, ip)
    ensures Contains(shorter, ip)
  {
    var w := Width(ip.fam);
    var k := Pow2(longer.prefix - shorter.prefix);
    Pow2Add(w - longer.prefix, longer.prefix - shorter.prefix);
    assert Size(shorter) == Size(longer) * k;
    ContainsIffSameBlock(longer, shared);
    ContainsIffSameBlock(longer, ip);
    ContainsIffSameBlock(shorter, shared);
    ContainsIffSameBlock(shorter, ip);
    DivDiv(shared.bits, Size(longer), k);
    DivDiv(ip.bits, Size(longer), k);
  }

  /** The overlap test of the validator and of the planner is exact, for every pair of
      families, every pair of prefixes and any host bits. */
  lemma OverlapIffCommonAddress(a: Cidr, b: Cidr)
    ensures Overlap(a, b) <==> exists ip: Addr :: Contains(a, ip) && Contains(b, ip)
  {
    ContainsOwnAddress(a);
    ContainsOwnAddress(b);
    if ip: Addr :| Contains(a, ip) && Contains(b, ip) {
      if a.prefix <= b.prefix {
        Nested(b, a, ip, Network(b));
      } else {
        Nested(a, b, ip, Network(a));
      }
    }
  }
}
