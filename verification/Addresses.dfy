/** Numeric IP addresses, prefixes, and the address ranges the security filter knows. */
module Addresses {
  import opened Strings

  /** A parsed address: a 32-bit or a 128-bit number. IPv4-mapped IPv6 text parses to V4, as `To4` makes it. */
  datatype Addr = V4(n: nat) | V6(n: nat) {
    function Width(): nat {
      if V4? then 32 else 128
    }
  }

  /** What `net.ParseIP` answers for a text; every result here holds for any such parser. */
  type Parser = string -> Option<Addr>

  function Pow2(k: nat): (r: nat)
    ensures r > 0
  {
    if k == 0 then 1 else 2 * Pow2(k - 1)
  }

  /** A `net.IPNet`: the addresses that share the first `bits` bits of `base`. */
  datatype Net = Net(base: Addr, bits: nat) {
    /** `IPNet.Contains`: false across address families. */
    predicate Contains(a: Addr) {
      && a.V4? == base.V4?
      && bits <= base.Width()
      && a.n / Pow2(base.Width() - bits) == base.n / Pow2(base.Width() - bits)
    }
  }

  const PRIVATE_NETS: seq<Net> := [
    Net(V4(0x0A00_0000), 8), Net(V4(0xAC10_0000), 12), Net(V4(0xC0A8_0000), 16), Net(V4(0x6440_0000), 10)]
  const LOOPBACK_NETS: seq<Net> := [Net(V4(0x7F00_0000), 8), Net(V6(1), 128)]
  const LINK_LOCAL_NETS: seq<Net> := [
    Net(V4(0xA9FE_0000), 16), Net(V6(0xFE80_0000_0000_0000_0000_0000_0000_0000), 10)]

  /** Section 3 of RFC 1918 and section 7 of RFC 6598, as numeric intervals. */
  predicate InPrivateRange(a: Addr) {
    a.V4? && (
      || 0x0A00_0000 <= a.n <= 0x0AFF_FFFF
      || 0xAC10_0000 <= a.n <= 0xAC1F_FFFF
      || 0xC0A8_0000 <= a.n <= 0xC0A8_FFFF
      || 0x6440_0000 <= a.n <= 0x647F_FFFF)
  }

  /** 127.0.0.0/8, and ::1 of section 2.5.3 of RFC 4291. */
  predicate InLoopbackRange(a: Addr) {
    if a.V4? then 0x7F00_0000 <= a.n <= 0x7FFF_FFFF else a.n == 1
  }

  /** Section 2.1 of RFC 3927, and the fe80::/10 prefix of section 2.5.6 of RFC 4291. */
  predicate InLinkLocalRange(a: Addr) {
    if a.V4? then 0xA9FE_0000 <= a.n <= 0xA9FE_FFFF
    else 0xFE80_0000_0000_0000_0000_0000_0000_0000 <= a.n <= 0xFEBF_FFFF_FFFF_FFFF_FFFF_FFFF_FFFF_FFFF
  }

  ghost predicate InSomeNet(a: Addr, nets: seq<Net>) {
    exists n | n in nets :: n.Contains(a)
  }

  lemma HostPrefix(base: Addr, a: Addr)
    ensures Net(base, base.Width()).Contains(a) <==> a == base
  {
    assert Pow2(0) == 1;
  }

  lemma {:induction false} Pow2Sum(i: nat, j: nat)
    ensures Pow2(i + j) == Pow2(i) * Pow2(j)
  {
    if i > 0 {
      Pow2Sum(i - 1, j);
    }
  }

  lemma SmallPowers()
    ensures Pow2(2) == 4
  {
  }

  lemma Pow2Values()
    ensures Pow2(16) == 0x1_0000 && Pow2(20) == 0x10_0000 && Pow2(22) == 0x40_0000 && Pow2(24) == 0x100_0000
    ensures Pow2(118) == 0x40_0000_0000_0000_0000_0000_0000_0000
  {
    hide Pow2;
    SmallPowers();
    Pow2Sum(2, 2);
    Pow2Sum(4, 4);
    Pow2Sum(8, 8);
    Pow2Sum(16, 4);
    Pow2Sum(20, 2);
    Pow2Sum(20, 4);
    Pow2Sum(16, 16);
    Pow2Sum(32, 32);
    Pow2Sum(64, 32);
    Pow2Sum(96, 22);
  }

  /** Sharing the quotient by the block size means lying in the block. */
  lemma BlockInterval(x: nat, base: nat, size: nat)
    requires size > 0 && base % size == 0
    ensures x / size == base / size <==> base <= x < base + size
  {
    var q, k := base / size, x / size;
    assert base == q * size && x == k * size + x % size;
    if k < q {
      MultipleBelow(k, q, size);
    } else if q < k {
      MultipleBelow(q, k, size);
    }
  }

  lemma MultipleBelow(k: nat, q: nat, size: nat)
    requires k < q
    ensures (k + 1) * size == k * size + size <= q * size
  {
  }

  /** A net of `size` addresses starting at `base` contains exactly its interval. */
  lemma NetInterval(net: Net, size: nat, a: Addr)
    requires net.bits <= net.base.Width() && size == Pow2(net.base.Width() - net.bits) && net.base.n % size == 0
    ensures net.Contains(a) <==> a.V4? == net.base.V4? && net.base.n <= a.n < net.base.n + size
  {
    BlockInterval(a.n, net.base.n, size);
  }

  /** The mask comparison of each table agrees with the published numeric intervals. */
  lemma TablesMatchRanges(a: Addr)
    ensures InSomeNet(a, PRIVATE_NETS) <==> InPrivateRange(a)
    ensures InSomeNet(a, LOOPBACK_NETS) <==> InLoopbackRange(a)
    ensures InSomeNet(a, LINK_LOCAL_NETS) <==> InLinkLocalRange(a)
  {
    PrivateTable(a);
    LoopbackTable(a);
    LinkLocalTable(a);
  }

  lemma PrivateTable(a: Addr)
    ensures InSomeNet(a, PRIVATE_NETS) <==> InPrivateRange(a)
  {
    hide Net.Contains, Pow2;
    var t := PRIVATE_NETS;
    assert t[0] in t && t[1] in t && t[2] in t && t[3] in t;
    Pow2Values();
    NetInterval(t[0], 0x100_0000, a);
    NetInterval(t[1], 0x10_0000, a);
    NetInterval(t[2], 0x1_0000, a);
    NetInterval(t[3], 0x40_0000, a);
  }

  lemma LoopbackTable(a: Addr)
    ensures InSomeNet(a, LOOPBACK_NETS) <==> InLoopbackRange(a)
  {
    var t := LOOPBACK_NETS;
    assert t[0] in t && t[1] in t;
    Pow2Values();
    HostPrefix(V6(1), a);
    NetInterval(t[0], 0x100_0000, a);
  }

  lemma LinkLocalTable(a: Addr)
    ensures InSomeNet(a, LINK_LOCAL_NETS) <==> InLinkLocalRange(a)
  {
    hide Net.Contains, Pow2;
    var t := LINK_LOCAL_NETS;
    assert t[0] in t && t[1] in t;
    Pow2Values();
    NetInterval(t[0], 0x1_0000, a);
    NetInterval(t[1], 0x40_0000_0000_0000_0000_0000_0000_0000, a);
  }

  /** The first net of the table that contains `a`. */
  method MatchingCIDR(a: Addr, nets: seq<Net>) returns (r: Option<Net>)
    ensures r.Some? <==> InSomeNet(a, nets)
    ensures r.Some? ==> exists k | 0 <= k < |nets| ::
                nets[k] == r.value && nets[k].Contains(a) && forall j | 0 <= j < k :: !nets[j].Contains(a)
  {
    for i := 0 to |nets|
      invariant forall j | 0 <= j < i :: !nets[j].Contains(a)
    {
      if nets[i].Contains(a) {
        return Some(nets[i]);
      }
    }
    return None;
  }
}
