/** IP prefixes as net.ParseCIDR yields them, and the test that a peer prefix lies on the interface. */
module Networks {
  import opened Base

  function Pow2(n: nat): (r: nat)
    ensures r >= 1
  {
    if n == 0 then 1 else 2 * Pow2(n - 1)
  }

  /** `wide` is a 16-byte address, otherwise a 4-byte one; `ones` is the mask length. */
  datatype RawNet = IPNet(wide: bool, addr: nat, ones: nat) {
    function Bits(): nat { if wide then 128 else 32 }

    /** ParseCIDR masks the address, so no host bit is set. */
    predicate Masked() {
      ones <= Bits() && addr < Pow2(Bits()) && addr % Pow2(Bits() - ones) == 0
    }

    /** The network holds the address `a` of its own family. */
    ghost predicate Holds(a: nat)
      requires Masked()
    {
      addr <= a < addr + Pow2(Bits() - ones)
    }
  }

  type IPNet = n: RawNet | n.Masked() witness IPNet(false, 0, 32)

  const MAPPED_HIGH := 0xffff
  const LOW32: nat := 0x1_0000_0000

  /** An IPv4-mapped IPv6 address (section 2.5.5.2 of RFC 4291). */
  predicate Mapped(wide: bool, addr: nat) {
    wide && addr / LOW32 == MAPPED_HIGH
  }

  /** net.IP.To4 */
  function To4(wide: bool, addr: nat): Option<nat> {
    if !wide then Some(addr)
    else if Mapped(wide, addr) then Some(addr % LOW32)
    else None
  }

  /** The leading ones of the last four bytes of a mask. */
  function LowOnes(net: IPNet): (r: nat)
    ensures r <= 32
  {
    if !net.wide then net.ones else if net.ones > 96 then net.ones - 96 else 0
  }

  /** net.IPNet.Contains: both sides shrink to four bytes when they can, then lengths and masked bytes must match. */
  predicate Contains(pool: IPNet, wide: bool, addr: nat) {
    match (To4(pool.wide, pool.addr), To4(wide, addr))
    case (Some(p), Some(a)) => p / Pow2(32 - LowOnes(pool)) == a / Pow2(32 - LowOnes(pool))
    case (None, None) => pool.addr / Pow2(128 - pool.ones) == addr / Pow2(128 - pool.ones)
    case _ => false
  }

  /** One turn of the loop in peerIPAllowedOnInterface. */
  predicate Admits(pool: IPNet, peer: IPNet) {
    pool.wide == peer.wide && Contains(pool, peer.wide, peer.addr) && peer.ones >= pool.ones
  }

  predicate AllowedOnInterface(peer: IPNet, pools: seq<IPNet>) {
    |pools| == 0 || exists pool :: pool in pools && Admits(pool, peer)
  }

  /**
   * What net.IPNet.String prints: a mapped network prints as the IPv4 network it stands for. Peers and kernel
   * configurations hold their networks in this form, which is the one the code compares them by.
   */
  datatype Prefix = Prefix(v6: bool, addr: nat, ones: nat)

  function Text(net: IPNet): Prefix {
    if Mapped(net.wide, net.addr) then Prefix(false, net.addr % LOW32, LowOnes(net))
    else Prefix(net.wide, net.addr, net.ones)
  }

  // ---- what the test means ------------------------------------------------

  /** The same family, and every address of the peer is an address of the pool. */
  ghost predicate Covers(pool: IPNet, peer: IPNet) {
    pool.wide == peer.wide && forall a: nat :: peer.Holds(a) ==> pool.Holds(a)
  }

  lemma {:induction false} Pow2Adds(m: nat, n: nat)
    ensures Pow2(m + n) == Pow2(m) * Pow2(n)
  {
    if m > 0 {
      Pow2Adds(m - 1, n);
    }
  }

  lemma {:induction false} Pow2Grows(m: nat, n: nat)
    requires m < n
    ensures Pow2(m) < Pow2(n)
  {
    if m + 1 < n {
      Pow2Grows(m, n - 1);
    }
  }

  lemma QuotientBounds(x: nat, d: nat)
    requires d > 0
    ensures x / d * d <= x < x / d * d + d
    ensures x % d == 0 ==> x / d * d == x
  {
  }

  lemma QuotientUnique(x: nat, q: nat, d: nat)
    requires d > 0 && q * d <= x < q * d + d
    ensures x / d == q
  {
    QuotientBounds(x, d);
    SameMultiple(x / d, q, d);
  }

  lemma SameMultiple(i: nat, j: nat, d: nat)
    requires i * d < j * d + d && j * d < i * d + d
    ensures i == j
  {
    if i < j {
      StepsApart(i, j, d);
    }
    if j < i {
      StepsApart(j, i, d);
    }
  }

  lemma StepsApart(i: nat, j: nat, d: nat)
    requires i < j
    ensures i * d + d <= j * d
  {
    assert j * d == (i + 1) * d + (j - i - 1) * d;
  }

  /** Two multiples of `d` that are strictly ordered are at least `d` apart. */
  lemma MultiplesApart(i: nat, j: nat, d: nat)
    requires i * d < j * d
    ensures i * d + d <= j * d
  {
    assert i < j;
    StepsApart(i, j, d);
  }

  lemma BlockTop(m: nat, f: nat, d: nat)
    ensures (m * f + f) * d == m * (f * d) + f * d
  {
  }

  /** A block of size `d` that starts inside an aligned block of size `f * d` ends inside it. */
  lemma BlockFits(m: nat, f: nat, n: nat, d: nat)
    requires n * d < m * (f * d) + f * d
    ensures n * d + d <= m * (f * d) + f * d
  {
    BlockTop(m, f, d);
    MultiplesApart(n, m * f + f, d);
  }

  /** Aligned blocks: equal quotients and a shorter block say the same as interval inclusion. */
  lemma AlignedBlocks(base: nat, size: nat, sub: nat, subSize: nat)
    requires size > 0 && subSize > 0
    requires base % size == 0 && sub % subSize == 0
    requires subSize <= size ==> exists f: nat :: size == f * subSize
    ensures (base / size == sub / size && subSize <= size) <==> (base <= sub && sub + subSize <= base + size)
  {
    QuotientBounds(base, size);
    if base / size == sub / size && subSize <= size {
      QuotientBounds(sub, size);
      QuotientBounds(sub, subSize);
      var f: nat :| size == f * subSize;
      BlockFits(base / size, f, sub / subSize, subSize);
    }
    if base <= sub && sub + subSize <= base + size {
      QuotientUnique(sub, base / size, size);
    }
  }

  lemma SizesDivide(m: nat, n: nat)
    requires Pow2(m) <= Pow2(n)
    ensures m <= n
    ensures exists f: nat :: Pow2(n) == f * Pow2(m)
  {
    if n < m {
      Pow2Grows(n, m);
    }
    Pow2Adds(n - m, m);
  }

  lemma CoversIsInclusion(pool: IPNet, peer: IPNet)
    requires pool.wide == peer.wide
    ensures Covers(pool, peer) <==>
            pool.addr <= peer.addr &&
            peer.addr + Pow2(peer.Bits() - peer.ones) <= pool.addr + Pow2(pool.Bits() - pool.ones)
  {
    if Covers(pool, peer) {
      assert peer.Holds(peer.addr);
      assert peer.Holds(peer.addr + Pow2(peer.Bits() - peer.ones) - 1);
    }
  }

  /** Inclusion, by quotients of the full-width addresses. */
  lemma CoversByQuotient(pool: IPNet, peer: IPNet)
    requires pool.wide == peer.wide
    ensures var size := Pow2(pool.Bits() - pool.ones);
            Covers(pool, peer) <==> pool.addr / size == peer.addr / size && peer.ones >= pool.ones
  {
    var size, subSize := Pow2(pool.Bits() - pool.ones), Pow2(peer.Bits() - peer.ones);
    if subSize <= size {
      SizesDivide(peer.Bits() - peer.ones, pool.Bits() - pool.ones);
    } else if peer.ones > pool.ones {
      Pow2Grows(peer.Bits() - peer.ones, pool.Bits() - pool.ones);
    }
    AlignedBlocks(pool.addr, size, peer.addr, subSize);
    CoversIsInclusion(pool, peer);
  }

  lemma Pow2Of32()
    ensures Pow2(32) == LOW32
  {
    Pow2Adds(16, 16);
    assert Pow2(16) == 65536 by {
      Pow2Adds(8, 8);
      assert Pow2(8) == 256;
    }
  }

  lemma EvenHighPart(addr: nat, q: nat, h: nat)
    requires addr == q * (LOW32 * (2 * h))
    ensures addr / LOW32 % 2 == 0
  {
    var e := q * h;
    assert q * (LOW32 * (2 * h)) == (2 * e) * LOW32;
    QuotientUnique(addr, 2 * e, LOW32);
  }

  /** A masked network at a mapped address has at least 96 mask bits. */
  lemma MappedIsLong(net: IPNet)
    requires Mapped(net.wide, net.addr)
    ensures net.ones >= 96
  {
    if net.ones < 96 {
      var d: nat := 128 - net.ones;
      Pow2Of32();
      Pow2Adds(32, d - 32);
      assert Pow2(d - 32) == 2 * Pow2(d - 33);
      QuotientBounds(net.addr, Pow2(d));
      EvenHighPart(net.addr, net.addr / Pow2(d), Pow2(d - 33));
      assert false;
    }
  }

  /** Dropping the common high part of two mapped addresses keeps equality of quotients by a divisor of 2^32. */
  lemma LowQuotients(a: nat, b: nat, f: nat, d: nat)
    requires Mapped(true, a) && Mapped(true, b) && d > 0 && f * d == LOW32
    ensures (a / d == b / d) <==> (a % LOW32 / d == b % LOW32 / d)
  {
    var k := MAPPED_HIGH * f;
    assert k * d == MAPPED_HIGH * LOW32;
    QuotientBounds(a, LOW32);
    QuotientBounds(b, LOW32);
    ShiftedQuotient(a, k, d);
    ShiftedQuotient(b, k, d);
  }

  lemma ShiftedQuotient(x: nat, k: nat, d: nat)
    requires d > 0 && k * d <= x
    ensures x / d == k + (x - k * d) / d
  {
    var y := x - k * d;
    QuotientBounds(y, d);
    assert (k + y / d) * d == k * d + y / d * d;
    QuotientUnique(x, k + y / d, d);
  }

  /** The block of size `d` at an aligned mapped address stays below the end of the mapped range. */
  lemma MappedBlockEnds(base: nat, f: nat, d: nat)
    requires Mapped(true, base) && d > 0 && f * d == LOW32 && base % d == 0
    ensures base + d <= (MAPPED_HIGH + 1) * LOW32
  {
    QuotientBounds(base, d);
    QuotientBounds(base, LOW32);
    var top := (MAPPED_HIGH + 1) * f;
    assert top * d == (MAPPED_HIGH + 1) * LOW32;
    MultiplesApart(base / d, top, d);
  }

  /** An address inside a mapped network is mapped. */
  lemma MappedNetHoldsMapped(net: IPNet, a: nat)
    requires Mapped(net.wide, net.addr) && net.Holds(a)
    ensures Mapped(true, a)
  {
    MappedIsLong(net);
    Pow2Of32();
    Pow2Adds(net.ones - 96, 128 - net.ones);
    MappedBlockEnds(net.addr, Pow2(net.ones - 96), Pow2(128 - net.ones));
    QuotientBounds(net.addr, LOW32);
    QuotientUnique(a, MAPPED_HIGH, LOW32);
  }

  /**
   * The exact meaning of one turn: inclusion of address blocks of one family, except that a peer at a mapped
   * address is only ever matched with a mapped pool.
   */
  lemma AdmitsExactly(pool: IPNet, peer: IPNet)
    ensures Admits(pool, peer) <==>
            Covers(pool, peer) && (Mapped(peer.wide, peer.addr) ==> Mapped(pool.wide, pool.addr))
  {
    if pool.wide == peer.wide {
      CoversByQuotient(pool, peer);
      if Mapped(pool.wide, pool.addr) && Mapped(peer.wide, peer.addr) {
        MappedIsLong(pool);
        Pow2Of32();
        Pow2Adds(pool.ones - 96, 128 - pool.ones);
        LowQuotients(pool.addr, peer.addr, Pow2(pool.ones - 96), Pow2(128 - pool.ones));
      } else if Mapped(pool.wide, pool.addr) && Covers(pool, peer) {
        assert peer.Holds(peer.addr);
        MappedNetHoldsMapped(pool, peer.addr);
      }
    }
  }

  /** The IPv6 network of an IPv4 network's mapped addresses. */
  ghost predicate Twins(v4: IPNet, v6: IPNet) {
    !v4.wide && v6.wide && v6.addr == MAPPED_HIGH * LOW32 + v4.addr && v6.ones == 96 + v4.ones
  }

  lemma MappedByAddress(net: IPNet)
    requires net.wide
    ensures Mapped(net.wide, net.addr) <==> MAPPED_HIGH * LOW32 <= net.addr < (MAPPED_HIGH + 1) * LOW32
  {
  }

  /** Two networks print alike exactly if they are the same, or one is the mapped form of the other. */
  lemma TextExactly(a: IPNet, b: IPNet)
    ensures Text(a) == Text(b) <==> a == b || Twins(a, b) || Twins(b, a)
  {
    Pow2Of32();
    if Mapped(a.wide, a.addr) {
      MappedIsLong(a);
    }
    if Mapped(b.wide, b.addr) {
      MappedIsLong(b);
    }
  }

  /** For a peer that is not IPv4-mapped the interface test is inclusion in one configured network. */
  lemma AllowedExactly(peer: IPNet, pools: seq<IPNet>)
    ensures AllowedOnInterface(peer, pools) <==>
            |pools| == 0 ||
            exists pool :: pool in pools && Covers(pool, peer) &&
                           (Mapped(peer.wide, peer.addr) ==> Mapped(pool.wide, pool.addr))
  {
    forall pool: IPNet ensures Admits(pool, peer) <==>
      Covers(pool, peer) && (Mapped(peer.wide, peer.addr) ==> Mapped(pool.wide, pool.addr))
    {
      AdmitsExactly(pool, peer);
    }
  }

  /** The whole IPv6 space covers the mapped network ::ffff:1.2.3.4/128, and the test still turns it away. */
  lemma MappedPeerTurnedAway()
    ensures var pool, peer: RawNet := IPNet(true, 0, 0), IPNet(true, 0xffff_0102_0304, 128);
            && pool.Masked() && peer.Masked()
            && Covers(pool, peer) && !AllowedOnInterface(peer, [pool])
  {
    var pool, peer: RawNet := IPNet(true, 0, 0), IPNet(true, 0xffff_0102_0304, 128);
    assert 0xffff_0102_0304 < Pow2(128) by { Pow2Of128(); }
    assert Pow2(0) == 1;
    assert peer.Masked();
    assert pool.Masked();
    CoversIsInclusion(pool, peer);
    assert Mapped(peer.wide, peer.addr) && !Mapped(pool.wide, pool.addr);
    AdmitsExactly(pool, peer);
  }

  lemma Pow2Of128()
    ensures 0xffff_ffff_ffff < Pow2(128)
  {
    Pow2Of32();
    Pow2Adds(32, 32);
    Pow2Grows(64, 128);
  }
}
