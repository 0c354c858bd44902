/** First-fit allocation of mesh addresses, and the arithmetic of the pool it scans. */
module Allocator {
  import opened Networks
  import opened Outcomes

  datatype AllocationError = Exhausted | AddressOverflow

  datatype Addresses = Addresses(v4: nat, v6: nat)

  /** `hosts()` leaves out the first and the last address, except in /31 and /32 blocks. */
  function FirstHost(n: Network4): nat {
    if n.length >= 31 then n.base else n.base + 1
  }

  function HostsEnd(n: Network4): nat {
    if n.length >= 31 then n.base + Size(n, IPv4) else n.base + Size(n, IPv4) - 1
  }

  predicate Usable(n: Network4, address: nat) {
    && FirstHost(n) <= address < HostsEnd(n)
    && address != n.base
    && !EndsInDotOne(address)
  }

  ghost predicate Free(n: Network4, taken: set<nat>, address: nat) {
    Usable(n, address) && address !in taken
  }

  ghost predicate LeastFree(n: Network4, taken: set<nat>, address: nat) {
    Free(n, taken, address) && forall a :: Free(n, taken, a) ==> address <= a
  }

  ghost function FirstFree(n: Network4, taken: set<nat>): (r: Option<nat>)
    ensures r.None? ==> forall a :: !Free(n, taken, a)
    ensures r.Some? ==> LeastFree(n, taken, r.value)
  {
    if a :| Free(n, taken, a) then
      LeastExists(n, taken, a);
      var least :| LeastFree(n, taken, least);
      Some(least)
    else
      None
  }

  /** What one allocation returns, stated without the scan. */
  ghost function Allocation(n4: Network4, n6: Network6, taken: set<nat>): (r: Result<Addresses, AllocationError>)
    ensures r.Ok? ==> Coupled(n4, n6, r.value)
  {
    match FirstFree(n4, taken)
    case None => Err(Exhausted)
    case Some(v4) =>
      var v6 := n6.base + (v4 - n4.base);
      if v6 >= Space(IPv6) then Err(AddressOverflow) else Ok(Addresses(v4, v6))
  }

  /** The IPv6 address repeats the host offset of the IPv4 address. */
  predicate Coupled(n4: Network4, n6: Network6, a: Addresses) {
    && n4.base <= a.v4
    && a.v6 == n6.base + (a.v4 - n4.base)
    && a.v6 < Space(IPv6)
  }

  lemma {:induction false} LeastExists(n: Network4, taken: set<nat>, a: nat)
    requires Free(n, taken, a)
    ensures exists least :: LeastFree(n, taken, least)
    decreases a
  {
    if b: nat :| b < a && Free(n, taken, b) {
      LeastExists(n, taken, b);
    } else {
      assert LeastFree(n, taken, a);
    }
  }

  /** For every taken set, holes and all: the address handed out is usable, free, and below every other
      usable free address; exhaustion means that there is none, overflow that its IPv6 twin does not exist. */
  lemma AllocationIsLeastFree(n4: Network4, n6: Network6, taken: set<nat>)
    ensures var r := Allocation(n4, n6, taken);
            && (r.Ok? ==>
                  && Usable(n4, r.value.v4) && r.value.v4 !in taken
                  && (forall a :: Usable(n4, a) && a !in taken ==> r.value.v4 <= a)
                  && r.value.v6 - n6.base == r.value.v4 - n4.base)
            && (r == Err(Exhausted) <==> forall a :: Usable(n4, a) ==> a in taken)
            && (r == Err(AddressOverflow) <==> exists a :: IsTwinless(n4, n6, taken, a))
  {
    var free := FirstFree(n4, taken);
    if free.None? {
      forall a: nat | Usable(n4, a) ensures a in taken {
        assert !Free(n4, taken, a);
      }
    } else {
      forall a: nat | Usable(n4, a) && a !in taken ensures free.value <= a {
        assert Free(n4, taken, a);
      }
      if n6.base + (free.value - n4.base) >= Space(IPv6) {
        assert IsTwinless(n4, n6, taken, free.value);
      }
    }
  }

  /** The least usable free address, with a sum that reaches 2^128. */
  ghost predicate IsTwinless(n4: Network4, n6: Network6, taken: set<nat>, a: nat) {
    && Usable(n4, a) && a !in taken
    && (forall b :: Usable(n4, b) && b !in taken ==> a <= b)
    && n6.base + (a - n4.base) >= 0x1_0000_0000_0000_0000_0000_0000_0000_0000
  }

  class IPAllocator {
    var ipv4Net: Network4
    var ipv6Net: Network6

    constructor (ipv4: Network4, ipv6: Network6)
      ensures ipv4Net == ipv4 && ipv6Net == ipv6
    {
      ipv4Net, ipv6Net := ipv4, ipv6;
    }

    /** The scan over `hosts()`; as in the source, `allocatedV6` is never consulted. */
    method Allocate(allocatedV4: set<nat>, allocatedV6: set<nat>)
      returns (r: Result<Addresses, AllocationError>)
      ensures r == Allocation(ipv4Net, ipv6Net, allocatedV4)
      ensures r.Ok? ==>
                && Usable(ipv4Net, r.value.v4) && r.value.v4 !in allocatedV4
                && (forall a :: Usable(ipv4Net, a) && a !in allocatedV4 ==> r.value.v4 <= a)
                && r.value.v6 - ipv6Net.base == r.value.v4 - ipv4Net.base
      ensures r == Err(Exhausted) <==> forall a :: Usable(ipv4Net, a) ==> a in allocatedV4
    {
      AllocationIsLeastFree(ipv4Net, ipv6Net, allocatedV4);
      var nextV4: Option<nat> := None;
      var host := FirstHost(ipv4Net);
      while host < HostsEnd(ipv4Net)
        invariant FirstHost(ipv4Net) <= host <= HostsEnd(ipv4Net)
        invariant nextV4 == None
        invariant forall a :: Free(ipv4Net, allocatedV4, a) ==> host <= a
      {
        if host == ipv4Net.base || EndsInDotOne(host) {
          host := host + 1;
          continue;
        }
        if host !in allocatedV4 {
          nextV4 := Some(host);
          break;
        }
        host := host + 1;
      }

      if nextV4.None? {
        return Err(Exhausted);
      }
      assert LeastFree(ipv4Net, allocatedV4, nextV4.value);
      var v6Host := ipv6Net.base + (nextV4.value - ipv4Net.base);
      if v6Host >= Space(IPv6) {
        return Err(AddressOverflow);
      }
      return Ok(Addresses(nextV4.value, v6Host));
    }
  }

  // ----- The closed form of the pool

  /** Whether the block starts on a multiple of 256, so that offset 1 is a ".1" address. */
  predicate Aligned(n: Network4) {
    n.base % 256 == 0
  }

  /** Offset of the `i`-th usable address, counting from 0. */
  function Offset(aligned: bool, i: nat): nat {
    if aligned then
      var j := i + 1;
      256 * (j / 255) + (if j % 255 == 0 then 0 else j % 255 + 1)
    else
      i + 1
  }

  function Nth(n: Network4, i: nat): nat {
    n.base + Offset(Aligned(n), i)
  }

  /** How many usable addresses the block has, by prefix length. */
  function Capacity(n: Network4): (c: int)
    ensures c >= 0
  {
    if n.length <= 24 then
      LargeBlock(n);
      Size(n, IPv4) - Pow2(24 - n.length) - 2
    else if n.length <= 30 then
      Pow2Monotone(2, 32 - n.length);
      SmallPow2();
      Size(n, IPv4) - 2 - (if Aligned(n) then 1 else 0)
    else if n.length == 31 then
      if Aligned(n) then 0 else 1
    else
      0
  }

  lemma LargeBlock(n: Network4)
    requires n.length <= 24
    ensures Size(n, IPv4) == 256 * Pow2(24 - n.length)
    ensures Aligned(n)
  {
    FewerClearBits(n.base, 32 - n.length, 8);
    EightClearBits(n.base);
    Pow2PlusFour(28 - n.length);
    Pow2PlusFour(24 - n.length);
  }

  // In a block of at most 128 addresses no last octet wraps around.
  lemma SmallBlock(n: Network4)
    requires n.length >= 25
    ensures Size(n, IPv4) <= 128
    ensures n.base % 256 + Size(n, IPv4) <= 256
    ensures n.length == 31 ==> Size(n, IPv4) == 2
    ensures n.length == 32 ==> Size(n, IPv4) == 1
    ensures n.length <= 30 ==> Size(n, IPv4) >= 4
  {
    SmallPow2();
    SmallBlockStart(n.base, 32 - n.length);
    if n.length <= 30 {
      Pow2Monotone(2, 32 - n.length);
    }
    Pow2Monotone(32 - n.length, 7);
  }

  lemma SmallBlockStart(base: nat, k: nat)
    requires k <= 8 && LowBitsClear(base, k)
    ensures base % 256 + Pow2(k) <= 256
  {
    LowByteHasClearBits(base, k);
    SmallPow2();
    Pow2HasClearBits(8, k);
    ClearNumbersAreSpaced(base % 256, 256, k);
  }

  lemma LowByteHasClearBits(base: nat, k: nat)
    requires k <= 8 && LowBitsClear(base, k)
    ensures LowBitsClear(base % 256, k)
  {
    var high := 256 * (base / 256);
    assert high + base % 256 == base;
    EightClearBits(high);
    FewerClearBits(high, 8, k);
    DifferenceHasClearBits(high, base % 256, k);
  }

  lemma OffsetIncreases(aligned: bool, i: nat, j: nat)
    requires i < j
    ensures Offset(aligned, i) < Offset(aligned, j)
  {
  }

  lemma NthIsUsable(n: Network4, i: nat)
    requires i < Capacity(n)
    ensures Usable(n, Nth(n, i))
  {
    if Aligned(n) {
      SameLastOctet(n.base, Offset(true, i));
    }
    if n.length <= 24 {
      LargeBlock(n);
      LargeBlockOffset(Pow2(24 - n.length), i);
    } else {
      SmallBlock(n);
    }
  }

  lemma LargeBlockOffset(m: nat, i: nat)
    requires i < 255 * m - 2
    ensures 1 < Offset(true, i) < 256 * m - 1
    ensures Offset(true, i) % 256 != 1
  {
  }

  function RankOf(aligned: bool, offset: nat): int {
    if !aligned then offset - 1
    else 255 * (offset / 256) + (if offset % 256 == 0 then -1 else offset % 256 - 2)
  }

  lemma RankInverts(aligned: bool, offset: nat)
    requires offset >= 1 && (aligned ==> offset % 256 != 1)
    ensures RankOf(aligned, offset) >= 0
    ensures Offset(aligned, RankOf(aligned, offset)) == offset
  {
  }

  lemma LargeBlockRank(m: nat, offset: nat)
    requires 1 <= offset < 256 * m - 1 && offset % 256 != 1
    ensures RankOf(true, offset) < 255 * m - 2
  {
  }

  lemma SmallBlockRank(aligned: bool, offset: nat)
    requires 1 <= offset < 256 && (aligned ==> offset != 1)
    ensures RankOf(aligned, offset) == if aligned then offset - 2 else offset - 1
  {
  }

  lemma UsableOffset(n: Network4, a: nat)
    requires Usable(n, a)
    ensures a - n.base >= 1
    ensures Aligned(n) ==> (a - n.base) % 256 != 1
  {
    if Aligned(n) {
      SameLastOctet(n.base, a - n.base);
    }
  }

  lemma SameLastOctet(base: nat, offset: int)
    requires base % 256 == 0
    ensures (base + offset) % 256 == offset % 256
  {
    var q := base / 256;
    assert base == 256 * q;
  }

  lemma RankBelowCapacity(n: Network4, a: nat)
    requires Usable(n, a)
    ensures RankOf(Aligned(n), a - n.base) < Capacity(n)
  {
    UsableOffset(n, a);
    if n.length <= 24 {
      LargeBlock(n);
      LargeBlockRank(Pow2(24 - n.length), a - n.base);
    } else {
      SmallBlock(n);
      SmallBlockRank(Aligned(n), a - n.base);
    }
  }

  lemma UsableHasRank(n: Network4, a: nat) returns (i: nat)
    requires Usable(n, a)
    ensures i < Capacity(n) && Nth(n, i) == a
  {
    UsableOffset(n, a);
    RankBelowCapacity(n, a);
    RankInverts(Aligned(n), a - n.base);
    i := RankOf(Aligned(n), a - n.base);
  }

  /** The first address behind the network address is kept back exactly where the block starts on a
      multiple of 256; there every further address that ends in ".1" is kept back as well. */
  lemma ControllerReservedIff(n: Network4, q: nat)
    requires n.length <= 31
    ensures Usable(n, n.base + 1) <==> !Aligned(n)
    ensures Aligned(n) ==> !Usable(n, n.base + (256 * q + 1))
  {
    hide FirstHost, HostsEnd, EndsInDotOne;
    NextIsHost(n);
    LastOctetOfNext(n.base);
    if Aligned(n) {
      EveryDotOne(n.base, q);
    }
  }

  lemma NextIsHost(n: Network4)
    requires n.length <= 31
    ensures FirstHost(n) <= n.base + 1 < HostsEnd(n)
  {
    hide Size;
    AtLeastTwo(n);
  }

  lemma EveryDotOne(base: nat, q: nat)
    requires base % 256 == 0
    ensures EndsInDotOne(base + (256 * q + 1))
  {
    SameLastOctet(base, 256 * q + 1);
  }

  lemma AtLeastTwo(n: Network4)
    requires n.length <= 31
    ensures Size(n, IPv4) >= 2 && (n.length <= 30 ==> Size(n, IPv4) >= 4)
  {
    SmallPow2();
    Pow2Monotone(1, 32 - n.length);
    if n.length <= 30 {
      Pow2Monotone(2, 32 - n.length);
    }
  }

  /** 10.0.0.128/25 does not start on a multiple of 256, and hands out its first address. */
  lemma UnreservedExample() returns (n: Network4)
    ensures n == Network(0x0a00_0080, 25) && Usable(n, 0x0a00_0081)
  {
    SmallPow2();
    MultipleHasClearBits(0x14_0001, 7);
    n := Network(0x0a00_0080, 25);
    ControllerReservedIff(n, 0);
  }

  lemma LastOctetOfNext(base: nat)
    ensures EndsInDotOne(base + 1) <==> base % 256 == 0
  {
  }

  // ----- Repeated allocation and exact exhaustion

  ghost function UsableSet(n: Network4): set<nat> {
    set a: nat | n.base <= a < n.base + Size(n, IPv4) && Usable(n, a)
  }

  /** The `k` lowest usable addresses: what a renumbering has handed out after `k` nodes. */
  ghost function FirstNths(n: Network4, k: nat): set<nat> {
    if k == 0 then {} else FirstNths(n, k - 1) + {Nth(n, k - 1)}
  }

  lemma {:induction false} NthInFirst(n: Network4, k: nat, i: nat)
    requires i < k
    ensures Nth(n, i) in FirstNths(n, k)
  {
    if i < k - 1 {
      NthInFirst(n, k - 1, i);
    }
  }

  lemma {:induction false} FirstHasRank(n: Network4, k: nat, a: nat) returns (i: nat)
    requires a in FirstNths(n, k)
    ensures i < k && a == Nth(n, i)
  {
    if a == Nth(n, k - 1) {
      i := k - 1;
    } else {
      i := FirstHasRank(n, k - 1, a);
    }
  }

  lemma NthNotInFirst(n: Network4, k: nat)
    ensures Nth(n, k) !in FirstNths(n, k)
  {
    if Nth(n, k) in FirstNths(n, k) {
      var i := FirstHasRank(n, k, Nth(n, k));
      OffsetIncreases(Aligned(n), i, k);
    }
  }

  lemma {:induction false} FirstNthsSize(n: Network4, k: nat)
    ensures |FirstNths(n, k)| == k
  {
    if k > 0 {
      FirstNthsSize(n, k - 1);
      NthNotInFirst(n, k - 1);
    }
  }

  lemma UsableAreTheNths(n: Network4)
    ensures FirstNths(n, Capacity(n)) == UsableSet(n)
  {
    forall a | a in UsableSet(n) ensures a in FirstNths(n, Capacity(n)) {
      var i := UsableHasRank(n, a);
      NthInFirst(n, Capacity(n), i);
    }
    forall a | a in FirstNths(n, Capacity(n)) ensures a in UsableSet(n) {
      var i := FirstHasRank(n, Capacity(n), a);
      NthIsUsable(n, i);
    }
  }

  /** `Capacity` is the exact number of addresses the pool can hand out. */
  lemma CapacityCountsUsable(n: Network4)
    ensures |UsableSet(n)| == Capacity(n)
  {
    UsableAreTheNths(n);
    FirstNthsSize(n, Capacity(n));
  }

  /** Allocation is exhausted exactly when every usable address is taken. */
  lemma ExhaustedIff(n4: Network4, n6: Network6, taken: set<nat>)
    ensures Allocation(n4, n6, taken) == Err(Exhausted) <==> UsableSet(n4) <= taken
  {
    if Allocation(n4, n6, taken) == Err(Exhausted) {
      forall a | a in UsableSet(n4) ensures a in taken {
        assert !Free(n4, taken, a);
      }
    } else {
      var a := FirstFree(n4, taken).value;
      assert a in UsableSet(n4) && a !in taken;
    }
  }

  lemma {:induction false} SubsetSize<T>(a: set<T>, b: set<T>)
    requires a <= b
    ensures |a| <= |b|
    ensures |a| == |b| ==> a == b
  {
    if x :| x in a {
      SubsetSize(a - {x}, b - {x});
    }
  }

  /** When only usable addresses are taken, counting them decides exhaustion. */
  lemma ExhaustedIffFull(n4: Network4, n6: Network6, taken: set<nat>)
    requires forall a :: a in taken ==> Usable(n4, a)
    ensures |taken| <= Capacity(n4)
    ensures Allocation(n4, n6, taken) == Err(Exhausted) <==> |taken| == Capacity(n4)
  {
    assert taken <= UsableSet(n4);
    SubsetSize(taken, UsableSet(n4));
    CapacityCountsUsable(n4);
    assert UsableSet(n4) <= taken ==> UsableSet(n4) == taken;
    ExhaustedIff(n4, n6, taken);
  }

  /** After the `k` lowest addresses the scan returns the next one of the closed form. */
  lemma NthAllocation(n4: Network4, n6: Network6, k: nat)
    ensures Allocation(n4, n6, FirstNths(n4, k)) ==
            if k >= Capacity(n4) then Err(Exhausted)
            else if n6.base + Offset(Aligned(n4), k) >= Space(IPv6) then Err(AddressOverflow)
            else Ok(Addresses(Nth(n4, k), n6.base + Offset(Aligned(n4), k)))
  {
    if k < Capacity(n4) {
      NthIsFirstFree(n4, k);
    } else {
      forall a | Usable(n4, a) ensures a in FirstNths(n4, k) {
        var i := UsableHasRank(n4, a);
        NthInFirst(n4, k, i);
      }
    }
  }

  lemma NthIsBelowFree(n: Network4, k: nat, a: nat)
    requires Free(n, FirstNths(n, k), a)
    ensures Nth(n, k) <= a
  {
    var i := UsableHasRank(n, a);
    if i < k {
      NthInFirst(n, k, i);
    } else if i > k {
      OffsetIncreases(Aligned(n), k, i);
    }
  }

  lemma NthIsFirstFree(n: Network4, k: nat)
    requires k < Capacity(n)
    ensures FirstFree(n, FirstNths(n, k)) == Some(Nth(n, k))
  {
    NthIsUsable(n, k);
    NthNotInFirst(n, k);
    assert Free(n, FirstNths(n, k), Nth(n, k));
    NthIsBelowFree(n, k, FirstFree(n, FirstNths(n, k)).value);
  }

  /** An IPv4 block no larger than the IPv6 block keeps the derived address inside it. */
  lemma DerivedInsidePrefix(n4: Network4, n6: Network6, a: Addresses)
    requires Usable(n4, a.v4) && Coupled(n4, n6, a)
    requires 32 - n4.length <= 128 - n6.length
    ensures Contains(n6, IPv6, a.v6)
  {
    Pow2Monotone(32 - n4.length, 128 - n6.length);
  }
}
