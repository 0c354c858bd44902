/** Address blocks: the `IPv4Network` and `IPv6Network` values the allocator works on,
    with addresses as integers. */
module Networks {

  function Pow2(k: nat): (r: nat)
    ensures r >= 1
  {
    if k == 0 then 1 else 2 * Pow2(k - 1)
  }

  lemma {:induction false} Pow2Monotone(j: nat, k: nat)
    requires j <= k
    ensures Pow2(j) <= Pow2(k)
  {
    if j < k {
      Pow2Monotone(j, k - 1);
    }
  }

  lemma SmallPow2()
    ensures Pow2(0) == 1 && Pow2(1) == 2 && Pow2(2) == 4 && Pow2(3) == 8 && Pow2(4) == 16
    ensures Pow2(5) == 32 && Pow2(6) == 64 && Pow2(7) == 128 && Pow2(8) == 256
  {
    assert Pow2(2) == 4;
    assert Pow2(4) == 16;
    assert Pow2(6) == 64;
  }

  /** `x & ~(2^k - 1)`: the binary digits of `x` with the `k` lowest ones cleared. */
  function ClearLowBits(x: nat, k: nat): (r: nat)
    ensures LowBitsClear(r, k)
    ensures r <= x < r + Pow2(k)
  {
    if k == 0 then x else 2 * ClearLowBits(x / 2, k - 1)
  }

  predicate LowBitsClear(x: nat, k: nat) {
    k == 0 || (x % 2 == 0 && LowBitsClear(x / 2, k - 1))
  }

  // Two numbers whose low bits are clear differ by a whole number of steps.
  lemma {:induction false} ClearNumbersAreSpaced(x: nat, y: nat, k: nat)
    requires LowBitsClear(x, k) && LowBitsClear(y, k) && x < y
    ensures x + Pow2(k) <= y
  {
    if k > 0 {
      ClearNumbersAreSpaced(x / 2, y / 2, k - 1);
    }
  }

  lemma Halves(x: nat)
    ensures 2 * x / 2 == x && 2 * x % 2 == 0
  {
  }

  lemma {:induction false} Pow2HasClearBits(width: nat, k: nat)
    requires k <= width
    ensures LowBitsClear(Pow2(width), k)
  {
    if k > 0 {
      Pow2HasClearBits(width - 1, k - 1);
      Halves(Pow2(width - 1));
    }
  }

  lemma {:induction false} FewerClearBits(x: nat, k: nat, j: nat)
    requires LowBitsClear(x, k) && j <= k
    ensures LowBitsClear(x, j)
  {
    if j > 0 {
      FewerClearBits(x / 2, k - 1, j - 1);
    }
  }

  lemma {:induction false} DifferenceHasClearBits(x: nat, y: nat, k: nat)
    requires LowBitsClear(x + y, k) && LowBitsClear(x, k)
    ensures LowBitsClear(y, k)
  {
    if k > 0 {
      assert (x + y) / 2 == x / 2 + y / 2;
      DifferenceHasClearBits(x / 2, y / 2, k - 1);
    }
  }

  lemma TwoClearBits(x: nat, k: nat)
    requires k >= 2
    ensures LowBitsClear(x, k) <==> x % 4 == 0 && LowBitsClear(x / 4, k - 2)
  {
    assert LowBitsClear(x, k) <==> x % 2 == 0 && LowBitsClear(x / 2, k - 1);
    assert LowBitsClear(x / 2, k - 1) <==> (x / 2) % 2 == 0 && LowBitsClear(x / 2 / 2, k - 2);
    assert x / 2 / 2 == x / 4;
  }

  lemma FourClearBits(x: nat, k: nat)
    requires k >= 4
    ensures LowBitsClear(x, k) <==> x % 16 == 0 && LowBitsClear(x / 16, k - 4)
  {
    TwoClearBits(x, k);
    TwoClearBits(x / 4, k - 2);
    assert x / 4 / 4 == x / 16;
  }

  lemma SixteenTwice(x: nat)
    ensures x % 256 == 0 <==> x % 16 == 0 && x / 16 % 16 == 0
  {
    var low, mid, high := x % 16, x / 16 % 16, x / 16 / 16;
    assert x == 256 * high + (16 * mid + low);
    LowByte(high, 16 * mid + low);
  }

  lemma LowByte(high: nat, low: nat)
    requires low < 256
    ensures (256 * high + low) % 256 == low
  {
  }

  lemma EightClearBits(x: nat)
    ensures LowBitsClear(x, 8) <==> x % 256 == 0
  {
    FourClearBits(x, 8);
    FourClearBits(x / 16, 4);
    SixteenTwice(x);
  }

  lemma Pow2PlusFour(k: nat)
    ensures Pow2(k + 4) == 16 * Pow2(k)
  {
    assert Pow2(k + 4) == 4 * Pow2(k + 2);
  }

  /** A block of `2^(width - length)` addresses that starts at `base`. */
  datatype Network = Network(base: nat, length: nat)

  datatype Family = IPv4 | IPv6

  function Width(f: Family): nat {
    if f == IPv4 then 32 else 128
  }

  /** How many addresses the family has. */
  function Space(f: Family): (r: nat)
    ensures r >= 1
  {
    if f == IPv4 then 0x1_0000_0000 else 0x1_0000_0000_0000_0000_0000_0000_0000_0000
  }

  function Size(n: Network, f: Family): (r: nat)
    requires n.length <= Width(f)
    ensures r >= 1
  {
    Pow2(Width(f) - n.length)
  }

  predicate IsNetwork(n: Network, f: Family) {
    && n.length <= Width(f)
    && LowBitsClear(n.base, Width(f) - n.length)
    && n.base + Size(n, f) <= Space(f)
  }

  type Network4 = n: Network | IsNetwork(n, IPv4) witness Network(0, 32)

  type Network6 = n: Network | IsNetwork(n, IPv6) witness Network(0, 128)

  /** Dotted notation ends in ".1". */
  predicate EndsInDotOne(address: nat) {
    address % 256 == 1
  }

  predicate Contains(n: Network, f: Family, address: nat)
    requires n.length <= Width(f)
  {
    n.base <= address < n.base + Size(n, f)
  }

  lemma {:induction false} Pow2Adds(j: nat, k: nat)
    ensures Pow2(j + k) == Pow2(j) * Pow2(k)
  {
    if j > 0 {
      Pow2Adds(j - 1, k);
      assert 2 * (Pow2(j - 1) * Pow2(k)) == 2 * Pow2(j - 1) * Pow2(k);
    }
  }

  lemma {:induction false} MultipleHasClearBits(q: nat, k: nat)
    ensures LowBitsClear(q * Pow2(k), k)
  {
    if k > 0 {
      assert q * Pow2(k) == 2 * (q * Pow2(k - 1));
      MultipleHasClearBits(q, k - 1);
    }
  }

  /** The `q`-th block of its size: a written prefix is `q` followed by zero host bits. */
  function Block(q: nat, length: nat, f: Family): (n: Network)
    requires length <= Width(f) && q < Pow2(length)
    ensures IsNetwork(n, f)
  {
    BlockIsNetwork(q, length, f);
    Network(q * Pow2(Width(f) - length), length)
  }

  lemma BlockIsNetwork(q: nat, length: nat, f: Family)
    requires length <= Width(f) && q < Pow2(length)
    ensures IsNetwork(Network(q * Pow2(Width(f) - length), length), f)
  {
    var size := Pow2(Width(f) - length);
    MultipleHasClearBits(q, Width(f) - length);
    assert q * size + size <= Space(f) by {
      SpaceIsPow2(f);
      Pow2Adds(length, Width(f) - length);
      BlockFits(q, size, Pow2(length));
    }
  }

  lemma BlockFits(q: nat, size: nat, blocks: nat)
    requires q < blocks
    ensures q * size + size <= blocks * size
  {
    var rest := blocks - q - 1;
    assert blocks * size == q * size + size + rest * size;
  }

  lemma LargePow2()
    ensures Pow2(16) == 0x1_0000 && Pow2(32) == 0x1_0000_0000 && Pow2(48) == 0x1_0000_0000_0000
  {
    SmallPow2();
    Pow2Adds(8, 8);
    Pow2Adds(16, 16);
    Pow2Adds(16, 32);
  }

  lemma SpaceIsPow2(f: Family)
    ensures Space(f) == Pow2(Width(f))
  {
    hide Pow2;
    LargePow2();
    Pow2Adds(32, 32);
    assert Pow2(64) == 0x1_0000_0000_0000_0000;
    Pow2Adds(64, 64);
  }

  /** `ip_network(text, strict=False)`: the host bits of the written address are dropped. */
  function Masked(address: nat, length: nat, f: Family): (n: Network)
    requires length <= Width(f) && address < Space(f)
    ensures IsNetwork(n, f) && n.length == length
    ensures Contains(n, f, address)
  {
    var base := ClearLowBits(address, Width(f) - length);
    SpaceIsPow2(f);
    Pow2HasClearBits(Width(f), Width(f) - length);
    ClearNumbersAreSpaced(base, Pow2(Width(f)), Width(f) - length);
    Network(base, length)
  }
}
