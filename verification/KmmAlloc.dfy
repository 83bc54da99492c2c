/** How `kmm::alloc` picks the cache for a request (kernel/mm/slab.cpp, with the caches of kernel/main.cpp). */
module KmmAlloc {
  import opened Pow2

  /** The object sizes of the caches that the kernel creates at boot, in list order. */
  const BOOT: seq<nat> :=
    [32, 64, 128, 256, 512, 1024, 2048, 4096, 8192, 16384, 32768, 65536, 131072, 262144]

  /** The object size that `kmm::alloc` looks for. */
  function Wanted(size: nat): nat
    requires size < 0x1_0000_0000_0000_0000
  {
    if Roundup(size) <= 16 then 32 else Roundup(size)
  }

  /** The cache loop of `kmm::alloc`: the index of the cache that serves the request, -1 for NULL. */
  method Select(classes: seq<nat>, size: nat) returns (i: int)
    requires classes != [] && size < 0x1_0000_0000_0000_0000
    ensures -1 <= i < |classes|
    ensures i >= 0 ==> size > 0 && classes[i] == Wanted(size) && Wanted(size) !in classes[..i]
    ensures i == -1 <==> size == 0 || Wanted(size) !in classes
  {
    if size == 0 {
      return -1;
    }
    var round := RoundupInPlace(size);
    if round <= 16 {
      round := 32;
    }
    i := 0;
    while i < |classes|
      invariant 0 <= i <= |classes| && round !in classes[..i]
    {
      if classes[i] == round {
        return i;
      }
      i := i + 1;
    }
    return -1;
  }

  /** The boot caches are the powers of two from 2^5 to 2^18. */
  lemma BootPowers(k: nat)
    ensures 5 <= k <= 18 ==> Pow(k) in BOOT
    ensures k > 18 ==> Pow(k) > 262144
    ensures k < 5 ==> Pow(k) <= 16
  {
    assert Pow(5) == 32 && Pow(4) == 16;
    PowAdd(5, 5);
    PowAdd(10, 8);
    if 5 <= k <= 18 {
      BootPower(k);
    } else if k > 18 {
      PowMonotone(19, k);
    } else {
      PowMonotone(k, 4);
    }
  }

  lemma BootPower(k: nat)
    requires 5 <= k <= 18
    ensures Pow(k) in BOOT && BOOT[k - 5] == Pow(k)
  {
    if k == 5 {
      assert Pow(5) == 32;
    } else {
      BootPower(k - 1);
      assert BOOT[k - 5] == 2 * BOOT[k - 6];
    }
  }

  /** Every request from 1 byte to the largest class finds a boot cache that is large enough and not wasteful. */
  lemma SmallRequestsFit(size: nat)
    requires 0 < size <= 262144
    ensures Wanted(size) in BOOT && size <= Wanted(size)
    ensures size > 32 ==> Wanted(size) < 2 * size
  {
    hide Roundup, Pow;
    RoundupExact(size);
    var k: nat :| Roundup(size) == Pow(k);
    BootPowers(k);
    BootPower(18);
    assert size <= Pow(18);
  }

  /** Requests of up to 32 bytes get the 32-byte cache. */
  lemma TinyRequests(size: nat)
    requires 0 < size <= 32
    ensures Wanted(size) == 32
  {
    hide Roundup, Pow;
    RoundupExact(size);
    var k: nat :| Roundup(size) == Pow(k);
    BootPowers(k);
    assert Pow(5) == 32 by { BootPower(5); }
    assert Roundup(size) <= 32;
  }

  /**
   A larger request is refused, except for those above 2^63 whose rounding wraps to 0:
   these get the 32-byte cache.
   */
  lemma LargeRequests(size: nat)
    requires 262144 < size < 0x1_0000_0000_0000_0000
    ensures Wanted(size) in BOOT <==> size > 0x8000_0000_0000_0000 && NoGap(size)
    ensures Wanted(size) in BOOT ==> Wanted(size) == 32
  {
    RoundupIsLeastPower(size);
    assert forall c :: c in BOOT ==> c <= 262144;
  }

  /** So a boot cache serves a request with a large enough object just when the request is at most the largest class. */
  lemma ServedIffSmall(size: nat)
    requires 0 < size < 0x1_0000_0000_0000_0000
    ensures Wanted(size) in BOOT && size <= Wanted(size) <==> size <= 262144
  {
    if size <= 262144 {
      SmallRequestsFit(size);
    } else {
      LargeRequests(size);
    }
  }
}
