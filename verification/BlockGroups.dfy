/**
 The block allocator of an ext2 file system: `fs::alloc_block` (kernel/fs/ext2/ext2.cpp) over
 the group descriptors and bitmaps (kernel/fs/ext2/block.cpp).
 */
module BlockGroups {
  import opened Wrappers
  import opened Arithmetic

  /** A block group: the set bits of its block bitmap and `unallocated_blocks`. */
  datatype Group = Group(bits: set<nat>, unallocated: nat)

  /** All groups; `alloc_block` looks at the first `scanned` bits of a bitmap only. */
  datatype Groups = Groups(list: seq<Group>, scanned: nat, perGroup: nat, inodesPerGroup: nat) {
    predicate Valid() {
      0 < scanned <= perGroup && inodesPerGroup > 0
    }
  }

  /** The bit of block `b` is set. */
  predicate Allocated(gs: Groups, b: nat)
    requires gs.Valid()
  {
    b / gs.perGroup < |gs.list| && b % gs.perGroup in gs.list[b / gs.perGroup].bits
  }

  /** The first clear bit that `bgd::alloc_block` looks at. */
  function ClearBit(bits: set<nat>, limit: nat, i: nat): (r: nat)
    requires i <= limit
    ensures i <= r <= limit
    ensures r < limit ==> r !in bits
    ensures forall j :: i <= j < r ==> j in bits
    decreases limit - i
  {
    if i == limit || i !in bits then i else ClearBit(bits, limit, i + 1)
  }

  function FirstBit(gs: Groups, d: nat): (r: nat)
    requires d < |gs.list|
    ensures r <= gs.scanned && (r < gs.scanned ==> r !in gs.list[d].bits)
  {
    ClearBit(gs.list[d].bits, gs.scanned, 0)
  }

  /** `bgd::alloc_block` on descriptor `d` has a block to give. */
  predicate Gives(gs: Groups, d: nat) {
    d < |gs.list| && gs.list[d].unallocated > 0 && FirstBit(gs, d) < gs.scanned
  }

  /** The descriptor that group index `i` reads and writes: the source divides by the inodes of a group. */
  function Descriptor(gs: Groups, i: nat): (d: nat)
    requires gs.Valid()
    ensures d <= i
  {
    QuotientAtMost(i, gs.inodesPerGroup);
    i / gs.inodesPerGroup
  }

  /** The group index at which the loop of `fs::alloc_block` stops, or the number of groups. */
  function StopIndex(gs: Groups, i: nat): (r: nat)
    requires gs.Valid() && i <= |gs.list|
    ensures i <= r <= |gs.list|
    ensures r < |gs.list| ==> Gives(gs, Descriptor(gs, r))
    ensures forall j :: i <= j < r ==> !Gives(gs, Descriptor(gs, j))
    decreases |gs.list| - i
  {
    if i == |gs.list| || Gives(gs, Descriptor(gs, i)) then i else StopIndex(gs, i + 1)
  }

  /** Set the first clear bit of group `d`. */
  function TakeBit(gs: Groups, d: nat): Groups
    requires Gives(gs, d)
  {
    gs.(list := gs.list[d := Group(gs.list[d].bits + {FirstBit(gs, d)}, gs.list[d].unallocated - 1)])
  }

  /** `fs::alloc_block`: the number is made from the group index, the bit comes from the descriptor. */
  function Alloc(gs: Groups): (r: (Option<nat>, Groups))
    requires gs.Valid()
    ensures r.1 == gs.(list := r.1.list) && |r.1.list| == |gs.list|
    ensures r.0.None? ==> r.1 == gs
  {
    var i := StopIndex(gs, 0);
    if i == |gs.list| then (None, gs)
    else
      var d := Descriptor(gs, i);
      (Some(i * gs.perGroup + FirstBit(gs, d)), TakeBit(gs, d))
  }

  /** The block whose bit the next allocation sets. */
  function Marked(gs: Groups): Option<nat>
    requires gs.Valid()
  {
    var i := StopIndex(gs, 0);
    if i == |gs.list| then None
    else Some(Descriptor(gs, i) * gs.perGroup + FirstBit(gs, Descriptor(gs, i)))
  }

  // ---------------------------------------------------------------------------------------
  // Which block is handed out

  /** The loop gets as far as descriptor `d`. */
  predicate Reached(gs: Groups, d: nat) {
    d * gs.inodesPerGroup < |gs.list|
  }

  /** Index `d * inodesPerGroup` is the first one that reads descriptor `d`. */
  lemma FirstIndexOf(gs: Groups, d: nat, i: nat)
    requires gs.Valid()
    ensures Descriptor(gs, d * gs.inodesPerGroup) == d
    ensures Descriptor(gs, i) >= d ==> i >= d * gs.inodesPerGroup
  {
    var m := gs.inodesPerGroup;
    QuotientUnique(d * m, m, d, 0);
    assert i == i / m * m + i % m;
    ProductOrder(i / m, d, m);
  }

  /** The loop stops at the first index of the least descriptor it reaches that has a block to give. */
  lemma StopsAtLeast(gs: Groups, e: nat)
    requires gs.Valid()
    ensures var i := StopIndex(gs, 0);
      if i < |gs.list| then i == Descriptor(gs, i) * gs.inodesPerGroup && (e < Descriptor(gs, i) ==> !Gives(gs, e))
      else Reached(gs, e) ==> !Gives(gs, e)
  {
    hide Gives;
    var i, m := StopIndex(gs, 0), gs.inodesPerGroup;
    FirstIndexOf(gs, e, i);
    FirstIndexOf(gs, Descriptor(gs, i), i);
    if i < |gs.list| && e < Descriptor(gs, i) {
      ProductOrder(Descriptor(gs, i), e + 1, m);
      assert (e + 1) * m == e * m + m;
    }
  }

  /** The block handed out is the one whose bit is set. */
  predicate HandsOutMarked(gs: Groups)
    requires gs.Valid()
  {
    Alloc(gs).0 == Marked(gs)
  }

  lemma SameBlock(i: nat, d: nat, m: nat, p: nat)
    requires i == d * m && m > 0 && p > 0
    ensures i * p == d * p <==> d == 0 || m == 1
  {
    if d > 0 && m > 1 {
      ProductOrder(m, 2, d);
      ProductOrder(i, d + 1, p);
      assert (d + 1) * p == d * p + p;
    }
  }

  lemma StopDecides(gs: Groups)
    requires gs.Valid()
    ensures var i := StopIndex(gs, 0);
      HandsOutMarked(gs) <==> i == |gs.list| || Descriptor(gs, i) == 0 || gs.inodesPerGroup == 1
  {
    hide Gives;
    var i := StopIndex(gs, 0);
    if i < |gs.list| {
      StopsAtLeast(gs, 0);
      SameBlock(i, Descriptor(gs, i), gs.inodesPerGroup, gs.perGroup);
    }
  }

  /** That is so if and only if descriptor 0 has a block to give, no reached descriptor has, or a group has one inode. */
  lemma HandsOutMarkedIff(gs: Groups)
    requires gs.Valid()
    ensures HandsOutMarked(gs) <==>
      Gives(gs, 0) || gs.inodesPerGroup == 1 || forall d: nat :: Reached(gs, d) ==> !Gives(gs, d)
  {
    var i := StopIndex(gs, 0);
    StopDecides(gs);
    StopsAtLeast(gs, 0);
    if i < |gs.list| {
      assert Reached(gs, Descriptor(gs, i));
    } else {
      forall d: nat | Reached(gs, d) ensures !Gives(gs, d) {
        StopsAtLeast(gs, d);
      }
    }
  }

  /** No descriptor behind the first that the loop reaches has a block to give, or a group has one inode. */
  ghost predicate Own(gs: Groups) {
    gs.inodesPerGroup == 1 || forall d :: 0 < d && Reached(gs, d) ==> !Gives(gs, d)
  }

  lemma OwnKept(gs: Groups)
    requires gs.Valid() && Own(gs)
    ensures Own(Alloc(gs).1) && HandsOutMarked(gs)
  {
    StopDecides(gs);
    var i := StopIndex(gs, 0);
    if i < |gs.list| && gs.inodesPerGroup > 1 {
      StopsAtLeast(gs, 0);
      assert Reached(gs, Descriptor(gs, i));
      forall d | 0 < d && Reached(Alloc(gs).1, d)
        ensures !Gives(Alloc(gs).1, d)
      {
        assert Reached(gs, d);
      }
    }
  }

  /** The groups after `n` allocations. */
  function AllocTimes(gs: Groups, n: nat): Groups
    requires gs.Valid()
    decreases n
  {
    if n == 0 then gs else AllocTimes(Alloc(gs).1, n - 1)
  }

  lemma {:induction false} AllocTimesValid(gs: Groups, n: nat)
    requires gs.Valid()
    ensures AllocTimes(gs, n).Valid()
    decreases n
  {
    if n > 0 {
      AllocTimesValid(Alloc(gs).1, n - 1);
    }
  }

  /** Allocation number `n` from now hands out the block that it marks. */
  ghost predicate HonestAt(gs: Groups, n: nat)
    requires gs.Valid()
  {
    AllocTimesValid(gs, n);
    HandsOutMarked(AllocTimes(gs, n))
  }

  lemma {:induction false} OwnForever(gs: Groups, n: nat)
    requires gs.Valid() && Own(gs)
    ensures HonestAt(gs, n)
    decreases n
  {
    OwnKept(gs);
    if n > 0 {
      OwnForever(Alloc(gs).1, n - 1);
      assert AllocTimes(gs, n) == AllocTimes(Alloc(gs).1, n - 1);
    }
  }

  /** Once the first group is used up, a later descriptor hands out a block of another group. */
  lemma {:induction false} ForeignEventually(gs: Groups, d: nat) returns (n: nat)
    requires gs.Valid() && gs.inodesPerGroup > 1 && 0 < d && Reached(gs, d) && Gives(gs, d)
    ensures !HonestAt(gs, n)
    decreases gs.list[0].unallocated
  {
    var i := StopIndex(gs, 0);
    StopsAtLeast(gs, d);
    if Descriptor(gs, i) == 0 {
      var next := Alloc(gs).1;
      assert Reached(next, d) && Gives(next, d);
      var k := ForeignEventually(next, d);
      n := k + 1;
      assert AllocTimes(gs, n) == AllocTimes(next, k);
    } else {
      StopDecides(gs);
      n := 0;
    }
  }

  /** In all sequences of allocations every block handed out is the one marked if and only if `Own` holds. */
  lemma OwnForeverIff(gs: Groups)
    requires gs.Valid()
    ensures Own(gs) <==> forall n: nat :: HonestAt(gs, n)
  {
    if Own(gs) {
      forall n: nat ensures HonestAt(gs, n) {
        OwnForever(gs, n);
      }
    } else {
      var d :| 0 < d && Reached(gs, d) && Gives(gs, d);
      var n := ForeignEventually(gs, d);
    }
  }

  /** An allocation fails if and only if no descriptor that the loop reaches has a block to give. */
  lemma AllocFailsIff(gs: Groups)
    requires gs.Valid()
    ensures Alloc(gs).0.None? <==> forall d: nat :: Reached(gs, d) ==> !Gives(gs, d)
  {
    var i := StopIndex(gs, 0);
    if i < |gs.list| {
      StopsAtLeast(gs, 0);
      assert Reached(gs, Descriptor(gs, i));
    } else {
      forall d: nat | Reached(gs, d) ensures !Gives(gs, d) {
        StopsAtLeast(gs, d);
      }
    }
  }

  /** A full group and a free one, for blocks of 1 KiB. */
  const FULL: Group := Group(set i: nat | i < 1024, 0)
  const FREE: Group := Group({}, 8192)

  /** Three groups, two inodes each: the free blocks are in group 1, and a taken block of group 2 is handed out. */
  lemma ForeignBlockExample()
    ensures var gs := Groups([FULL, FREE, FULL], 1024, 8192, 2);
      gs.Valid() && Alloc(gs).0 == Some(16384) && Allocated(gs, 16384) && Marked(gs) == Some(8192)
  {
    var gs := Groups([FULL, FREE, FULL], 1024, 8192, 2);
    assert !Gives(gs, Descriptor(gs, 0)) && !Gives(gs, Descriptor(gs, 1)) && Gives(gs, Descriptor(gs, 2));
    assert StopIndex(gs, 0) == 2;
  }

  /** Two groups, two inodes each: group 1 is free, and the allocation fails. */
  lemma UnreachedGroupExample()
    ensures var gs := Groups([FULL, FREE], 1024, 8192, 2);
      gs.Valid() && Alloc(gs).0 == None && Gives(gs, 1)
  {
    var gs := Groups([FULL, FREE], 1024, 8192, 2);
    assert !Gives(gs, Descriptor(gs, 0)) && !Gives(gs, Descriptor(gs, 1));
  }

  // ---------------------------------------------------------------------------------------
  // Freshness

  lemma BlockNumber(perGroup: nat, g: nat, i: nat, c: nat)
    requires i < perGroup
    ensures c / perGroup == g && c % perGroup == i <==> c == g * perGroup + i
  {
    if c == g * perGroup + i {
      QuotientUnique(c, perGroup, g, i);
    }
  }

  lemma SetGroupBit(list: seq<Group>, g: nat, i: nat, unallocated: nat, q: nat, x: nat)
    requires g < |list|
    ensures var after := list[g := Group(list[g].bits + {i}, unallocated)];
      q < |after| && x in after[q].bits <==> (q < |list| && x in list[q].bits) || (q == g && x == i)
  {
  }

  /** Taking the first bit of group `d` allocates that block and no other. */
  lemma TakeBitAllocates(gs: Groups, d: nat, c: nat)
    requires gs.Valid() && Gives(gs, d)
    ensures var b := d * gs.perGroup + FirstBit(gs, d);
      !Allocated(gs, b) && (Allocated(TakeBit(gs, d), c) <==> Allocated(gs, c) || c == b)
  {
    var p, i := gs.perGroup, FirstBit(gs, d);
    var b := d * p + i;
    assert b / p == d && b % p == i by { BlockNumber(p, d, i, b); }
    assert c / p == d && c % p == i <==> c == b by { BlockNumber(p, d, i, c); }
    SetGroupBit(gs.list, d, i, gs.list[d].unallocated - 1, c / p, c % p);
  }

  /**
   While the block handed out is the one marked: it was free, is allocated from then on, and
   the state of no other block `c` changes.
   */
  lemma AllocFresh(gs: Groups, c: nat)
    requires gs.Valid() && HandsOutMarked(gs)
    ensures var (b, r) := Alloc(gs);
      (b.Some? ==> !Allocated(gs, b.value)) && (Allocated(r, c) <==> Allocated(gs, c) || b == Some(c))
  {
    hide Allocated;
    var i := StopIndex(gs, 0);
    if i < |gs.list| {
      TakeBitAllocates(gs, Descriptor(gs, i), c);
    }
  }

  /**
   A successful allocation takes the first clear bit of one descriptor, lowers that descriptor's
   counter by one, and changes no other descriptor.
   */
  lemma AllocCounts(gs: Groups) returns (d: nat)
    requires gs.Valid() && Alloc(gs).0.Some?
    ensures d < |gs.list| == |Alloc(gs).1.list|
    ensures var before, after := gs.list[d], Alloc(gs).1.list[d];
      && before.unallocated > 0 && after.unallocated == before.unallocated - 1
      && exists bit: nat :: bit < gs.scanned && bit !in before.bits && after.bits == before.bits + {bit} &&
           forall j :: 0 <= j < bit ==> j in before.bits
    ensures forall e :: 0 <= e < |gs.list| && e != d ==> Alloc(gs).1.list[e] == gs.list[e]
  {
    var i := StopIndex(gs, 0);
    d := Descriptor(gs, i);
    var bit := FirstBit(gs, d);
    assert bit !in gs.list[d].bits && Alloc(gs).1.list[d].bits == gs.list[d].bits + {bit};
  }

  // ---------------------------------------------------------------------------------------
  // Using up the first group

  /** The clear bits from `i` on, in ascending order. */
  function ClearBits(bits: set<nat>, limit: nat, i: nat): seq<nat>
    requires i <= limit
    decreases limit - i
  {
    if i == limit then [] else if i in bits then ClearBits(bits, limit, i + 1) else [i] + ClearBits(bits, limit, i + 1)
  }

  /** What the next `n` calls of `alloc_block` return. */
  function Handed(gs: Groups, n: nat): seq<Option<nat>>
    requires gs.Valid()
    decreases n
  {
    if n == 0 then [] else [Alloc(gs).0] + Handed(Alloc(gs).1, n - 1)
  }

  lemma {:induction false} FirstOfClear(bits: set<nat>, limit: nat, i: nat)
    requires i <= limit
    ensures var f := ClearBit(bits, limit, i);
      ClearBits(bits, limit, i) == if f == limit then [] else [f] + ClearBits(bits, limit, f + 1)
    decreases limit - i
  {
    if i < limit && i in bits {
      FirstOfClear(bits, limit, i + 1);
    }
  }

  /** Setting bit `f` makes no difference behind it, and skips it in front. */
  lemma {:induction false} ClearWithout(bits: set<nat>, f: nat, limit: nat, i: nat)
    requires i <= limit && f < limit && forall j :: 0 <= j < f ==> j in bits
    ensures ClearBits(bits + {f}, limit, i) == ClearBits(bits, limit, if i <= f then f + 1 else i)
    decreases limit - i
  {
    if i < limit {
      ClearWithout(bits, f, limit, i + 1);
    }
  }

  /**
   While the counter of the first group covers its clear bits, calls succeed until these are used
   up, and hand out exactly the blocks with these numbers, in ascending order.
   */
  lemma {:induction false} FirstGroupUsedUp(gs: Groups)
    requires gs.Valid() && |gs.list| > 0
    requires gs.list[0].unallocated >= |ClearBits(gs.list[0].bits, gs.scanned, 0)|
    ensures var clear := ClearBits(gs.list[0].bits, gs.scanned, 0);
      Handed(gs, |clear|) == seq(|clear|, i requires 0 <= i < |clear| => Some(clear[i]))
    decreases |ClearBits(gs.list[0].bits, gs.scanned, 0)|
  {
    var bits, limit := gs.list[0].bits, gs.scanned;
    var clear, f := ClearBits(bits, limit, 0), ClearBit(bits, limit, 0);
    FirstOfClear(bits, limit, 0);
    if f < limit {
      FirstGroupStep(gs);
      ClearWithout(bits, f, limit, 0);
      var (b, next) := Alloc(gs);
      assert ClearBits(next.list[0].bits, limit, 0) == clear[1..];
      hide ClearBits, Alloc;
      FirstGroupUsedUp(next);
      assert Handed(gs, |clear|) == [b] + Handed(next, |clear| - 1);
    }
  }

  /** With a clear bit and a positive counter the first group serves the call. */
  lemma FirstGroupStep(gs: Groups)
    requires gs.Valid() && |gs.list| > 0 && gs.list[0].unallocated > 0 && FirstBit(gs, 0) < gs.scanned
    ensures var (b, next), f := Alloc(gs), FirstBit(gs, 0);
      && b == Some(f) && next.Valid() && |next.list| == |gs.list| && next.scanned == gs.scanned
      && next.list[0] == Group(gs.list[0].bits + {f}, gs.list[0].unallocated - 1)
  {
    FirstIndexOf(gs, 0, 0);
    assert Gives(gs, Descriptor(gs, 0));
    assert StopIndex(gs, 0) == 0;
  }

  lemma AllocatedBound(gs: Groups, b: nat)
    requires gs.Valid() && Allocated(gs, b)
    ensures b < |gs.list| * gs.perGroup
  {
    var q, p := b / gs.perGroup, gs.perGroup;
    assert b == q * p + b % p;
    ProductOrder(|gs.list|, q + 1, p);
    assert (q + 1) * p == q * p + p;
  }
}
