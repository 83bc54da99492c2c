/**
 Files that grow: `inode::resize` (kernel/fs/ext2/inode.cpp) adds blocks with `alloc_block` and
 `set_block`, and what was added can be written and read back.
 */
module Ext2Growth {
  import opened Wrappers
  import opened Arithmetic
  import opened BlockGroups
  import opened Ext2
  import opened BlockIo
  import opened Ext2Files

  /** File block `i` has an allocated disk block of its own that is no pointer block. */
  ghost predicate HasBlock(fs: Fs, i: nat)
    requires MapValid(fs) && i < Limit(PerLevel(fs))
  {
    var b := Lookup(fs, i);
    && PlaceOf(PerLevel(fs), i).Fits(PerLevel(fs)) && Reachable(fs, PlaceOf(PerLevel(fs), i))
    && b > 0 && Allocated(fs.groups, b)
    && forall k :: 0 <= k < PerLevel(fs) + 2 ==> Meta(fs, k) != b
  }

  predicate Different(fs: Fs, i: nat, j: nat)
    requires Sizes(fs) && i < Limit(PerLevel(fs)) && j < Limit(PerLevel(fs))
  {
    i != j ==> Lookup(fs, i) != Lookup(fs, j)
  }

  /** The first `limit` file blocks have disk blocks, all different. */
  ghost predicate FileOk(fs: Fs, limit: nat) {
    && MapValid(fs) && limit <= Limit(PerLevel(fs))
    && (forall i :: 0 <= i < limit ==> HasBlock(fs, i))
    && (forall i, j {:trigger Different(fs, i, j)} :: 0 <= i < limit && 0 <= j < limit ==> Different(fs, i, j))
  }

  /** Such a file can be written. */
  lemma OkIsValid(fs: Fs, limit: nat)
    requires FileOk(fs, limit)
    ensures FileValid(fs, FilePlaces(PerLevel(fs), limit))
  {
    hide Slot, Allocated, Own, MetaDistinct, MetaAllocated, FreeIsZero, PlaceOf;
    var ps := FilePlaces(PerLevel(fs), limit);
    forall i, j | 0 <= i < limit && 0 <= j < limit
      ensures Separate(fs, ps, i, j)
    {
      assert HasBlock(fs, i) && HasBlock(fs, j) && Different(fs, i, j);
      UsesMeta(fs, ps[j], At(fs, ps[i]));
    }
  }

  /** Pointer blocks on the way to a reachable place are pointer blocks of the inode. */
  lemma UsesMeta(fs: Fs, p: Place, b: nat)
    requires Sizes(fs) && p.Fits(PerLevel(fs)) && Reachable(fs, p)
    requires forall k :: 0 <= k < PerLevel(fs) + 2 ==> Meta(fs, k) != b
    ensures !Uses(fs, p, b)
  {
    hide Slot;
    assert Meta(fs, 0) == fs.blocks[12] && Meta(fs, 1) == fs.blocks[13];
    if p.Double? {
      assert Meta(fs, p.s + 2) == Indirect(fs, p.s);
    }
  }

  // ---------------------------------------------------------------------------------------
  // One more block

  /** Taking a fresh block changes nothing in the map. */
  lemma TakingKeepsOk(fs: Fs, limit: nat, groups: Groups, b: nat)
    requires FileOk(fs, limit) && Took(fs.groups, groups, b)
    ensures var fs1 := fs.(groups := groups);
      FileOk(fs1, limit) && forall i :: 0 <= i < limit ==> Lookup(fs1, i) == Lookup(fs, i)
    ensures forall k :: 0 <= k < PerLevel(fs) + 2 ==> Meta(fs.(groups := groups), k) == Meta(fs, k)
  {
    hide Put, Byte, Word, Allocated, Own, PlaceOf;
    var fs1 := fs.(groups := groups);
    assert forall c: nat, k: nat :: Slot(fs1, c, k) == Slot(fs, c, k);
    assert forall k :: 0 <= k < PerLevel(fs) + 2 ==> Meta(fs1, k) == Meta(fs, k);
    forall i | 0 <= i < limit
      ensures HasBlock(fs1, i) && Lookup(fs1, i) == Lookup(fs, i)
    {
      assert HasBlock(fs, i);
    }
    forall i, j | 0 <= i < limit && 0 <= j < limit
      ensures Different(fs1, i, j)
    {
      assert Different(fs, i, j);
    }
  }

  /** Setting an index below the limit aside, `set_block` leaves a file block with the disk block it has. */
  lemma SetKeepsBlock(fs: Fs, i: nat, b: nat, j: nat)
    requires MapValid(fs) && i < Limit(PerLevel(fs)) && j < Limit(PerLevel(fs)) && j != i
    requires HasBlock(fs, j) && b < 0x1_0000_0000
    ensures var r := SetBlock(fs, i, b).1; MapValid(r) && HasBlock(r, j) && Lookup(r, j) == Lookup(fs, j)
  {
    hide Slot, Allocated, Own, Meta, MetaDistinct, MetaAllocated, FreeIsZero, PlaceOf, SetPlace;
    PlacesDistinct(PerLevel(fs), i, j);
    PlacesDistinct(PerLevel(fs), j, i);
    SetPlaceSets(fs, PlaceOf(PerLevel(fs), i), b, PlaceOf(PerLevel(fs), j));
  }

  /** The index itself gets the block, if that was allocated, is no pointer block and is not singly indirect. */
  lemma SetGivesBlock(fs: Fs, i: nat, b: nat)
    requires MapValid(fs) && i < Limit(PerLevel(fs)) && !PlaceOf(PerLevel(fs), i).Single? && SetBlock(fs, i, b).0
    requires 0 < b < 0x1_0000_0000 && Allocated(fs.groups, b)
    requires forall k :: 0 <= k < PerLevel(fs) + 2 ==> Meta(fs, k) != b
    ensures var r := SetBlock(fs, i, b).1; MapValid(r) && HasBlock(r, i) && Lookup(r, i) == b
  {
    hide Slot, Allocated, Own, Meta, MetaDistinct, MetaAllocated, FreeIsZero, PlaceOf, SetPlace;
    PlacesDistinct(PerLevel(fs), i, i);
    SetPlaceSets(fs, PlaceOf(PerLevel(fs), i), b, PlaceOf(PerLevel(fs), i));
  }

  /** One turn of the loop of `resize`: `alloc_block`, then `set_block`. */
  function GrowOne(fs: Fs, i: nat): (r: (bool, Fs))
    requires Sizes(fs) && i < Limit(PerLevel(fs)) && Alloc(fs.groups).0.Some?
    ensures Sizes(r.1) && r.1.blockSize == fs.blockSize
  {
    SetBlock(fs.(groups := Alloc(fs.groups).1), i, Alloc(fs.groups).0.value % 0x1_0000_0000)
  }

  lemma GrowOneKeepsOk(fs: Fs, limit: nat)
    requires FileOk(fs, limit) && limit < Limit(PerLevel(fs)) && Alloc(fs.groups).0.Some?
    requires !PlaceOf(PerLevel(fs), limit).Single?
    ensures var (ok, r) := GrowOne(fs, limit);
      && (ok ==> FileOk(r, limit + 1) && Lookup(r, limit) == Alloc(fs.groups).0.value)
      && forall j :: 0 <= j < limit ==> Lookup(r, j) == Lookup(fs, j)
  {
    hide Slot, Own, Meta, MetaDistinct, MetaAllocated, FreeIsZero, PlaceOf, SetBlock, Lookup, Allocated;
    var (b, groups) := Alloc(fs.groups);
    AllocTakes(fs.groups);
    TakingKeepsOk(fs, limit, groups, b.value);
    FreshIsNoMeta(fs, b.value);
    var fs1 := fs.(groups := groups);
    var (ok, r) := GrowOne(fs, limit);
    forall j | 0 <= j < limit
      ensures MapValid(r) && HasBlock(r, j) && Lookup(r, j) == Lookup(fs, j) != b.value
    {
      assert HasBlock(fs, j) && HasBlock(fs1, j);
      SetKeepsBlock(fs1, limit, b.value, j);
    }
    if ok {
      SetGivesBlock(fs1, limit, b.value);
      forall i, j | 0 <= i < limit + 1 && 0 <= j < limit + 1
        ensures Different(r, i, j)
      {
        assert i < limit && j < limit ==> Different(fs, i, j);
      }
    }
  }

  // ---------------------------------------------------------------------------------------
  // The bytes

  /** Every byte of block `c` is the same in both. */
  ghost predicate SameBytes(fs: Fs, r: Fs, c: nat) {
    forall y: nat {:trigger Address(fs.blockSize, c, y)} :: y < fs.blockSize ==>
      Byte(r.disk, Address(fs.blockSize, c, y)) == Byte(fs.disk, Address(fs.blockSize, c, y))
  }

  /** Storing a pointer in block `b` leaves the bytes of other blocks alone. */
  lemma SetSlotSpares(fs: Fs, b: nat, k: nat, w: nat, c: nat)
    requires Sizes(fs) && k < PerLevel(fs) && c != b
    ensures SameBytes(fs, SetSlot(fs, b, k, w), c)
  {
    hide Put, Byte, Address;
    forall y: nat | y < fs.blockSize
      ensures Byte(SetSlot(fs, b, k, w).disk, Address(fs.blockSize, c, y)) == Byte(fs.disk, Address(fs.blockSize, c, y))
    {
      AddressIs(fs.blockSize, b, k * 4);
      PutInBlock(fs.disk, fs.blockSize, b, k * 4, WordBytes(w), c, y);
    }
  }

  /** `set_block` writes pointer blocks only. */
  lemma SetPlaceSpares(fs: Fs, p: Place, b: nat, c: nat)
    requires MapValid(fs) && p.Fits(PerLevel(fs)) && b < 0x1_0000_0000 && Allocated(fs.groups, c)
    requires forall k :: 0 <= k < PerLevel(fs) + 2 ==> Meta(fs, k) != c
    ensures SameBytes(fs, SetPlace(fs, p, b).1, c)
  {
    hide Slot, Allocated, Own, MetaDistinct, MetaAllocated, FreeIsZero, Byte, Put, Address, SetSlot;
    if p.Double? {
      EnsureRootKeeps(fs, 13, p);
      var (ok, fs1) := EnsureRoot(fs, 13);
      if ok {
        EnsureIndirectKeeps(fs1, p.s, p);
        assert Meta(fs1, 1) == fs1.blocks[13];
        IndirectSpares(fs1, p.s, c);
        var (ok2, fs2) := EnsureIndirect(fs1, p.s);
        PreparedTwice(fs, fs1, fs2);
        if ok2 {
          assert Meta(fs2, p.s + 2) == Indirect(fs2, p.s);
          SetSlotSpares(fs2, Indirect(fs2, p.s), p.o, b, c);
        }
      }
    }
  }

  lemma IndirectSpares(fs: Fs, s: nat, c: nat)
    requires Sizes(fs) && s < PerLevel(fs) && fs.blocks[13] != c
    ensures SameBytes(fs, EnsureIndirect(fs, s).1, c)
  {
    hide Slot, Byte, Put, Address, SetSlot;
    var (b, groups) := Alloc(fs.groups);
    if Indirect(fs, s) == 0 && b.Some? {
      SetSlotSpares(fs.(groups := groups), fs.blocks[13], s, b.value, c);
    }
  }

  /** A free block holds zeros only. */
  lemma FreeBytes(fs: Fs, c: nat, y: nat)
    requires Sizes(fs) && FreeIsZero(fs) && !Allocated(fs.groups, c) && y < fs.blockSize
    ensures Byte(fs.disk, Address(fs.blockSize, c, y)) == 0
  {
    hide Byte, Address, Allocated;
    var k, i := y / 4, y % 4;
    assert Slot(fs, c, k) == 0;
    AddressIs(fs.blockSize, c, y);
    assert SlotAddress(fs.blockSize, c, k) + i == Address(fs.blockSize, c, y);
    WordZero(fs.disk, SlotAddress(fs.blockSize, c, k), i);
  }

  lemma WordZero(d: Disk, a: nat, i: nat)
    requires Word(d, a) == 0 && i < 4
    ensures Byte(d, a + i) == 0
  {
    hide Byte;
    assert i == 0 || i == 1 || i == 2 || i == 3;
  }

  /** After one turn: old file blocks keep their bytes, the new one holds zeros. */
  lemma GrowOneBytes(fs: Fs, limit: nat, j: nat)
    requires FileOk(fs, limit) && limit < Limit(PerLevel(fs)) && Alloc(fs.groups).0.Some? && j <= limit
    ensures var r, c := GrowOne(fs, limit).1, if j < limit then Lookup(fs, j) else Alloc(fs.groups).0.value;
      SameBytes(fs, r, c) && (j == limit ==> forall y: nat {:trigger Address(fs.blockSize, c, y)} ::
        y < fs.blockSize ==> Byte(r.disk, Address(fs.blockSize, c, y)) == 0)
  {
    hide Slot, Own, Meta, MetaDistinct, MetaAllocated, PlaceOf, SetPlace, Allocated, Byte, Address, Lookup;
    var (b, groups) := Alloc(fs.groups);
    AllocTakes(fs.groups);
    TakingKeepsOk(fs, limit, groups, b.value);
    FreshIsNoMeta(fs, b.value);
    var fs1, c := fs.(groups := groups), if j < limit then Lookup(fs, j) else b.value;
    assert j < limit ==> HasBlock(fs, j);
    PlacesDistinct(PerLevel(fs), limit, limit);
    SetPlaceSpares(fs1, PlaceOf(PerLevel(fs), limit), b.value, c);
    var r := GrowOne(fs, limit).1;
    forall y: nat | y < fs.blockSize
      ensures Byte(r.disk, Address(fs.blockSize, c, y)) == Byte(fs.disk, Address(fs.blockSize, c, y))
      ensures j == limit ==> Byte(r.disk, Address(fs.blockSize, c, y)) == 0
    {
      if j == limit {
        FreeBytes(fs, c, y);
      }
    }
  }

  // ---------------------------------------------------------------------------------------
  // The loop of `resize`

  /**
   How far the loop got: `complete` if no `alloc_block` failed, `stored` if every `set_block`
   succeeded, whose result `resize` does not look at.
   */
  datatype Growth = Growth(complete: bool, stored: bool, added: nat, fs: Fs)

  /** Add file blocks `i` to `end`. */
  function Grow(fs: Fs, i: nat, end: nat): (g: Growth)
    requires Sizes(fs) && end <= Limit(PerLevel(fs))
    ensures Sizes(g.fs) && g.fs.blockSize == fs.blockSize
    decreases end - i
  {
    if i >= end then Growth(true, true, 0, fs)
    else if Alloc(fs.groups).0.None? then Growth(false, true, 0, fs)
    else
      var (ok, fs1) := GrowOne(fs, i);
      var rest := Grow(fs1, i + 1, end);
      rest.(stored := ok && rest.stored, added := rest.added + 1)
  }

  /** No index from `i` to `end` is singly indirect. */
  predicate NoSingle(n: nat, i: nat, end: nat) {
    i >= end || end <= 12 || i >= 12 + n
  }

  /** Growth that meets no failure and no singly indirect index gives every new file block a disk block. */
  lemma {:induction false} GrowKeepsOk(fs: Fs, from: nat, end: nat)
    requires FileOk(fs, from) && from <= end <= Limit(PerLevel(fs)) && NoSingle(PerLevel(fs), from, end)
    requires Grow(fs, from, end).complete && Grow(fs, from, end).stored
    ensures FileOk(Grow(fs, from, end).fs, end)
    ensures forall j :: 0 <= j < from ==> Lookup(Grow(fs, from, end).fs, j) == Lookup(fs, j)
    decreases end - from
  {
    hide GroupsValid, MetaDistinct, MetaAllocated, FreeIsZero, Lookup, GrowOne, HasBlock;
    if from < end {
      GrowOneKeepsOk(fs, from);
      GrowKeepsOk(GrowOne(fs, from).1, from + 1, end);
    }
  }

  /** With three allocations for each block the loop completes and stores every block. */
  lemma {:induction false} GrowSucceeds(fs: Fs, i: nat, end: nat)
    requires Sizes(fs) && i <= end <= Limit(PerLevel(fs)) && Plenty(fs.groups, 3 * (end - i))
    ensures Grow(fs, i, end).complete && Grow(fs, i, end).stored && Grow(fs, i, end).added == end - i
    decreases end - i
  {
    hide Plenty, SetPlace, Alloc, PlaceOf, Limit, GrowOne;
    if i < end {
      GrowOneSucceeds(fs, i, 3 * (end - i - 1));
      GrowSucceeds(GrowOne(fs, i).1, i + 1, end);
    }
  }

  lemma GrowOneSucceeds(fs: Fs, i: nat, n: nat)
    requires Sizes(fs) && i < Limit(PerLevel(fs)) && Plenty(fs.groups, n + 3)
    ensures Alloc(fs.groups).0.Some? && GrowOne(fs, i).0 && Plenty(GrowOne(fs, i).1.groups, n)
  {
    hide SetPlace, Alloc, PlaceOf, Limit;
    PlacesDistinct(PerLevel(fs), i, i);
    var (b, groups) := Alloc(fs.groups);
    SucceedsWithBlocks(fs.(groups := groups), PlaceOf(PerLevel(fs), i), b.value % 0x1_0000_0000, n);
  }

  /** The loop stops early only when the allocator has no block left. */
  lemma {:induction false} GrowStopsWithoutBlocks(fs: Fs, i: nat, end: nat)
    requires Sizes(fs) && end <= Limit(PerLevel(fs)) && !Grow(fs, i, end).complete
    ensures Alloc(Grow(fs, i, end).fs.groups).0.None?
    decreases end - i
  {
    hide Alloc, GrowOne, Limit;
    if i < end && Alloc(fs.groups).0.Some? {
      GrowStopsWithoutBlocks(GrowOne(fs, i).1, i + 1, end);
    }
  }

  /** Byte `y` of file block `j`. */
  function ByteOf(fs: Fs, j: nat, y: nat): nat
    requires Sizes(fs) && j < Limit(PerLevel(fs))
  {
    Byte(fs.disk, Address(fs.blockSize, Lookup(fs, j), y))
  }

  /** Growth keeps the contents of the file and adds zeros. */
  lemma {:induction false} GrowAddsZeros(fs: Fs, from: nat, end: nat, j: nat, y: nat)
    requires FileOk(fs, from) && from <= end <= Limit(PerLevel(fs)) && NoSingle(PerLevel(fs), from, end)
    requires Grow(fs, from, end).complete && Grow(fs, from, end).stored && j < end && y < fs.blockSize
    ensures ByteOf(Grow(fs, from, end).fs, j, y) == if j < from then ByteOf(fs, j, y) else 0
    decreases end - from
  {
    hide GroupsValid, MetaDistinct, MetaAllocated, FreeIsZero, Lookup, GrowOne, HasBlock, Byte, Address;
    if from < end {
      GrowOneKeepsOk(fs, from);
      GrowAddsZeros(GrowOne(fs, from).1, from + 1, end, j, y);
      if j <= from {
        GrowOneBytes(fs, from, j);
      }
    }
  }

  /** With the next slot still 0, one more block can be used if and only if its index is not singly indirect. */
  lemma GrowOneOkIff(fs: Fs, limit: nat)
    requires FileOk(fs, limit) && limit < Limit(PerLevel(fs)) && Alloc(fs.groups).0.Some? && GrowOne(fs, limit).0
    requires PlaceOf(PerLevel(fs), limit).Single? ==> SingleBefore(fs, limit) == 0
    ensures FileOk(GrowOne(fs, limit).1, limit + 1) <==> !PlaceOf(PerLevel(fs), limit).Single?
    ensures PlaceOf(PerLevel(fs), limit).Single? ==> Lookup(GrowOne(fs, limit).1, limit) == 0
  {
    hide Slot, Own, Allocated, Meta, GroupsValid, MetaDistinct, MetaAllocated, FreeIsZero, PlaceOf, GrowOne, Lookup;
    if PlaceOf(PerLevel(fs), limit).Single? {
      SingleGrows(fs, limit);
      assert FileOk(GrowOne(fs, limit).1, limit + 1) ==> HasBlock(GrowOne(fs, limit).1, limit);
    } else {
      GrowOneKeepsOk(fs, limit);
    }
  }

  lemma SingleGrows(fs: Fs, i: nat)
    requires FileOk(fs, i) && i < Limit(PerLevel(fs)) && Alloc(fs.groups).0.Some? && GrowOne(fs, i).0
    requires PlaceOf(PerLevel(fs), i).Single?
    ensures Lookup(GrowOne(fs, i).1, i) == SingleBefore(fs, i)
  {
    hide Slot, Own, Allocated, Meta, MetaDistinct, MetaAllocated, FreeIsZero, PlaceOf, SetBlock, Lookup, HasBlock, SingleBefore;
    var (b, groups) := Alloc(fs.groups);
    AllocTakes(fs.groups);
    TakingKeepsOk(fs, i, groups, b.value);
    SingleTaken(fs, groups, i);
    SetBlockSets(fs.(groups := groups), i, b.value, i);
  }

  lemma SingleTaken(fs: Fs, groups: Groups, i: nat)
    requires Sizes(fs) && groups.Valid() && i < Limit(PerLevel(fs)) && PlaceOf(PerLevel(fs), i).Single?
    ensures SingleBefore(fs.(groups := groups), i) == SingleBefore(fs, i)
  {
    hide Word;
  }

  // ---------------------------------------------------------------------------------------
  // Writing keeps the file

  /** `r` differs from `fs` in pointer slots of block `b` at most. */
  ghost predicate OnlyBlock(fs: Fs, r: Fs, b: nat) {
    r == fs.(disk := r.disk) &&
    forall c: nat, k: nat {:trigger Slot(r, c, k)} :: k < PerLevel(fs) && c != b ==> Slot(r, c, k) == Slot(fs, c, k)
  }

  lemma DataWriteKeepsMap(fs: Fs, r: Fs, b: nat)
    requires MapValid(fs) && OnlyBlock(fs, r, b) && Allocated(fs.groups, b)
    requires forall k :: 0 <= k < PerLevel(fs) + 2 ==> Meta(fs, k) != b
    ensures MapValid(r) && forall k :: 0 <= k < PerLevel(fs) + 2 ==> Meta(r, k) == Meta(fs, k)
  {
    hide Slot, Allocated, Own;
    assert Meta(fs, 1) == fs.blocks[13];
    forall k | 0 <= k < PerLevel(fs) + 2
      ensures Meta(r, k) == Meta(fs, k)
    {
    }
  }

  lemma DataWriteKeepsBlock(fs: Fs, r: Fs, b: nat, j: nat)
    requires MapValid(fs) && OnlyBlock(fs, r, b) && MapValid(r) && j < Limit(PerLevel(fs)) && HasBlock(fs, j)
    requires forall k :: 0 <= k < PerLevel(fs) + 2 ==> Meta(r, k) == Meta(fs, k) != b
    ensures HasBlock(r, j) && Lookup(r, j) == Lookup(fs, j)
  {
    hide Slot, Allocated, Own, MetaDistinct, MetaAllocated, FreeIsZero, PlaceOf;
    var p := PlaceOf(PerLevel(fs), j);
    assert Meta(fs, 0) == fs.blocks[12] && Meta(fs, 1) == fs.blocks[13];
    if p.Double? {
      assert Meta(fs, p.s + 2) == Indirect(fs, p.s);
    }
  }

  /** A write inside a data block keeps the file, and the map of the file system. */
  lemma WriteInKeepsOk(fs: Fs, limit: nat, i: nat, offset: nat, bytes: seq<nat>)
    requires FileOk(fs, limit) && i < limit && offset + |bytes| <= fs.blockSize
    ensures FileOk(WriteIn(fs, Lookup(fs, i), offset, bytes), limit)
  {
    hide Slot, Put, Allocated, Own, Meta, MetaDistinct, MetaAllocated, FreeIsZero, PlaceOf, Lookup;
    var b := Lookup(fs, i);
    var r := WriteIn(fs, b, offset, bytes);
    forall c: nat, k: nat | k < PerLevel(fs) && c != b
      ensures Slot(r, c, k) == Slot(fs, c, k)
    {
      WriteInSlot(fs, b, offset, bytes, c, k);
    }
    assert HasBlock(fs, i);
    DataWriteKeepsMap(fs, r, b);
    forall j | 0 <= j < limit
      ensures HasBlock(r, j) && Lookup(r, j) == Lookup(fs, j)
    {
      assert HasBlock(fs, j);
      DataWriteKeepsBlock(fs, r, b, j);
    }
    forall j, k | 0 <= j < limit && 0 <= k < limit
      ensures Different(r, j, k)
    {
      assert Different(fs, j, k);
    }
  }

  /** So does a whole write. */
  lemma {:induction false} WriteKeepsOk(fs: Fs, limit: nat, off: nat, buf: seq<nat>, headway: nat)
    requires FileOk(fs, limit) && headway <= |buf| && off + |buf| <= Address(fs.blockSize, limit, 0)
    ensures FileOk(WriteFrom(fs, FilePlaces(PerLevel(fs), limit), off, buf, headway), limit)
    decreases |buf| - headway
  {
    hide At, Put, Byte, Slot, Address, GroupsValid, MetaDistinct, MetaAllocated, FreeIsZero, HasBlock, PlaceOf, FilePlaces;
    if headway < |buf| {
      StepKeepsOk(fs, limit, off, buf, headway);
      WriteKeepsOk(WriteStep(fs, FilePlaces(PerLevel(fs), limit), off, buf, headway), limit, off, buf,
        headway + ChunkLen(fs.blockSize, off, |buf|, headway));
    }
  }

  lemma StepKeepsOk(fs: Fs, limit: nat, off: nat, buf: seq<nat>, headway: nat)
    requires FileOk(fs, limit) && headway < |buf| && off + |buf| <= Address(fs.blockSize, limit, 0)
    ensures var r := WriteStep(fs, FilePlaces(PerLevel(fs), limit), off, buf, headway);
      FileOk(r, limit) && r.blockSize == fs.blockSize
  {
    hide Put, Byte, Slot, Address, GroupsValid, MetaDistinct, MetaAllocated, FreeIsZero, HasBlock, PlaceOf, At;
    var i, y := BlockOf(fs.blockSize, off + headway, limit), OffsetOf(fs.blockSize, off + headway);
    WriteInKeepsOk(fs, limit, i, y, buf[headway..headway + ChunkLen(fs.blockSize, off, |buf|, headway)]);
  }

  // ---------------------------------------------------------------------------------------
  // Grow, write, read

  /** The number of blocks that positions below `x` need. */
  function Needed(size: nat, x: nat): nat
    requires size > 0
  {
    DivRoundup(x, size)
  }

  lemma NeededIs(size: nat, x: nat, k: nat)
    requires size > 0
    ensures Needed(size, x) <= k <==> x <= Address(size, k, 0)
    ensures Needed(size, Address(size, k, 0)) == k
  {
    AddressIs(size, k, 0);
    RoundupIff(x, size, k);
    QuotientUnique(k * size + (size - 1), size, k, size - 1);
  }

  /** Positions below `x` need at most `limit` blocks, all below the triply indirect range. */
  predicate InView(fs: Fs, limit: nat, x: nat) {
    Sizes(fs) && Needed(fs.blockSize, x) <= limit <= Limit(PerLevel(fs))
  }

  /** The chunk loop of `write` on a file of which `limit` blocks are in view. */
  function Written(fs: Fs, limit: nat, off: nat, buf: seq<nat>): (r: Fs)
    requires InView(fs, limit, off + |buf|)
    ensures r == fs.(disk := r.disk)
  {
    NeededIs(fs.blockSize, off + |buf|, limit);
    WriteFrom(fs, FilePlaces(PerLevel(fs), limit), off, buf, 0)
  }

  /** `read`, likewise. */
  function Reading(fs: Fs, limit: nat, at: nat, cnt: nat): seq<nat>
    requires InView(fs, limit, at + cnt)
  {
    NeededIs(fs.blockSize, at + cnt, limit);
    ReadAll(fs, FilePlaces(PerLevel(fs), limit), at, cnt)
  }

  /** The block index of a position does not depend on how long the file is. */
  lemma BlockOfGrown(size: nat, x: nat, from: nat, end: nat)
    requires size > 0 && from <= end && x < Address(size, end, 0)
    ensures x < Address(size, from, 0) ==> BlockOf(size, x, from) == BlockOf(size, x, end)
    ensures x < Address(size, from, 0) <==> BlockOf(size, x, end) < from
  {
    hide Address;
    Position(size, x, end, 0, 0);
    var i, y := BlockOf(size, x, end), OffsetOf(size, x);
    if x < Address(size, from, 0) {
      Position(size, x, from, i, y);
    } else if i < from {
      AddressesApart(size, i, y, from, 0);
    }
  }

  /** The file at `x`, before the growth: its bytes, and zeros behind its end. */
  function Padded(fs: Fs, from: nat, x: nat): nat
    requires Sizes(fs) && from <= Limit(PerLevel(fs))
  {
    if x < Address(fs.blockSize, from, 0)
    then FileAt(fs.disk, fs.blockSize, Blocks(fs, FilePlaces(PerLevel(fs), from)), x)
    else 0
  }

  lemma GrownFileAt(fs: Fs, from: nat, end: nat, x: nat)
    requires FileOk(fs, from) && from <= end <= Limit(PerLevel(fs)) && NoSingle(PerLevel(fs), from, end)
    requires Grow(fs, from, end).complete && Grow(fs, from, end).stored && x < Address(fs.blockSize, end, 0)
    ensures var g := Grow(fs, from, end).fs;
      FileAt(g.disk, g.blockSize, Blocks(g, FilePlaces(PerLevel(g), end)), x) == Padded(fs, from, x)
  {
    hide Grow, GroupsValid, MetaDistinct, MetaAllocated, FreeIsZero, HasBlock, Byte, Address, Slot, PlaceOf, At;
    var i, y := BlockOf(fs.blockSize, x, end), OffsetOf(fs.blockSize, x);
    GrowAddsZeros(fs, from, end, i, y);
    BlockOfGrown(fs.blockSize, x, from, end);
  }

  /**
   Growing a file over direct or doubly indirect indices, writing, and reading any range back
   gives the written bytes, the old contents elsewhere, and zeros where nothing was before.
   The file is then fit for the next write.
   */
  lemma GrowWriteRead(fs: Fs, from: nat, end: nat, off: nat, buf: seq<nat>, at: nat, cnt: nat, k: nat)
    requires FileOk(fs, from) && from <= end <= Limit(PerLevel(fs)) && NoSingle(PerLevel(fs), from, end)
    requires Grow(fs, from, end).complete && Grow(fs, from, end).stored
    requires InView(fs, end, off + |buf|) && InView(fs, end, at + cnt) && k < cnt
    ensures var r := Written(Grow(fs, from, end).fs, end, off, buf);
      && FileOk(r, end) && |Reading(r, end, at, cnt)| == cnt
      && Reading(r, end, at, cnt)[k] ==
         if off <= at + k < off + |buf| then buf[at + k - off] else Padded(fs, from, at + k)
  {
    hide Grow, GroupsValid, MetaDistinct, MetaAllocated, FreeIsZero, HasBlock, Byte, Address, Slot, PlaceOf, At, WriteFrom,
      ReadAll, Padded, FilePlaces, Needed, Limit;
    GrowKeepsOk(fs, from, end);
    var g := Grow(fs, from, end).fs;
    OkIsValid(g, end);
    NeededIs(fs.blockSize, off + |buf|, end);
    NeededIs(fs.blockSize, at + cnt, end);
    WriteKeepsOk(g, end, off, buf, 0);
    WriteThenRead(g, FilePlaces(PerLevel(g), end), off, buf, at, cnt, k);
    GrownFileAt(fs, from, end, at + k);
  }

  // ---------------------------------------------------------------------------------------
  // `resize` and `write` as calls

  /** `resize(start, cnt)` with `start + cnt == x`: nothing while the file's sectors reach behind `x`, else the loop. */
  function Resized(fs: Fs, sectors: nat, sectorSize: nat, ghost limit: nat, x: nat): (g: Growth)
    requires InView(fs, limit, x)
    ensures Sizes(g.fs) && g.fs.blockSize == fs.blockSize
  {
    if x < sectors * sectorSize then Growth(true, true, 0, fs)
    else Grow(fs, Needed(fs.blockSize, sectors * sectorSize), Needed(fs.blockSize, x))
  }

  function Max(a: nat, b: nat): nat {
    if a < b then b else a
  }

  /** When the sector count says that the file has `from` blocks, `resize` adds what is missing. */
  lemma ResizedIs(fs: Fs, sectors: nat, sectorSize: nat, from: nat, end: nat, x: nat)
    requires InView(fs, end, x) && end == Max(from, Needed(fs.blockSize, x))
    requires sectors * sectorSize == Address(fs.blockSize, from, 0)
    ensures Resized(fs, sectors, sectorSize, end, x) == Grow(fs, from, end)
  {
    NeededIs(fs.blockSize, x, from);
    NeededIs(fs.blockSize, x, end);
    hide Needed, Address, Limit, GrowOne;
  }

  lemma {:induction false} GrowCounts(fs: Fs, i: nat, end: nat)
    requires Sizes(fs) && i <= end <= Limit(PerLevel(fs)) && Grow(fs, i, end).complete
    ensures Grow(fs, i, end).added == end - i
    decreases end - i
  {
    hide GrowOne, Limit;
    if i < end {
      GrowCounts(GrowOne(fs, i).1, i + 1, end);
    }
  }

  /** The sector count follows: `block_size / sector_size` sectors for each block. */
  lemma SectorsFollow(fs: Fs, sectors: nat, sectorSize: nat, from: nat, end: nat, perBlock: nat)
    requires Sizes(fs) && from <= end <= Limit(PerLevel(fs)) && Grow(fs, from, end).complete
    requires sectors * sectorSize == Address(fs.blockSize, from, 0) && fs.blockSize == perBlock * sectorSize
    ensures (sectors + Grow(fs, from, end).added * perBlock) * sectorSize == Address(fs.blockSize, end, 0)
  {
    hide Grow, Limit, Address;
    GrowCounts(fs, from, end);
    AddressIs(fs.blockSize, from, 0);
    AddressIs(fs.blockSize, end, 0);
    var d := end - from;
    assert d * perBlock * sectorSize == d * (perBlock * sectorSize) == d * fs.blockSize;
    assert (sectors + d * perBlock) * sectorSize == sectors * sectorSize + d * perBlock * sectorSize;
    assert from * fs.blockSize + d * fs.blockSize == end * fs.blockSize;
  }

  /**
   A whole `write` call on a file of `from` blocks, whatever it has to add: reading any range
   behind it gives the written bytes over the old contents over zeros, and the file of
   `Max(from, needed)` blocks is fit for the next call.
   */
  lemma WriteCallReads(fs: Fs, sectors: nat, sectorSize: nat, from: nat, end: nat, off: nat, buf: seq<nat>, at: nat, cnt: nat, k: nat)
    requires FileOk(fs, from) && sectors * sectorSize == Address(fs.blockSize, from, 0)
    requires InView(fs, end, off + |buf|) && end == Max(from, Needed(fs.blockSize, off + |buf|))
    requires var g := Resized(fs, sectors, sectorSize, end, off + |buf|); g.complete && g.stored
    requires NoSingle(PerLevel(fs), from, end) && InView(fs, end, at + cnt) && k < cnt
    ensures var r := Written(Resized(fs, sectors, sectorSize, end, off + |buf|).fs, end, off, buf);
      && FileOk(r, end) && |Reading(r, end, at, cnt)| == cnt
      && Reading(r, end, at, cnt)[k] ==
         if off <= at + k < off + |buf| then buf[at + k - off] else Padded(fs, from, at + k)
  {
    hide GroupsValid, MetaDistinct, MetaAllocated, FreeIsZero, HasBlock, Address, Written, Reading, Padded, Grow, Needed,
      Resized, Limit;
    ResizedIs(fs, sectors, sectorSize, from, end, off + |buf|);
    GrowWriteRead(fs, from, end, off, buf, at, cnt, k);
  }

  // ---------------------------------------------------------------------------------------
  // Other files

  /** Block `c` is in use and belongs to no part of the file: it is no pointer block and no data block of it. */
  ghost predicate Spared(fs: Fs, from: nat, c: nat)
    requires Sizes(fs) && from <= Limit(PerLevel(fs))
  {
    && Allocated(fs.groups, c) && (forall k :: 0 <= k < PerLevel(fs) + 2 ==> Meta(fs, k) != c)
    && forall i :: 0 <= i < from ==> Lookup(fs, i) != c
  }

  /** The first `limit` blocks of the inode with the block array `blocks`, and the pointers to them, are no part of the file. */
  ghost predicate OtherFile(fs: Fs, from: nat, blocks: seq<nat>, limit: nat)
    requires Sizes(fs) && from <= Limit(PerLevel(fs))
  {
    && |blocks| == 15 && limit <= Limit(PerLevel(fs))
    && forall j :: 0 <= j < limit ==> OtherBlock(fs, from, blocks, j)
  }

  ghost predicate OtherBlock(fs: Fs, from: nat, blocks: seq<nat>, j: nat)
    requires Sizes(fs) && from <= Limit(PerLevel(fs)) && |blocks| == 15 && j < Limit(PerLevel(fs))
  {
    var other := fs.(blocks := blocks);
    && PlaceOf(PerLevel(fs), j).Fits(PerLevel(fs)) && Spared(fs, from, Lookup(other, j))
    && forall c: nat :: Uses(other, PlaceOf(PerLevel(fs), j), c) ==> Spared(fs, from, c)
  }

  lemma GrowOneSpares(fs: Fs, limit: nat, c: nat)
    requires FileOk(fs, limit) && limit < Limit(PerLevel(fs)) && Alloc(fs.groups).0.Some? && GrowOne(fs, limit).0
    requires !PlaceOf(PerLevel(fs), limit).Single? && Spared(fs, limit, c)
    ensures var r := GrowOne(fs, limit).1; FileOk(r, limit + 1) && SameBytes(fs, r, c) && Spared(r, limit + 1, c)
  {
    hide Slot, Own, Meta, MetaDistinct, MetaAllocated, FreeIsZero, PlaceOf, SetPlace, Allocated, Byte, Address, Lookup, HasBlock;
    var (b, groups) := Alloc(fs.groups);
    AllocTakes(fs.groups);
    TakingKeepsOk(fs, limit, groups, b.value);
    GrowOneKeepsOk(fs, limit);
    PlacesDistinct(PerLevel(fs), limit, limit);
    var fs1, r, p := fs.(groups := groups), GrowOne(fs, limit).1, PlaceOf(PerLevel(fs), limit);
    SetPlaceSpares(fs1, p, b.value, c);
    SetPlaceSets(fs1, p, b.value, p);
    forall y: nat | y < fs.blockSize
      ensures Byte(r.disk, Address(fs.blockSize, c, y)) == Byte(fs.disk, Address(fs.blockSize, c, y))
    {
    }
  }

  /** Growing a file leaves the blocks of others alone. */
  lemma {:induction false} GrowSpares(fs: Fs, from: nat, end: nat, c: nat)
    requires FileOk(fs, from) && from <= end <= Limit(PerLevel(fs)) && NoSingle(PerLevel(fs), from, end)
    requires Grow(fs, from, end).complete && Grow(fs, from, end).stored && Spared(fs, from, c)
    ensures var g := Grow(fs, from, end).fs; FileOk(g, end) && SameBytes(fs, g, c) && Spared(g, end, c)
    decreases end - from
  {
    hide GroupsValid, MetaDistinct, MetaAllocated, FreeIsZero, Lookup, GrowOne, HasBlock, Byte, Address, Spared;
    if from < end {
      GrowOneSpares(fs, from, c);
      GrowSpares(GrowOne(fs, from).1, from + 1, end, c);
      SameTwice(fs, GrowOne(fs, from).1, Grow(fs, from, end).fs, c);
    }
  }

  lemma SameTwice(a: Fs, b: Fs, c: Fs, block: nat)
    requires a.blockSize == b.blockSize && SameBytes(a, b, block) && SameBytes(b, c, block)
    ensures SameBytes(a, c, block)
  {
    hide Byte, Address;
  }

  /** So does the chunk loop. */
  lemma WriteSpares(fs: Fs, limit: nat, off: nat, buf: seq<nat>, c: nat)
    requires FileOk(fs, limit) && InView(fs, limit, off + |buf|) && Spared(fs, limit, c)
    ensures SameBytes(fs, Written(fs, limit, off, buf), c)
  {
    hide GroupsValid, MetaDistinct, MetaAllocated, FreeIsZero, HasBlock, Byte, Address, Slot, PlaceOf, At, WriteFrom, Needed, Limit;
    OkIsValid(fs, limit);
    NeededIs(fs.blockSize, off + |buf|, limit);
    var ps := FilePlaces(PerLevel(fs), limit);
    assert c !in Blocks(fs, ps) by {
      forall i | 0 <= i < limit ensures Blocks(fs, ps)[i] != c {
        assert Lookup(fs, i) != c;
      }
    }
    forall y: nat | y < fs.blockSize
      ensures Byte(Written(fs, limit, off, buf).disk, Address(fs.blockSize, c, y)) == Byte(fs.disk, Address(fs.blockSize, c, y))
    {
      OtherFilesUnchanged(fs, ps, off, buf, c, y);
    }
  }

  lemma SameSlot(fs: Fs, r: Fs, c: nat, k: nat)
    requires Sizes(fs) && r.blockSize == fs.blockSize && SameBytes(fs, r, c) && k < PerLevel(fs)
    ensures Slot(r, c, k) == Slot(fs, c, k)
  {
    hide Byte, Address;
    AddressIs(fs.blockSize, c, k * 4);
    AddressIs(fs.blockSize, c, k * 4 + 1);
    AddressIs(fs.blockSize, c, k * 4 + 2);
    AddressIs(fs.blockSize, c, k * 4 + 3);
  }

  /** Places reached over unchanged pointer blocks hold what they held. */
  lemma SamePlace(fs: Fs, r: Fs, p: Place)
    requires Sizes(fs) && Sizes(r) && r.blockSize == fs.blockSize && r.blocks == fs.blocks && p.Fits(PerLevel(fs))
    requires forall c: nat :: Uses(fs, p, c) ==> SameBytes(fs, r, c)
    ensures At(r, p) == At(fs, p)
  {
    hide Slot, SameBytes;
    match p
    case Direct(_) =>
    case Single(k) =>
      assert Uses(fs, p, fs.blocks[12]);
      SameSlot(fs, r, fs.blocks[12], k);
    case Double(s, o) =>
      assert Uses(fs, p, fs.blocks[13]) && Uses(fs, p, Indirect(fs, s));
      SameSlot(fs, r, fs.blocks[13], s);
      SameSlot(fs, r, Indirect(fs, s), o);
  }

  /** Reading a file whose blocks and pointers have the same bytes gives the same bytes. */
  lemma SameReading(fs: Fs, r: Fs, limit: nat, at: nat, cnt: nat)
    requires InView(fs, limit, at + cnt) && Sizes(r) && r.blockSize == fs.blockSize && r.blocks == fs.blocks
    requires forall j :: 0 <= j < limit ==> BlockSame(fs, r, j)
    ensures Reading(r, limit, at, cnt) == Reading(fs, limit, at, cnt)
  {
    hide Byte, Address, Slot, ReadBlocks, PlaceOf, Needed, Limit, At, Uses;
    NeededIs(fs.blockSize, at + cnt, limit);
    var ps := FilePlaces(PerLevel(fs), limit);
    forall j | 0 <= j < limit
      ensures At(r, ps[j]) == At(fs, ps[j]) && SameBytes(fs, r, Blocks(fs, ps)[j])
    {
      assert BlockSame(fs, r, j);
      SamePlace(fs, r, ps[j]);
    }
    assert Blocks(r, ps) == Blocks(fs, ps);
    SameBytesRead(fs.disk, r.disk, fs.blockSize, Blocks(fs, ps), at, cnt) by {
      forall j: nat, y: nat | j < limit && y < fs.blockSize
        ensures SameByte(fs.disk, r.disk, fs.blockSize, Blocks(fs, ps), j, y)
      {
        assert SameBytes(fs, r, Blocks(fs, ps)[j]);
      }
    }
  }

  /** File block `j` and the pointer blocks on the way to it have the same bytes. */
  ghost predicate BlockSame(fs: Fs, r: Fs, j: nat)
    requires Sizes(fs) && j < Limit(PerLevel(fs))
  {
    && PlaceOf(PerLevel(fs), j).Fits(PerLevel(fs)) && SameBytes(fs, r, Lookup(fs, j))
    && forall c: nat :: Uses(fs, PlaceOf(PerLevel(fs), j), c) ==> SameBytes(fs, r, c)
  }

  /** A whole `write` call, with the blocks it adds, changes nothing that is read from another file. */
  lemma WriteCallSparesOthers(fs: Fs, sectors: nat, sectorSize: nat, from: nat, end: nat, off: nat, buf: seq<nat>,
      blocks: seq<nat>, limit: nat, at: nat, cnt: nat)
    requires FileOk(fs, from) && sectors * sectorSize == Address(fs.blockSize, from, 0)
    requires InView(fs, end, off + |buf|) && end == Max(from, Needed(fs.blockSize, off + |buf|))
    requires var g := Resized(fs, sectors, sectorSize, end, off + |buf|); g.complete && g.stored
    requires NoSingle(PerLevel(fs), from, end) && OtherFile(fs, from, blocks, limit) && InView(fs, limit, at + cnt)
    ensures var r := Written(Resized(fs, sectors, sectorSize, end, off + |buf|).fs, end, off, buf);
      Reading(r.(blocks := blocks), limit, at, cnt) == Reading(fs.(blocks := blocks), limit, at, cnt)
  {
    hide GroupsValid, MetaDistinct, MetaAllocated, FreeIsZero, HasBlock, Address, Byte, Written, Reading, Grow, Needed,
      Resized, Limit, Spared, Uses, PlaceOf, Slot, Lookup;
    ResizedIs(fs, sectors, sectorSize, from, end, off + |buf|);
    var g := Grow(fs, from, end).fs;
    var r, other := Written(g, end, off, buf), fs.(blocks := blocks);
    forall c: nat | Spared(fs, from, c)
      ensures SameBytes(other, r.(blocks := blocks), c)
    {
      GrowSpares(fs, from, end, c);
      WriteSpares(g, end, off, buf, c);
      SameTwice(fs, g, r, c);
      OtherInode(fs, r, blocks, c);
    }
    forall j | 0 <= j < limit
      ensures BlockSame(other, r.(blocks := blocks), j)
    {
      assert OtherBlock(fs, from, blocks, j);
    }
    SameReading(other, r.(blocks := blocks), limit, at, cnt);
  }

  lemma OtherInode(fs: Fs, r: Fs, blocks: seq<nat>, c: nat)
    requires SameBytes(fs, r, c)
    ensures SameBytes(fs.(blocks := blocks), r.(blocks := blocks), c)
  {
    hide Byte, Address;
  }
}
