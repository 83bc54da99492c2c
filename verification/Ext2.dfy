/** The ext2 block map (kernel/fs/ext2/inode.cpp) over a byte-addressed disk. */
module Ext2 {
  import opened Wrappers
  import opened Arithmetic
  import opened BlockGroups

  /** Disk contents; a byte that was never written is 0. */
  type Disk = map<nat, nat>

  /** A file system together with the block array of one inode. */
  datatype Fs = Fs(disk: Disk, blockSize: nat, groups: Groups, blocks: seq<nat>)

  // ---------------------------------------------------------------------------------------
  // Bytes and words

  function Byte(d: Disk, a: nat): nat {
    if a in d then d[a] else 0
  }

  function Put(d: Disk, a: nat, bytes: seq<nat>): (r: Disk)
    ensures forall x: nat {:trigger Byte(r, x)} ::
      Byte(r, x) == if a <= x < a + |bytes| then bytes[x - a] else Byte(d, x)
  {
    if bytes == [] then d
    else
      var n := |bytes| - 1;
      var before := Put(d, a, bytes[..n]);
      var after := before[a + n := bytes[n]];
      assert forall x: nat {:trigger Byte(after, x)} :: Byte(after, x) == if x == a + n then bytes[n] else Byte(before, x);
      after
  }

  function Get(d: Disk, a: nat, n: nat): (r: seq<nat>)
    ensures |r| == n && forall i :: 0 <= i < n ==> r[i] == Byte(d, a + i)
  {
    if n == 0 then [] else Get(d, a, n - 1) + [Byte(d, a + n - 1)]
  }

  /** A little-endian 32-bit word. */
  function Word(d: Disk, a: nat): nat {
    Byte(d, a) + 0x100 * Byte(d, a + 1) + 0x1_0000 * Byte(d, a + 2) + 0x100_0000 * Byte(d, a + 3)
  }

  function WordBytes(w: nat): seq<nat> {
    [w % 0x100, w / 0x100 % 0x100, w / 0x1_0000 % 0x100, w / 0x100_0000 % 0x100]
  }

  lemma WordDigits(w: nat)
    ensures w % 0x100 + 0x100 * (w / 0x100 % 0x100) + 0x1_0000 * (w / 0x1_0000 % 0x100) + 0x100_0000 * (w / 0x100_0000 % 0x100) == w % 0x1_0000_0000
  {
    var a := w / 0x100;
    var b := a / 0x100;
    var c := b / 0x100;
    var low := w % 0x100 + 0x100 * (a % 0x100);
    QuotientUnique(w, 0x1_0000, b, low);
    QuotientUnique(w, 0x100_0000, c, low + 0x1_0000 * (b % 0x100));
    QuotientUnique(w, 0x1_0000_0000, c / 0x100, low + 0x1_0000 * (b % 0x100) + 0x100_0000 * (c % 0x100));
  }

  lemma PutWord(d: Disk, a: nat, w: nat, b: nat)
    requires b == a || b + 4 <= a || a + 4 <= b
    ensures Word(Put(d, a, WordBytes(w)), b) == if b == a then w % 0x1_0000_0000 else Word(d, b)
  {
    WordDigits(w);
  }

  // ---------------------------------------------------------------------------------------
  // Pointer slots: word `k` of block `b`

  predicate Sizes(fs: Fs) {
    fs.blockSize > 0 && fs.blockSize % 4 == 0 && fs.groups.Valid() && |fs.blocks| == 15
  }

  /** `blocks_per_level`. */
  function PerLevel(fs: Fs): nat {
    fs.blockSize / 4
  }

  function SlotAddress(size: nat, b: nat, k: nat): nat {
    b * size + k * 4
  }

  function Slot(fs: Fs, b: nat, k: nat): nat {
    Word(fs.disk, SlotAddress(fs.blockSize, b, k))
  }

  function SetSlot(fs: Fs, b: nat, k: nat, w: nat): Fs {
    fs.(disk := Put(fs.disk, SlotAddress(fs.blockSize, b, k), WordBytes(w)))
  }

  /** Offsets in different blocks never meet. */
  lemma BlocksApart(b: nat, x: nat, c: nat, y: nat, size: nat)
    requires x < size && y < size && b != c
    ensures b * size + x != c * size + y
    ensures b < c ==> b * size + x < c * size
  {
    if b < c {
      assert c * size >= (b + 1) * size == b * size + size;
    } else {
      assert b * size >= (c + 1) * size == c * size + size;
    }
  }

  /** Two slots are the same one or four bytes apart. */
  lemma SlotsApart(b: nat, k: nat, c: nat, l: nat, size: nat)
    requires size % 4 == 0 && k < size / 4 && l < size / 4
    ensures var x, y := SlotAddress(size, b, k), SlotAddress(size, c, l);
      if b == c && k == l then x == y else x + 4 <= y || y + 4 <= x
  {
    if b < c {
      BlocksApart(b, k * 4 + 3, c, 0, size);
    } else if c < b {
      BlocksApart(c, l * 4 + 3, b, 0, size);
    }
  }

  lemma SetSlotWrites(fs: Fs, b: nat, k: nat, w: nat, c: nat, l: nat)
    requires Sizes(fs) && k < PerLevel(fs) && l < PerLevel(fs)
    ensures Slot(SetSlot(fs, b, k, w), c, l) == if b == c && k == l then w % 0x1_0000_0000 else Slot(fs, c, l)
  {
    var x, y := SlotAddress(fs.blockSize, b, k), SlotAddress(fs.blockSize, c, l);
    assert (x == y <==> b == c && k == l) && (x == y || x + 4 <= y || y + 4 <= x) by {
      SlotsApart(b, k, c, l, fs.blockSize);
    }
    PutWord(fs.disk, x, w, y);
  }

  // ---------------------------------------------------------------------------------------
  // The block map

  /** The second-level pointer block of the doubly indirect range. */
  function Indirect(fs: Fs, s: nat): nat
    requires |fs.blocks| == 15
  {
    Slot(fs, fs.blocks[13], s)
  }

  /** Where the block number of a file block is kept. */
  datatype Place = Direct(k: nat) | Single(k: nat) | Double(s: nat, o: nat) {
    predicate Fits(n: nat) {
      match this
      case Direct(k) => k < 12
      case Single(k) => k < n
      case Double(s, o) => s < n && o < n
    }
  }

  /** The file blocks that go through entries 0 to 13 of the inode, for `n` pointers in a block. */
  function Limit(n: nat): nat {
    12 + n + n * n
  }

  /** The branches of `get_block` and `set_block` below the triply indirect range. */
  function PlaceOf(n: nat, i: nat): Place
    requires n > 0
  {
    if i < 12 then Direct(i)
    else if i - 12 < n then Single(i - 12)
    else Double((i - 12 - n) / n, (i - 12 - n) % n)
  }

  /** Different file blocks below the limit have different places, all of them in range. */
  lemma PlacesDistinct(n: nat, i: nat, j: nat)
    requires n > 0 && i < Limit(n) && j < Limit(n)
    ensures PlaceOf(n, i).Fits(n) && (PlaceOf(n, i) == PlaceOf(n, j) ==> i == j)
  {
    if i >= 12 + n {
      QuotientBound(i - 12 - n, n, n);
    }
    if i >= 12 + n && j >= 12 + n {
      DivModDetermine(i - 12 - n, j - 12 - n, n);
    }
  }

  function At(fs: Fs, p: Place): nat
    requires |fs.blocks| == 15 && p.Fits(PerLevel(fs))
  {
    match p
    case Direct(k) => fs.blocks[k]
    case Single(k) => Slot(fs, fs.blocks[12], k)
    case Double(s, o) => Slot(fs, Indirect(fs, s), o)
  }

  /** All pointer blocks on the way are there. */
  predicate Reachable(fs: Fs, p: Place)
    requires |fs.blocks| == 15 && p.Fits(PerLevel(fs))
  {
    match p
    case Direct(_) => true
    case Single(_) => fs.blocks[12] != 0
    case Double(s, _) => fs.blocks[13] != 0 && Indirect(fs, s) != 0
  }

  // On-disk layout, in bytes

  /** The little-endian number in the four bytes at `a`. */
  function LittleEndian(d: Disk, a: nat): nat {
    Byte(d, a) + 256 * (Byte(d, a + 1) + 256 * (Byte(d, a + 2) + 256 * Byte(d, a + 3)))
  }

  /** Block `b` is pointer `o` of the block that is pointer `s` of the doubly indirect block. */
  predicate DoublyAt(fs: Fs, s: nat, o: nat, b: nat)
    requires |fs.blocks| == 15
  {
    b == LittleEndian(fs.disk, LittleEndian(fs.disk, fs.blocks[13] * fs.blockSize + 4 * s) * fs.blockSize + 4 * o)
  }

  lemma SlotLayout(fs: Fs, b: nat, k: nat)
    ensures Slot(fs, b, k) == LittleEndian(fs.disk, b * fs.blockSize + 4 * k)
  {
    hide Byte;
  }

  /** File block `12 + n + s * n + o` has digits `s` and `o`. */
  lemma DoublyIndirect(n: nat, s: nat, o: nat)
    requires s < n && o < n
    ensures 12 + n <= 12 + n + s * n + o < Limit(n) && PlaceOf(n, 12 + n + s * n + o) == Double(s, o)
  {
    QuotientUnique(s * n + o, n, s, o);
    ProductOrder(n, s + 1, n);
    assert (s + 1) * n == s * n + n;
  }

  /** Where the number of a file block stands, byte by byte. */
  lemma LookupLayout(fs: Fs, i: nat)
    requires Sizes(fs) && i < Limit(PerLevel(fs))
    ensures var n := PerLevel(fs);
      && (i < 12 ==> Lookup(fs, i) == fs.blocks[i])
      && (12 <= i < 12 + n ==> Lookup(fs, i) == LittleEndian(fs.disk, fs.blocks[12] * fs.blockSize + 4 * (i - 12)))
      && forall s: nat, o: nat {:trigger DoublyAt(fs, s, o, Lookup(fs, i))} ::
           s < n && o < n && i == 12 + n + s * n + o ==> DoublyAt(fs, s, o, Lookup(fs, i))
  {
    hide Byte, Word, LittleEndian, Limit, Slot;
    var n := PerLevel(fs);
    PlacesDistinct(n, i, i);
    if 12 <= i < 12 + n {
      SlotLayout(fs, fs.blocks[12], i - 12);
    }
    forall s: nat, o: nat | s < n && o < n && i == 12 + n + s * n + o
      ensures DoublyAt(fs, s, o, Lookup(fs, i))
    {
      DoublyIndirect(n, s, o);
      SlotLayout(fs, fs.blocks[13], s);
      SlotLayout(fs, Indirect(fs, s), o);
    }
  }

  /** `inode::get_block` as its callers use it, cut to 32 bits. */
  function Lookup(fs: Fs, i: nat): nat
    requires Sizes(fs) && i < Limit(PerLevel(fs))
  {
    PlacesDistinct(PerLevel(fs), i, i);
    At(fs, PlaceOf(PerLevel(fs), i))
  }

  /**
   `inode::get_block` itself. Behind the direct blocks it reads 32 bits over the low half of
   a 64-bit -1, so the result is that much below the block number.
   */
  function GetBlock(fs: Fs, i: nat): int
    requires Sizes(fs) && i < Limit(PerLevel(fs))
  {
    if i < 12 then fs.blocks[i] else Lookup(fs, i) - 0x1_0000_0000
  }

  /** Cut to 32 bits, both give the same. */
  lemma GetBlockCut(fs: Fs, i: nat)
    requires Sizes(fs) && i < Limit(PerLevel(fs))
    ensures GetBlock(fs, i) % 0x1_0000_0000 == Lookup(fs, i) % 0x1_0000_0000
    ensures i < 12 ==> GetBlock(fs, i) == fs.blocks[i]
    ensures 12 <= i && Lookup(fs, i) < 0x1_0000_0000 ==>
      GetBlock(fs, i) % 0x1_0000_0000_0000_0000 == 0xFFFF_FFFF_0000_0000 + Lookup(fs, i)
  {
    hide Put, Byte, Word, Slot, Indirect, Lookup;
    if i < 12 {
      LookupLayout(fs, i);
    } else {
      CutBorrow(Lookup(fs, i));
    }
  }

  lemma CutBorrow(x: int)
    ensures (x - 0x1_0000_0000) % 0x1_0000_0000 == x % 0x1_0000_0000
    ensures 0 <= x < 0x1_0000_0000 ==>
      (x - 0x1_0000_0000) % 0x1_0000_0000_0000_0000 == 0xFFFF_FFFF_0000_0000 + x
  {
    var q, r := x / 0x1_0000_0000, x % 0x1_0000_0000;
    QuotientUnique(x - 0x1_0000_0000, 0x1_0000_0000, q - 1, r);
    if 0 <= x < 0x1_0000_0000 {
      QuotientUnique(x - 0x1_0000_0000, 0x1_0000_0000_0000_0000, -1, 0xFFFF_FFFF_0000_0000 + x);
    }
  }

  /** A fresh block for one of the inode's own 32-bit pointers, if that pointer is still 0. */
  function EnsureRoot(fs: Fs, r: nat): (result: (bool, Fs))
    requires |fs.blocks| == 15 && r < 15 && fs.groups.Valid()
    ensures result.1.blockSize == fs.blockSize && |result.1.blocks| == 15 && result.1.groups.Valid()
  {
    if fs.blocks[r] != 0 then (true, fs)
    else
      var (b, groups) := Alloc(fs.groups);
      if b.None? then (false, fs)
      else (true, fs.(groups := groups, blocks := fs.blocks[r := b.value % 0x1_0000_0000]))
  }

  /** A fresh second-level pointer block, if slot `s` of the doubly indirect block is still 0. */
  function EnsureIndirect(fs: Fs, s: nat): (result: (bool, Fs))
    requires |fs.blocks| == 15 && fs.groups.Valid()
    ensures result.1.blockSize == fs.blockSize && |result.1.blocks| == 15 && result.1.groups.Valid()
  {
    if Indirect(fs, s) != 0 then (true, fs)
    else
      var (b, groups) := Alloc(fs.groups);
      if b.None? then (false, fs) else (true, SetSlot(fs.(groups := groups), fs.blocks[13], s, b.value))
  }

  /** `inode::set_block` on a place. On failure the pointer blocks added so far stay. */
  function SetPlace(fs: Fs, p: Place, b: nat): (result: (bool, Fs))
    requires |fs.blocks| == 15 && fs.groups.Valid() && p.Fits(PerLevel(fs))
    ensures result.1.blockSize == fs.blockSize && |result.1.blocks| == 15 && result.1.groups.Valid()
  {
    match p
    case Direct(k) => (true, fs.(blocks := fs.blocks[k := b]))
    case Single(_) => EnsureRoot(fs, 12)
    case Double(s, o) =>
      var (ok, fs1) := EnsureRoot(fs, 13);
      if !ok then (false, fs)
      else
        var (ok2, fs2) := EnsureIndirect(fs1, s);
        if !ok2 then (false, fs1) else (true, SetSlot(fs2, Indirect(fs2, s), o, b))
  }

  function SetBlock(fs: Fs, i: nat, b: nat): (result: (bool, Fs))
    requires Sizes(fs) && i < Limit(PerLevel(fs))
    ensures result.1.blockSize == fs.blockSize && |result.1.blocks| == 15 && result.1.groups.Valid()
  {
    PlacesDistinct(PerLevel(fs), i, i);
    SetPlace(fs, PlaceOf(PerLevel(fs), i), b)
  }

  // ---------------------------------------------------------------------------------------
  // Well-formed block maps

  /** The pointer blocks: 0 is the singly indirect one, 1 the doubly indirect one, then the second level. */
  function Meta(fs: Fs, k: nat): nat
    requires |fs.blocks| == 15
  {
    if k == 0 then fs.blocks[12]
    else if k == 1 || fs.blocks[13] == 0 then fs.blocks[13]
    else Indirect(fs, k - 2)
  }

  /** Pointer blocks in use are distinct. */
  ghost predicate MetaDistinct(fs: Fs)
    requires |fs.blocks| == 15
  {
    forall j, k :: 0 <= j < PerLevel(fs) + 2 && 0 <= k < PerLevel(fs) + 2 && j != k && Meta(fs, j) != 0 ==>
      Meta(fs, j) != Meta(fs, k)
  }

  ghost predicate MetaAllocated(fs: Fs)
    requires |fs.blocks| == 15 && fs.groups.Valid()
  {
    forall k :: 0 <= k < PerLevel(fs) + 2 && Meta(fs, k) != 0 ==> Allocated(fs.groups, Meta(fs, k))
  }

  /** Free blocks are zero filled. */
  ghost predicate FreeIsZero(fs: Fs)
    requires fs.groups.Valid()
  {
    forall b: nat, k: nat {:trigger Slot(fs, b, k)} ::
      k < PerLevel(fs) && !Allocated(fs.groups, b) ==> Slot(fs, b, k) == 0
  }

  /** Block numbers fit 32 bits, block 0 is taken, and the allocator hands out the blocks it marks. */
  ghost predicate GroupsValid(gs: Groups) {
    gs.Valid() && |gs.list| * gs.perGroup <= 0x1_0000_0000 && Allocated(gs, 0) && Own(gs)
  }

  ghost predicate MapValid(fs: Fs) {
    Sizes(fs) && GroupsValid(fs.groups) && MetaDistinct(fs) && MetaAllocated(fs) && FreeIsZero(fs)
  }

  /** Place `p` is reached as before and holds the same block number. */
  predicate SameAt(fs: Fs, r: Fs, p: Place)
    requires |fs.blocks| == |r.blocks| == 15 && PerLevel(r) == PerLevel(fs) && p.Fits(PerLevel(fs))
  {
    Reachable(fs, p) ==> Reachable(r, p) && At(r, p) == At(fs, p)
  }

  /** `after` is `before` with the fresh block `b` taken. */
  ghost predicate Took(before: Groups, after: Groups, b: nat) {
    && GroupsValid(before) && GroupsValid(after) && 0 < b < 0x1_0000_0000
    && !Allocated(before, b) && forall c: nat :: Allocated(after, c) <==> Allocated(before, c) || c == b
  }

  lemma AllocTakes(gs: Groups)
    requires GroupsValid(gs) && Alloc(gs).0.Some?
    ensures Took(gs, Alloc(gs).1, Alloc(gs).0.value)
  {
    OwnKept(gs);
    hide Allocated, Own;
    var (b, r) := Alloc(gs);
    forall c: nat
      ensures !Allocated(gs, b.value) && (Allocated(r, c) <==> Allocated(gs, c) || c == b.value)
    {
      AllocFresh(gs, c);
    }
    AllocatedBound(r, b.value);
  }

  /**
   What preparing a place does to the pointer blocks: blocks in use stay in use, and a pointer
   block that is new was free before.
   */
  ghost predicate Prepared(fs: Fs, r: Fs) {
    && MapValid(fs) && MapValid(r) && r.blockSize == fs.blockSize
    && (forall c: nat :: Allocated(fs.groups, c) ==> Allocated(r.groups, c))
    && (forall k :: 0 <= k < PerLevel(fs) + 2 ==> Meta(r, k) == Meta(fs, k) || !Allocated(fs.groups, Meta(r, k)))
  }

  lemma PreparedTwice(fs: Fs, fs1: Fs, fs2: Fs)
    requires Prepared(fs, fs1) && Prepared(fs1, fs2)
    ensures Prepared(fs, fs2)
  {
    hide MapValid;
  }

  /** A fresh block is no pointer block. */
  lemma FreshIsNoMeta(fs: Fs, b: nat)
    requires MapValid(fs) && b > 0 && !Allocated(fs.groups, b)
    ensures forall k :: 0 <= k < PerLevel(fs) + 2 ==> Meta(fs, k) != b
  {
    hide Allocated, Slot, GroupsValid;
  }

  /** Adding a missing pointer block to the inode keeps the map valid and every reachable index as it was. */
  lemma EnsureRootKeeps(fs: Fs, r: nat, p: Place)
    requires MapValid(fs) && r in {12, 13} && p.Fits(PerLevel(fs))
    ensures var (ok, fs') := EnsureRoot(fs, r);
      && Prepared(fs, fs') && SameAt(fs, fs', p)
      && (ok ==> fs'.blocks[r] != 0) && (!ok ==> fs' == fs)
      && (forall k :: 0 <= k < 15 && k != r ==> fs'.blocks[k] == fs.blocks[k])
  {
    hide Put, Byte, Word, Slot, Allocated, Own, GroupsValid;
    if fs.blocks[r] == 0 && Alloc(fs.groups).0.Some? {
      AllocTakes(fs.groups);
      AddRoot(fs, Alloc(fs.groups).1, Alloc(fs.groups).0.value, r);
    }
  }

  lemma AddRoot(fs: Fs, groups: Groups, b: nat, r: nat)
    requires MapValid(fs) && r in {12, 13} && fs.blocks[r] == 0 && Took(fs.groups, groups, b)
    ensures Prepared(fs, fs.(groups := groups, blocks := fs.blocks[r := b]))
    ensures forall c: nat, k: nat :: Slot(fs.(groups := groups, blocks := fs.blocks[r := b]), c, k) == Slot(fs, c, k)
  {
    hide Put, Byte, Word, Allocated, Own;
    var fs' := fs.(groups := groups, blocks := fs.blocks[r := b]);
    FreshIsNoMeta(fs, b);
    forall c: nat, k: nat ensures Slot(fs', c, k) == Slot(fs, c, k) {
    }
    RootMetas(fs, fs', b, r);
  }

  /** The pointer blocks once root pointer `r` is the fresh zeroed block `b`. */
  lemma RootMetas(fs: Fs, fs': Fs, b: nat, r: nat)
    requires MapValid(fs) && r in {12, 13} && fs.blocks[r] == 0 && Took(fs.groups, fs'.groups, b)
    requires fs' == fs.(groups := fs'.groups, blocks := fs.blocks[r := b])
    requires forall k :: 0 <= k < PerLevel(fs) + 2 ==> Meta(fs, k) != b
    requires forall c: nat, k: nat :: Slot(fs', c, k) == Slot(fs, c, k)
    ensures Prepared(fs, fs')
  {
    hide Slot, Allocated, Own;
    forall k | 0 <= k < PerLevel(fs) + 2
      ensures Meta(fs', k) == if k == (if r == 12 then 0 else 1) then b else Meta(fs, k)
    {
      if r == 13 && k >= 2 {
        assert Meta(fs', k) == Slot(fs, b, k - 2);
      }
    }
  }

  /** Adding a missing second-level pointer block. */
  lemma EnsureIndirectKeeps(fs: Fs, s: nat, p: Place)
    requires MapValid(fs) && fs.blocks[13] != 0 && s < PerLevel(fs) && p.Fits(PerLevel(fs))
    ensures var (ok, fs') := EnsureIndirect(fs, s);
      && Prepared(fs, fs') && SameAt(fs, fs', p) && fs'.blocks == fs.blocks
      && (ok ==> Indirect(fs', s) != 0)
  {
    hide Put, Byte, Word, Allocated, Own, GroupsValid;
    if Indirect(fs, s) == 0 && Alloc(fs.groups).0.Some? {
      AllocTakes(fs.groups);
      var (b, groups) := Alloc(fs.groups);
      var fs' := SetSlot(fs.(groups := groups), fs.blocks[13], s, b.value);
      FillIndirect(fs, groups, s, b.value);
      AddIndirect(fs, fs', s, b.value);
      IndirectSame(fs, fs', s, b.value, p);
    }
  }

  /** `fs'` is `fs` with the fresh block `b` in slot `s` of the doubly indirect block. */
  ghost predicate IndirectAdded(fs: Fs, fs': Fs, s: nat, b: nat) {
    && MapValid(fs) && Took(fs.groups, fs'.groups, b)
    && fs' == fs.(disk := fs'.disk, groups := fs'.groups)
    && s < PerLevel(fs) && fs.blocks[13] != 0 && Indirect(fs, s) == 0
    && (forall c: nat, k: nat {:trigger Slot(fs', c, k)} :: k < PerLevel(fs) ==>
         Slot(fs', c, k) == if c == fs.blocks[13] && k == s then b else Slot(fs, c, k))
  }

  lemma FillIndirect(fs: Fs, groups: Groups, s: nat, b: nat)
    requires MapValid(fs) && Took(fs.groups, groups, b)
    requires s < PerLevel(fs) && fs.blocks[13] != 0 && Indirect(fs, s) == 0
    ensures IndirectAdded(fs, SetSlot(fs.(groups := groups), fs.blocks[13], s, b), s, b)
  {
    hide Put, Byte, Word, Allocated, Own, Meta, MetaDistinct, MetaAllocated, FreeIsZero;
    var fs1 := fs.(groups := groups);
    var fs' := SetSlot(fs1, fs.blocks[13], s, b);
    forall c: nat, k: nat | k < PerLevel(fs)
      ensures Slot(fs', c, k) == if c == fs.blocks[13] && k == s then b else Slot(fs, c, k)
    {
      SetSlotWrites(fs1, fs.blocks[13], s, b, c, k);
      assert Slot(fs1, c, k) == Slot(fs, c, k);
    }
  }

  lemma AddIndirect(fs: Fs, fs': Fs, s: nat, b: nat)
    requires IndirectAdded(fs, fs', s, b)
    ensures Prepared(fs, fs')
  {
    hide Slot, Allocated, Own;
    FreshIsNoMeta(fs, b);
    forall k | 0 <= k < PerLevel(fs) + 2
      ensures Meta(fs', k) == if k == s + 2 then b else Meta(fs, k)
    {
    }
    assert Meta(fs, 1) == fs.blocks[13];
  }

  lemma IndirectSame(fs: Fs, fs': Fs, s: nat, b: nat, p: Place)
    requires IndirectAdded(fs, fs', s, b) && p.Fits(PerLevel(fs))
    ensures SameAt(fs, fs', p)
  {
    hide Slot, Allocated, Own;
    assert Meta(fs, 0) == fs.blocks[12] && Meta(fs, 1) == fs.blocks[13];
    if p.Double? {
      assert fs.blocks[13] != 0 ==> Meta(fs, p.s + 2) == Indirect(fs, p.s);
    }
  }

  /** Storing a block number in a second-level pointer block changes that one place. */
  lemma StoreKeeps(fs: Fs, s: nat, o: nat, b: nat, p: Place)
    requires MapValid(fs) && fs.blocks[13] != 0 && Double(s, o).Fits(PerLevel(fs)) && Indirect(fs, s) != 0
    requires b < 0x1_0000_0000 && p.Fits(PerLevel(fs))
    ensures var fs' := SetSlot(fs, Indirect(fs, s), o, b);
      && Prepared(fs, fs') && Reachable(fs', Double(s, o)) && At(fs', Double(s, o)) == b
      && (p != Double(s, o) ==> SameAt(fs, fs', p))
  {
    hide Put, Byte, Word, Allocated, Own, GroupsValid, Meta, MetaDistinct, MetaAllocated, FreeIsZero;
    var n, ind := PerLevel(fs), Indirect(fs, s);
    var fs' := SetSlot(fs, ind, o, b);
    forall c: nat, k: nat | k < n
      ensures Slot(fs', c, k) == if c == ind && k == o then b else Slot(fs, c, k)
    {
      SetSlotWrites(fs, ind, o, b, c, k);
    }
    StoredPlaces(fs, fs', s, o, b, p);
  }

  lemma StoredPlaces(fs: Fs, fs': Fs, s: nat, o: nat, b: nat, p: Place)
    requires MapValid(fs) && fs.blocks[13] != 0 && Double(s, o).Fits(PerLevel(fs)) && Indirect(fs, s) != 0
    requires fs' == fs.(disk := fs'.disk) && p.Fits(PerLevel(fs))
    requires forall c: nat, k: nat {:trigger Slot(fs', c, k)} :: k < PerLevel(fs) ==>
      Slot(fs', c, k) == if c == Indirect(fs, s) && k == o then b else Slot(fs, c, k)
    ensures Prepared(fs, fs') && Reachable(fs', Double(s, o)) && At(fs', Double(s, o)) == b
    ensures p != Double(s, o) ==> SameAt(fs, fs', p)
  {
    hide Slot, Allocated, Own;
    var n, ind := PerLevel(fs), Indirect(fs, s);
    assert Meta(fs, s + 2) == ind && Meta(fs, 1) == fs.blocks[13] && Meta(fs, 0) == fs.blocks[12];
    forall k | 0 <= k < n + 2
      ensures Meta(fs', k) == Meta(fs, k)
    {
    }
    if p.Double? {
      assert Meta(fs, p.s + 2) == Indirect(fs, p.s);
    }
  }

  lemma SetPlaceSets(fs: Fs, p: Place, b: nat, q: Place)
    requires MapValid(fs) && p.Fits(PerLevel(fs)) && q.Fits(PerLevel(fs)) && b < 0x1_0000_0000
    ensures var (ok, fs') := SetPlace(fs, p, b);
      && Prepared(fs, fs')
      && (ok ==> Reachable(fs', p) && (!p.Single? ==> At(fs', p) == b))
      && (p != q ==> SameAt(fs, fs', q))
  {
    hide Slot, Allocated, Own, Meta, Alloc, MetaDistinct, MetaAllocated, FreeIsZero;
    match p
    case Direct(k) =>
      DirectKeeps(fs, k, b, q);
    case Single(_) =>
      EnsureRootKeeps(fs, 12, q);
    case Double(s, o) =>
      EnsureRootKeeps(fs, 13, q);
      var (ok, fs1) := EnsureRoot(fs, 13);
      if ok {
        EnsureIndirectKeeps(fs1, s, q);
        var (ok2, fs2) := EnsureIndirect(fs1, s);
        PreparedTwice(fs, fs1, fs2);
        if ok2 {
          StoreKeeps(fs2, s, o, b, q);
          PreparedTwice(fs, fs2, SetSlot(fs2, Indirect(fs2, s), o, b));
        }
      }
  }

  lemma DirectKeeps(fs: Fs, k: nat, b: nat, q: Place)
    requires MapValid(fs) && k < 12 && q.Fits(PerLevel(fs))
    ensures var fs' := fs.(blocks := fs.blocks[k := b]); Prepared(fs, fs') && (q != Direct(k) ==> SameAt(fs, fs', q))
  {
    hide Put, Byte, Word, Allocated, Own, GroupsValid;
    var fs' := fs.(blocks := fs.blocks[k := b]);
    assert forall c: nat, l: nat :: Slot(fs', c, l) == Slot(fs, c, l);
    assert forall l :: 0 <= l < PerLevel(fs) + 2 ==> Meta(fs', l) == Meta(fs, l);
  }

  /**
   On a singly indirect index `set_block` reports success without storing the block number:
   `get_block` gives what it gave before, or 0 when the pointer block is new.
   */
  lemma SingleInsertIsLost(fs: Fs, k: nat, b: nat)
    requires MapValid(fs) && k < PerLevel(fs)
    ensures var (ok, fs') := SetPlace(fs, Single(k), b);
      && (ok ==> |fs'.blocks| == 15 && PerLevel(fs') == PerLevel(fs))
      && (ok ==> At(fs', Single(k)) == if fs.blocks[12] != 0 then At(fs, Single(k)) else 0)
  {
    hide Put, Byte, Word, Allocated, Own;
    if fs.blocks[12] == 0 && Alloc(fs.groups).0.Some? {
      AllocTakes(fs.groups);
      var b := Alloc(fs.groups).0.value;
      var fs' := EnsureRoot(fs, 12).1;
      assert Slot(fs', b, k) == Slot(fs, b, k);
    }
  }

  /** What `get_block` gives for a singly indirect index, a missing pointer block counting as all zero. */
  function SingleBefore(fs: Fs, i: nat): nat
    requires Sizes(fs) && i < Limit(PerLevel(fs))
  {
    if fs.blocks[12] != 0 then Lookup(fs, i) else 0
  }

  /**
   A successful `set_block` on a direct or doubly indirect index makes `get_block` return that
   block; on a singly indirect index the block is lost. In every case the map stays well formed
   and every other index whose pointer blocks are there is left alone.
   */
  lemma SetBlockSets(fs: Fs, i: nat, b: nat, j: nat)
    requires MapValid(fs) && i < Limit(PerLevel(fs)) && j < Limit(PerLevel(fs)) && b < 0x1_0000_0000
    ensures var (ok, fs') := SetBlock(fs, i, b);
      && MapValid(fs') && PerLevel(fs') == PerLevel(fs)
      && (ok ==> Lookup(fs', i) == if PlaceOf(PerLevel(fs), i).Single? then SingleBefore(fs, i) else b)
      && (ok && !PlaceOf(PerLevel(fs), i).Single? ==> GetBlock(fs', i) % 0x1_0000_0000 == b)
      && (j != i && PlaceOf(PerLevel(fs), j).Fits(PerLevel(fs)) && Reachable(fs, PlaceOf(PerLevel(fs), j)) ==>
           Lookup(fs', j) == Lookup(fs, j))
  {
    hide Put, Byte, Word, Slot, Allocated, SetPlace, PlaceOf, Limit, At, GetBlock, GroupsValid, Meta;
    var n := PerLevel(fs);
    PlacesDistinct(n, i, j);
    PlacesDistinct(n, j, i);
    SetPlaceSets(fs, PlaceOf(n, i), b, PlaceOf(n, j));
    GetBlockCut(SetBlock(fs, i, b).1, i);
    if PlaceOf(n, i).Single? {
      SingleInsertIsLost(fs, PlaceOf(n, i).k, b);
    }
  }

  // ---------------------------------------------------------------------------------------
  // When `set_block` succeeds

  /** The next `n` allocations succeed. */
  predicate Plenty(gs: Groups, n: nat)
    requires gs.Valid()
    decreases n
  {
    n == 0 || (Alloc(gs).0.Some? && Plenty(Alloc(gs).1, n - 1))
  }

  lemma {:induction false} PlentyLess(gs: Groups, n: nat, m: nat)
    requires gs.Valid() && Plenty(gs, n) && m <= n
    ensures Plenty(gs, m)
    decreases n
  {
    if m > 0 {
      PlentyLess(Alloc(gs).1, n - 1, m - 1);
    }
  }

  /** `set_block` fails only if the allocator, as it then is, has no block and a pointer block was missing. */
  lemma FailsOnlyWithoutBlocks(fs: Fs, p: Place, b: nat)
    requires |fs.blocks| == 15 && fs.groups.Valid() && p.Fits(PerLevel(fs)) && !SetPlace(fs, p, b).0
    ensures Alloc(SetPlace(fs, p, b).1.groups).0.None? && !Reachable(fs, p)
  {
    hide Slot, Alloc;
  }

  /** With two allocations at hand it succeeds, and uses no more than these. */
  lemma SucceedsWithBlocks(fs: Fs, p: Place, b: nat, n: nat)
    requires |fs.blocks| == 15 && fs.groups.Valid() && p.Fits(PerLevel(fs)) && Plenty(fs.groups, n + 2)
    ensures SetPlace(fs, p, b).0 && Plenty(SetPlace(fs, p, b).1.groups, n)
  {
    hide Slot, Alloc;
    PlentyLess(fs.groups, n + 2, n);
    PlentyLess(fs.groups, n + 2, n + 1);
    PlentyLess(Alloc(fs.groups).1, n + 1, n);
  }
}
