/** An open ext2 inode, updated in place (kernel/fs/ext2/inode.cpp, block.cpp and ext2.cpp). */
module Ext2Inode {
  import opened Wrappers
  import opened Arithmetic
  import opened BlockGroups
  import opened Ext2
  import opened BlockIo
  import opened Ext2Files
  import opened Ext2Growth

  /** One turn of the loop of `inode::read` moves a chunk from what is left to what is read. */
  lemma ReadTurn(d: Disk, size: nat, bs: seq<nat>, off: nat, cnt: nat, headway: nat, buf: seq<nat>)
    requires size > 0 && headway < cnt && off + cnt <= End(size, bs)
    ensures var len := ChunkLen(size, off, cnt, headway);
      buf + ReadBlocks(d, size, bs, off, cnt, headway) ==
      buf + Get(d, ChunkAddress(size, bs, off + headway), len) + ReadBlocks(d, size, bs, off, cnt, headway + len)
  {
    hide Get, Byte, Address;
  }

  lemma ReadEnd(d: Disk, size: nat, bs: seq<nat>, off: nat, cnt: nat)
    requires size > 0 && off + cnt <= End(size, bs)
    ensures ReadBlocks(d, size, bs, off, cnt, cnt) == []
  {
  }

  /** One turn of the loop of `inode::resize`. */
  lemma GrowTurn(fs: Fs, i: nat, end: nat)
    requires Sizes(fs) && end <= Limit(PerLevel(fs))
    ensures var g := Grow(fs, i, end);
      if i >= end then g == Growth(true, true, 0, fs)
      else if Alloc(fs.groups).0.None? then g == Growth(false, true, 0, fs)
      else
        var rest := Grow(GrowOne(fs, i).1, i + 1, end);
        g.fs == rest.fs && g.complete == rest.complete && g.added == rest.added + 1
  {
    hide Alloc, GrowOne, Limit;
  }

  /** The file system as one inode sees it; `sectors` is the inode's `sector_cnt`. */
  class Inode {
    var fs: Fs
    var sectors: nat
    const sectorSize: nat

    ghost predicate Valid()
      reads this
    {
      Sizes(fs) && fs.groups.scanned == fs.blockSize && sectorSize > 0
    }

    /** The places of the first `limit` file blocks. */
    ghost function Map(limit: nat): (r: Places)
      requires Valid() && limit <= Limit(PerLevel(fs))
      reads this
      ensures AllFit(fs, r) && |r| == limit
    {
      FilePlaces(PerLevel(fs), limit)
    }

    constructor (fs: Fs, sectors: nat, sectorSize: nat)
      requires Sizes(fs) && fs.groups.scanned == fs.blockSize && sectorSize > 0
      ensures this.fs == fs && this.sectors == sectors && this.sectorSize == sectorSize && Valid()
    {
      this.fs := fs;
      this.sectors := sectors;
      this.sectorSize := sectorSize;
    }

    /** `inode::get_block`, with the 32-bit cut that both loops make. */
    method GetBlock(i: nat) returns (block: nat)
      requires Valid() && i < Limit(PerLevel(fs))
      ensures block == Lookup(fs, i)
      ensures i < 12 ==> block == fs.blocks[i]
      ensures 12 <= i < 12 + PerLevel(fs) ==>
        block == LittleEndian(fs.disk, fs.blocks[12] * fs.blockSize + 4 * (i - 12))
      ensures forall s: nat, o: nat {:trigger DoublyAt(fs, s, o, block)} ::
        s < PerLevel(fs) && o < PerLevel(fs) && i == 12 + PerLevel(fs) + s * PerLevel(fs) + o ==> DoublyAt(fs, s, o, block)
    {
      hide Slot, DoublyAt, LittleEndian;
      LookupLayout(fs, i);
      var n := PerLevel(fs);
      PlacesDistinct(n, i, i);
      if i < 12 {
        return fs.blocks[i];
      }
      var j := i - 12;
      if j >= n {
        j := j - n;
        var single, offset := j / n, j % n;
        var indirect := Slot(fs, fs.blocks[13], single);
        return Slot(fs, indirect, offset);
      }
      return Slot(fs, fs.blocks[12], j);
    }

    /** The chunk at `headway`: its disk address and size, as both loops compute them. */
    method Chunk(off: nat, total: nat, headway: nat, ghost limit: nat) returns (address: nat, size: nat)
      requires Valid() && headway < total && limit <= Limit(PerLevel(fs)) && off + total <= Address(fs.blockSize, limit, 0)
      ensures size == ChunkLen(fs.blockSize, off, total, headway)
      ensures address == ChunkAddress(fs.blockSize, Blocks(fs, Map(limit)), off + headway)
    {
      hide Slot, Address, PlaceOf;
      SplitIs(fs.blockSize, off + headway, limit);
      var iblock := (off + headway) / fs.blockSize;
      size := total - headway;
      var offset := (off + headway) % fs.blockSize;
      if size > fs.blockSize - offset {
        size := fs.blockSize - offset;
      }
      var block := GetBlock(iblock);
      AddressIs(fs.blockSize, block, offset);
      address := block * fs.blockSize + offset;
    }

    /** `inode::read`, for any `limit` on the file blocks that the range stays below. */
    method Read(off: nat, cnt: nat, ghost limit: nat) returns (buf: seq<nat>)
      requires Valid() && limit <= Limit(PerLevel(fs)) && off + cnt <= Address(fs.blockSize, limit, 0)
      ensures buf == ReadAll(fs, Map(limit), off, cnt)
      ensures |buf| == cnt && forall k :: 0 <= k < cnt ==> Stands(fs, off + k, buf[k])
    {
      hide Put, Get, Byte, Address, At, FilePlaces, Blocks, ReadBlocks, ChunkLen, Limit, Stands;
      buf := [];
      ghost var bs := Blocks(fs, Map(limit));
      ReadEnd(fs.disk, fs.blockSize, bs, off, cnt);
      var headway := 0;
      while headway < cnt
        invariant 0 <= headway <= cnt
        invariant ReadAll(fs, Map(limit), off, cnt) == buf + ReadBlocks(fs.disk, fs.blockSize, bs, off, cnt, headway)
      {
        var address, size := Chunk(off, cnt, headway, limit);
        ReadTurn(fs.disk, fs.blockSize, bs, off, cnt, headway, buf);
        buf := buf + Get(fs.disk, address, size);
        headway := headway + size;
      }
      ReadStands(buf, off, cnt, limit);
    }

    /** What `read` returns, in plain arithmetic. */
    lemma ReadStands(buf: seq<nat>, off: nat, cnt: nat, limit: nat)
      requires Valid() && limit <= Limit(PerLevel(fs)) && off + cnt <= Address(fs.blockSize, limit, 0)
      requires buf == ReadAll(fs, Map(limit), off, cnt)
      ensures |buf| == cnt && forall k :: 0 <= k < cnt ==> Stands(fs, off + k, buf[k])
    {
      hide Limit, Address, Stands, FilePlaces;
      assert |buf| == cnt by {
        ReadsFile(fs.disk, fs.blockSize, Blocks(fs, Map(limit)), off, cnt, 0, 0);
      }
      forall k | 0 <= k < cnt ensures Stands(fs, off + k, buf[k]) {
        ReadLayout(fs, limit, off, cnt, k);
      }
    }

    /** The chunk loop of `inode::write`. */
    method WriteChunks(off: nat, buf: seq<nat>, ghost limit: nat)
      requires Valid() && limit <= Limit(PerLevel(fs)) && off + |buf| <= Address(fs.blockSize, limit, 0)
      modifies this`fs
      ensures Valid() && fs.blockSize == old(fs).blockSize && fs == WriteFrom(old(fs), old(Map(limit)), off, buf, 0)
    {
      hide Put, Byte, Address, At, Limit, FilePlaces;
      ghost var ps, target, size0 := Map(limit), WriteFrom(fs, Map(limit), off, buf, 0), fs.blockSize;
      var headway := 0;
      while headway < |buf|
        invariant 0 <= headway <= |buf| && Valid() && fs.blockSize == size0 && AllFit(fs, ps)
        invariant target == WriteFrom(fs, ps, off, buf, headway)
      {
        var address, size := Chunk(off, |buf|, headway, limit);
        fs := fs.(disk := Put(fs.disk, address, buf[headway..headway + size]));
        headway := headway + size;
      }
    }

    /**
     `inode::write`: `resize`, whose result it does not look at, then the chunk loop. The
     contract holds for any `limit` on the file blocks that the range stays below.
     */
    method Write(off: nat, buf: seq<nat>, ghost limit: nat)
      requires Valid() && InView(fs, limit, off + |buf|)
      modifies this
      ensures var g := Resized(old(fs), old(sectors), sectorSize, limit, off + |buf|);
        && Valid() && sectors == old(sectors) + g.added * (g.fs.blockSize / sectorSize)
        && fs == Written(g.fs, limit, off, buf)
    {
      hide Grow, WriteFrom, Address, Limit, FilePlaces, Needed;
      NeededIs(fs.blockSize, off + |buf|, limit);
      var result := Resize(off, |buf|, limit);
      WriteChunks(off, buf, limit);
    }

    /** One turn of the loop of `resize`. */
    method AddBlock(i: nat) returns (result: int)
      requires Valid() && i < Limit(PerLevel(fs))
      modifies this
      ensures Valid() && result == if Alloc(old(fs).groups).0.Some? then 0 else -1
      ensures result == -1 ==> fs == old(fs) && sectors == old(sectors)
      ensures result == 0 ==> fs == GrowOne(old(fs), i).1 && sectors == old(sectors) + fs.blockSize / sectorSize
    {
      hide Alloc, SetPlace, Limit, PlaceOf;
      var block := AllocBlock();
      if block == -1 {
        return -1;
      }
      sectors := sectors + fs.blockSize / sectorSize;
      var stored := SetBlock(i, block % 0x1_0000_0000);
      return 0;
    }

    /** `inode::resize`, except for the file size. */
    method Resize(start: nat, cnt: nat, ghost limit: nat) returns (result: int)
      requires Valid() && InView(fs, limit, start + cnt)
      modifies this
      ensures var g := Resized(old(fs), old(sectors), sectorSize, limit, start + cnt);
        && Valid() && fs == g.fs && sectors == old(sectors) + g.added * (fs.blockSize / sectorSize)
        && result == if g.complete then 0 else -1
    {
      hide Alloc, SetPlace, Limit, PlaceOf, GrowOne, Grow;
      if start + cnt < sectors * sectorSize {
        return 0;
      }
      var i, end := DivRoundup(sectors * sectorSize, fs.blockSize), DivRoundup(start + cnt, fs.blockSize);
      ghost var goal, size0, step, added := Grow(fs, i, end), fs.blockSize, fs.blockSize / sectorSize, 0;
      while i < end
        invariant Valid() && fs.blockSize == size0 && sectors == old(sectors) + added * step
        invariant var g := Grow(fs, i, end); goal.fs == g.fs && goal.complete == g.complete && goal.added == added + g.added
        decreases if i < end then end - i else 0
      {
        GrowTurn(fs, i, end);
        result := AddBlock(i);
        if result == -1 {
          return -1;
        }
        assert (added + 1) * step == added * step + step;
        i := i + 1;
        added := added + 1;
      }
      GrowTurn(fs, i, end);
      return 0;
    }

    /** The bit loop of `bgd::alloc_block`: the first clear bit among the first `block_size`. */
    method FindClear(bits: set<nat>) returns (i: nat)
      ensures i == ClearBit(bits, fs.blockSize, 0)
    {
      i := 0;
      while i < fs.blockSize && i in bits
        invariant i <= fs.blockSize && ClearBit(bits, fs.blockSize, 0) == ClearBit(bits, fs.blockSize, i)
      {
        i := i + 1;
      }
    }

    /** `fs::alloc_block`, each turn on the descriptor that its group index gives; -1 when none has a block. */
    method AllocBlock() returns (block: int)
      requires Valid()
      modifies this`fs
      ensures Valid() && fs == old(fs).(groups := Alloc(old(fs).groups).1)
      ensures block == match Alloc(old(fs).groups).0 case Some(b) => b case None => -1
    {
      var g := 0;
      while g < |fs.groups.list|
        invariant g <= |fs.groups.list| && fs == old(fs) && StopIndex(fs.groups, 0) == StopIndex(fs.groups, g)
      {
        var d := Descriptor(fs.groups, g);
        var group := fs.groups.list[d];
        var i := FindClear(group.bits);
        if group.unallocated != 0 && i < fs.blockSize {
          fs := fs.(groups := fs.groups.(list := fs.groups.list[d := Group(group.bits + {i}, group.unallocated - 1)]));
          return g * fs.groups.perGroup + i;
        }
        g := g + 1;
      }
      return -1;
    }

    /** The step `if(!raw.blocks[r])` of `set_block`. */
    method EnsureRoot(r: nat) returns (ok: bool)
      requires Valid() && r < 15
      modifies this`fs
      ensures Valid() && (ok, fs) == Ext2.EnsureRoot(old(fs), r)
    {
      hide Alloc;
      if fs.blocks[r] == 0 {
        var block := AllocBlock();
        if block == -1 {
          return false;
        }
        fs := fs.(blocks := fs.blocks[r := block % 0x1_0000_0000]);
      }
      return true;
    }

    /** The step `if(!indirect_block)` of `set_block`. */
    method EnsureIndirect(s: nat) returns (ok: bool, indirect: nat)
      requires Valid() && s < PerLevel(fs)
      modifies this`fs
      ensures Valid() && (ok, fs) == Ext2.EnsureIndirect(old(fs), s)
      ensures ok ==> indirect == Indirect(fs, s)
    {
      hide Put, Byte, Word, Alloc;
      indirect := Slot(fs, fs.blocks[13], s);
      if indirect == 0 {
        var block := AllocBlock();
        if block == -1 {
          return false, 0;
        }
        SetSlotWrites(fs, fs.blocks[13], s, block, fs.blocks[13], s);
        indirect := block % 0x1_0000_0000;
        fs := SetSlot(fs, fs.blocks[13], s, block);
      }
      return true, indirect;
    }

    /** `inode::set_block` below the triply indirect range. */
    method SetBlock(iblock: nat, b: nat) returns (result: int)
      requires Valid() && iblock < Limit(PerLevel(fs))
      modifies this`fs
      ensures Valid() && fs == Ext2.SetBlock(old(fs), iblock, b).1
      ensures result == if Ext2.SetBlock(old(fs), iblock, b).0 then b else -1
    {
      hide Put, Byte, Word, Slot, Alloc;
      var n := PerLevel(fs);
      PlacesDistinct(n, iblock, iblock);
      if iblock < 12 {
        fs := fs.(blocks := fs.blocks[iblock := b]);
        return b;
      }
      var j := iblock - 12;
      if j < n {
        var ok := EnsureRoot(12);
        return if ok then b else -1;
      }
      j := j - n;
      var single, offset := j / n, j % n;
      var ok := EnsureRoot(13);
      if !ok {
        return -1;
      }
      var ok2, indirect := EnsureIndirect(single);
      if !ok2 {
        return -1;
      }
      fs := SetSlot(fs, indirect, offset, b);
      return b;
    }
  }
}
