/**
 `inode::read` and `inode::write`: the loops look the block up again for every chunk, so the
 writes must leave the pointers alone that later lookups go through.
 */
module Ext2Files {
  import opened Ext2
  import opened BlockIo

  type Places = seq<Place>

  predicate AllFit(fs: Fs, ps: Places) {
    Sizes(fs) && forall i :: 0 <= i < |ps| ==> ps[i].Fits(PerLevel(fs))
  }

  /** The disk blocks that the block map gives for these places. */
  function Blocks(fs: Fs, ps: Places): (r: seq<nat>)
    requires AllFit(fs, ps)
    ensures |r| == |ps| && forall i :: 0 <= i < |ps| ==> r[i] == At(fs, ps[i])
  {
    seq(|ps|, i requires 0 <= i < |ps| => At(fs, ps[i]))
  }

  /** Block `b` is a pointer block on the way to `p`. */
  predicate Uses(fs: Fs, p: Place, b: nat)
    requires |fs.blocks| == 15
  {
    match p
    case Direct(_) => false
    case Single(_) => b == fs.blocks[12]
    case Double(s, _) => b == fs.blocks[13] || b == Indirect(fs, s)
  }

  /** File blocks `i` and `j` share no disk block, and block `i` holds no pointer on the way to `j`. */
  predicate Separate(fs: Fs, ps: Places, i: nat, j: nat)
    requires AllFit(fs, ps) && i < |ps| && j < |ps|
  {
    (i != j ==> At(fs, ps[i]) != At(fs, ps[j])) && !Uses(fs, ps[j], At(fs, ps[i]))
  }

  /** The file blocks lie in distinct disk blocks, none of which is a pointer block of the file. */
  ghost predicate FileValid(fs: Fs, ps: Places) {
    AllFit(fs, ps) &&
    forall i, j {:trigger Separate(fs, ps, i, j)} :: 0 <= i < |ps| && 0 <= j < |ps| ==> Separate(fs, ps, i, j)
  }

  lemma ValidBlocksDistinct(fs: Fs, ps: Places)
    requires FileValid(fs, ps)
    ensures Distinct(Blocks(fs, ps))
  {
    forall i, j | 0 <= i < j < |ps|
      ensures Blocks(fs, ps)[i] != Blocks(fs, ps)[j]
    {
      assert Separate(fs, ps, i, j);
    }
  }

  /** A disk write inside block `b`. */
  function WriteIn(fs: Fs, b: nat, offset: nat, bytes: seq<nat>): Fs {
    fs.(disk := Put(fs.disk, Address(fs.blockSize, b, offset), bytes))
  }

  lemma WriteInByte(fs: Fs, b: nat, offset: nat, bytes: seq<nat>, c: nat, k: nat, i: nat)
    requires Sizes(fs) && offset + |bytes| <= fs.blockSize && k < PerLevel(fs) && c != b && i < 4
    ensures Byte(WriteIn(fs, b, offset, bytes).disk, SlotAddress(fs.blockSize, c, k) + i) ==
      Byte(fs.disk, SlotAddress(fs.blockSize, c, k) + i)
  {
    hide Put, Byte, Address;
    AddressIs(fs.blockSize, c, k * 4);
    AddressAdd(fs.blockSize, c, k * 4, i);
    PutInBlock(fs.disk, fs.blockSize, b, offset, bytes, c, k * 4 + i);
  }

  lemma WriteInSlot(fs: Fs, b: nat, offset: nat, bytes: seq<nat>, c: nat, k: nat)
    requires Sizes(fs) && offset + |bytes| <= fs.blockSize && k < PerLevel(fs) && c != b
    ensures Slot(WriteIn(fs, b, offset, bytes), c, k) == Slot(fs, c, k)
  {
    hide Put, Byte, Address, SlotAddress;
    WriteInByte(fs, b, offset, bytes, c, k, 0);
    WriteInByte(fs, b, offset, bytes, c, k, 1);
    WriteInByte(fs, b, offset, bytes, c, k, 2);
    WriteInByte(fs, b, offset, bytes, c, k, 3);
  }

  /** A write inside a block that no pointer uses leaves the place as it was. */
  lemma WriteInPlace(fs: Fs, b: nat, offset: nat, bytes: seq<nat>, p: Place)
    requires Sizes(fs) && offset + |bytes| <= fs.blockSize && p.Fits(PerLevel(fs)) && !Uses(fs, p, b)
    ensures var r := WriteIn(fs, b, offset, bytes);
      At(r, p) == At(fs, p) && forall c :: Uses(r, p, c) <==> Uses(fs, p, c)
  {
    match p
    case Direct(_) =>
    case Single(k) => WriteInSlot(fs, b, offset, bytes, fs.blocks[12], k);
    case Double(s, o) =>
      WriteInSlot(fs, b, offset, bytes, fs.blocks[13], s);
      WriteInSlot(fs, b, offset, bytes, Indirect(fs, s), o);
  }

  /** A write inside a data block changes no place of the file, so the file stays valid. */
  lemma WriteKeepsMap(fs: Fs, ps: Places, i: nat, offset: nat, bytes: seq<nat>)
    requires FileValid(fs, ps) && i < |ps| && offset + |bytes| <= fs.blockSize
    ensures var r := WriteIn(fs, At(fs, ps[i]), offset, bytes);
      FileValid(r, ps) && Blocks(r, ps) == Blocks(fs, ps)
  {
    var b := At(fs, ps[i]);
    var r := WriteIn(fs, b, offset, bytes);
    forall j | 0 <= j < |ps|
      ensures At(r, ps[j]) == At(fs, ps[j])
      ensures forall c :: Uses(r, ps[j], c) <==> Uses(fs, ps[j], c)
    {
      assert Separate(fs, ps, i, j);
      WriteInPlace(fs, b, offset, bytes, ps[j]);
    }
    forall j, k | 0 <= j < |ps| && 0 <= k < |ps|
      ensures Separate(r, ps, j, k)
    {
      assert Separate(fs, ps, j, k);
    }
  }

  /** One turn of the loop of `inode::write`, with the block looked up in the file system as it is now. */
  function WriteStep(fs: Fs, ps: Places, off: nat, buf: seq<nat>, headway: nat): Fs
    requires AllFit(fs, ps) && headway < |buf| && off + |buf| <= Address(fs.blockSize, |ps|, 0)
  {
    fs.(disk := WriteChunk(fs.disk, fs.blockSize, Blocks(fs, ps), off, buf, headway))
  }

  /** The loop of `inode::write` from `headway` on. */
  function WriteFrom(fs: Fs, ps: Places, off: nat, buf: seq<nat>, headway: nat): (r: Fs)
    requires AllFit(fs, ps) && headway <= |buf| && off + |buf| <= Address(fs.blockSize, |ps|, 0)
    ensures r == fs.(disk := r.disk)
    decreases |buf| - headway
  {
    if headway == |buf| then fs
    else
      WriteFrom(WriteStep(fs, ps, off, buf, headway), ps, off, buf, headway + ChunkLen(fs.blockSize, off, |buf|, headway))
  }

  lemma StepKeepsMap(fs: Fs, ps: Places, off: nat, buf: seq<nat>, headway: nat)
    requires FileValid(fs, ps) && headway < |buf| && off + |buf| <= Address(fs.blockSize, |ps|, 0)
    ensures var r := WriteStep(fs, ps, off, buf, headway); FileValid(r, ps) && Blocks(r, ps) == Blocks(fs, ps)
  {
    hide At, Put, Byte, Address;
    var i, y := BlockOf(fs.blockSize, off + headway, |ps|), OffsetOf(fs.blockSize, off + headway);
    WriteKeepsMap(fs, ps, i, y, buf[headway..headway + ChunkLen(fs.blockSize, off, |buf|, headway)]);
  }

  /** Looking every chunk up anew comes to the same as a transfer over the blocks the file had at the start. */
  lemma {:induction false} WriteUsesOneMap(fs: Fs, ps: Places, off: nat, buf: seq<nat>, headway: nat)
    requires FileValid(fs, ps) && headway <= |buf| && off + |buf| <= Address(fs.blockSize, |ps|, 0)
    ensures var r := WriteFrom(fs, ps, off, buf, headway);
      && r == fs.(disk := WriteBlocks(fs.disk, fs.blockSize, Blocks(fs, ps), off, buf, headway))
      && FileValid(r, ps) && Blocks(r, ps) == Blocks(fs, ps)
    decreases |buf| - headway
  {
    hide At, Put, Byte;
    if headway < |buf| {
      StepKeepsMap(fs, ps, off, buf, headway);
      WriteUsesOneMap(WriteStep(fs, ps, off, buf, headway), ps, off, buf, headway + ChunkLen(fs.blockSize, off, |buf|, headway));
    }
  }

  /** `inode::read` of `cnt` bytes at `off`. */
  function ReadAll(fs: Fs, ps: Places, off: nat, cnt: nat): seq<nat>
    requires AllFit(fs, ps) && off + cnt <= Address(fs.blockSize, |ps|, 0)
  {
    ReadBlocks(fs.disk, fs.blockSize, Blocks(fs, ps), off, cnt, 0)
  }

  /** Writing and then reading any range of the file gives the old bytes overlaid with the written ones. */
  lemma WriteThenRead(fs: Fs, ps: Places, off: nat, buf: seq<nat>, at: nat, cnt: nat, k: nat)
    requires FileValid(fs, ps) && off + |buf| <= Address(fs.blockSize, |ps|, 0)
    requires at + cnt <= Address(fs.blockSize, |ps|, 0) && k < cnt
    ensures var r := WriteFrom(fs, ps, off, buf, 0);
      && FileValid(r, ps) && r.blockSize == fs.blockSize && |ReadAll(r, ps, at, cnt)| == cnt
      && ReadAll(r, ps, at, cnt)[k] ==
         if off <= at + k < off + |buf| then buf[at + k - off] else FileAt(fs.disk, fs.blockSize, Blocks(fs, ps), at + k)
  {
    hide At, Put, Byte, WriteFrom, WriteBlocks, ReadBlocks, Address;
    var bs := Blocks(fs, ps);
    WriteUsesOneMap(fs, ps, off, buf, 0);
    ValidBlocksDistinct(fs, ps);
    WritesFile(fs.disk, fs.blockSize, bs, off, buf, 0, at + k);
    ReadsFile(WriteBlocks(fs.disk, fs.blockSize, bs, off, buf, 0), fs.blockSize, bs, at, cnt, 0, k);
  }

  /** A write changes no byte of any block that is not one of the file's data blocks. */
  lemma OtherFilesUnchanged(fs: Fs, ps: Places, off: nat, buf: seq<nat>, c: nat, y: nat)
    requires FileValid(fs, ps) && off + |buf| <= Address(fs.blockSize, |ps|, 0)
    requires c !in Blocks(fs, ps) && y < fs.blockSize
    ensures Byte(WriteFrom(fs, ps, off, buf, 0).disk, Address(fs.blockSize, c, y)) == Byte(fs.disk, Address(fs.blockSize, c, y))
  {
    hide At, Put, Byte, WriteFrom, WriteBlocks, Address;
    WriteUsesOneMap(fs, ps, off, buf, 0);
    WriteSparesOthers(fs.disk, fs.blockSize, Blocks(fs, ps), off, buf, 0, c, y);
  }

  /** Another inode with the block array `blocks`: neither its data nor its pointers lie in the blocks `bs`. */
  ghost predicate Foreign(fs: Fs, blocks: seq<nat>, qs: Places, bs: seq<nat>) {
    var other := fs.(blocks := blocks);
    AllFit(other, qs) &&
    forall j :: 0 <= j < |qs| ==> At(other, qs[j]) !in bs && forall b :: Uses(other, qs[j], b) ==> b !in bs
  }

  lemma OtherByteUnchanged(fs: Fs, ps: Places, off: nat, buf: seq<nat>, c: nat, k: nat, i: nat)
    requires FileValid(fs, ps) && off + |buf| <= Address(fs.blockSize, |ps|, 0)
    requires c !in Blocks(fs, ps) && k < PerLevel(fs) && i < 4
    ensures Byte(WriteFrom(fs, ps, off, buf, 0).disk, SlotAddress(fs.blockSize, c, k) + i) ==
      Byte(fs.disk, SlotAddress(fs.blockSize, c, k) + i)
  {
    hide At, Put, Byte, WriteFrom, Address, Blocks;
    AddressIs(fs.blockSize, c, k * 4);
    AddressAdd(fs.blockSize, c, k * 4, i);
    OtherFilesUnchanged(fs, ps, off, buf, c, k * 4 + i);
  }

  lemma OtherSlotUnchanged(fs: Fs, ps: Places, off: nat, buf: seq<nat>, c: nat, k: nat)
    requires FileValid(fs, ps) && off + |buf| <= Address(fs.blockSize, |ps|, 0)
    requires c !in Blocks(fs, ps) && k < PerLevel(fs)
    ensures Word(WriteFrom(fs, ps, off, buf, 0).disk, SlotAddress(fs.blockSize, c, k)) ==
      Word(fs.disk, SlotAddress(fs.blockSize, c, k))
  {
    hide At, Put, Byte, WriteFrom, Address, SlotAddress, Blocks;
    OtherByteUnchanged(fs, ps, off, buf, c, k, 0);
    OtherByteUnchanged(fs, ps, off, buf, c, k, 1);
    OtherByteUnchanged(fs, ps, off, buf, c, k, 2);
    OtherByteUnchanged(fs, ps, off, buf, c, k, 3);
  }

  /** A write leaves the block map of another file alone. */
  lemma OtherMapUnchanged(fs: Fs, ps: Places, off: nat, buf: seq<nat>, blocks: seq<nat>, qs: Places)
    requires FileValid(fs, ps) && off + |buf| <= Address(fs.blockSize, |ps|, 0)
    requires Foreign(fs, blocks, qs, Blocks(fs, ps))
    ensures var r := WriteFrom(fs, ps, off, buf, 0).(blocks := blocks);
      AllFit(r, qs) && Blocks(r, qs) == Blocks(fs.(blocks := blocks), qs) && r.blockSize == fs.blockSize
  {
    hide Put, Byte, Word, WriteFrom, WriteBlocks, Address, SlotAddress;
    WriteUsesOneMap(fs, ps, off, buf, 0);
    var other, r := fs.(blocks := blocks), WriteFrom(fs, ps, off, buf, 0).(blocks := blocks);
    forall j | 0 <= j < |qs|
      ensures At(r, qs[j]) == At(other, qs[j])
    {
      match qs[j]
      case Direct(_) =>
      case Single(k) =>
        assert Uses(other, qs[j], blocks[12]);
        OtherSlotUnchanged(fs, ps, off, buf, blocks[12], k);
      case Double(s, o) =>
        assert Uses(other, qs[j], blocks[13]) && Uses(other, qs[j], Indirect(other, s));
        OtherSlotUnchanged(fs, ps, off, buf, blocks[13], s);
        OtherSlotUnchanged(fs, ps, off, buf, Indirect(other, s), o);
    }
  }

  predicate SameByte(d: Disk, d': Disk, size: nat, bs: seq<nat>, j: nat, y: nat)
    requires j < |bs|
  {
    Byte(d', Address(size, bs[j], y)) == Byte(d, Address(size, bs[j], y))
  }

  lemma SameBytesRead(d: Disk, d': Disk, size: nat, bs: seq<nat>, at: nat, cnt: nat)
    requires size > 0 && at + cnt <= End(size, bs)
    requires forall j: nat, y: nat {:trigger SameByte(d, d', size, bs, j, y)} :: j < |bs| && y < size ==> SameByte(d, d', size, bs, j, y)
    ensures ReadBlocks(d', size, bs, at, cnt, 0) == ReadBlocks(d, size, bs, at, cnt, 0)
  {
    hide ReadBlocks, Address, Byte;
    ReadsFile(d, size, bs, at, cnt, 0, 0);
    ReadsFile(d', size, bs, at, cnt, 0, 0);
    forall k | 0 <= k < cnt
      ensures ReadBlocks(d', size, bs, at, cnt, 0)[k] == ReadBlocks(d, size, bs, at, cnt, 0)[k]
    {
      ReadsFile(d, size, bs, at, cnt, 0, k);
      ReadsFile(d', size, bs, at, cnt, 0, k);
      assert SameByte(d, d', size, bs, BlockOf(size, at + k, |bs|), OffsetOf(size, at + k));
    }
  }

  /** So reading any range of another file gives the same bytes after the write as before. */
  lemma OtherFileReadsSame(fs: Fs, ps: Places, off: nat, buf: seq<nat>, blocks: seq<nat>, qs: Places, at: nat, cnt: nat)
    requires FileValid(fs, ps) && off + |buf| <= Address(fs.blockSize, |ps|, 0)
    requires Foreign(fs, blocks, qs, Blocks(fs, ps)) && at + cnt <= Address(fs.blockSize, |qs|, 0)
    ensures var r := WriteFrom(fs, ps, off, buf, 0).(blocks := blocks);
      && AllFit(r, qs) && r.blockSize == fs.blockSize
      && ReadAll(r, qs, at, cnt) == ReadAll(fs.(blocks := blocks), qs, at, cnt)
  {
    hide At, Put, Byte, Word, WriteFrom, WriteBlocks, ReadBlocks, Address, Uses;
    OtherMapUnchanged(fs, ps, off, buf, blocks, qs);
    var bs := Blocks(fs.(blocks := blocks), qs);
    SameBytesRead(fs.disk, WriteFrom(fs, ps, off, buf, 0).disk, fs.blockSize, bs, at, cnt) by {
      forall j: nat, y: nat | j < |bs| && y < fs.blockSize
        ensures SameByte(fs.disk, WriteFrom(fs, ps, off, buf, 0).disk, fs.blockSize, bs, j, y)
      {
        OtherFilesUnchanged(fs, ps, off, buf, bs[j], y);
      }
    }
  }

  /** The places of the first `limit` file blocks of an inode. */
  function FilePlaces(n: nat, limit: nat): (r: Places)
    requires n > 0 && limit <= Limit(n)
    ensures |r| == limit && forall i :: 0 <= i < limit ==> r[i] == PlaceOf(n, i) && r[i].Fits(n)
  {
    if limit == 0 then []
    else
      PlacesDistinct(n, limit - 1, limit - 1);
      FilePlaces(n, limit - 1) + [PlaceOf(n, limit - 1)]
  }

  function Quotient(pos: nat, size: nat): nat
    requires size > 0
  {
    pos / size
  }

  function DiskAddress(size: nat, b: nat, y: nat): nat {
    b * size + y
  }

  /** The byte at a file position, in plain arithmetic: block quotient, offset remainder. */
  predicate Stands(fs: Fs, pos: nat, byte: nat)
    requires Sizes(fs)
  {
    var i := Quotient(pos, fs.blockSize);
    i < Limit(PerLevel(fs)) && byte == Byte(fs.disk, DiskAddress(fs.blockSize, Lookup(fs, i), pos % fs.blockSize))
  }

  /** `read` returns, position by position, the byte that the block map and the division give. */
  lemma ReadLayout(fs: Fs, limit: nat, off: nat, cnt: nat, k: nat)
    requires Sizes(fs) && limit <= Limit(PerLevel(fs)) && off + cnt <= Address(fs.blockSize, limit, 0) && k < cnt
    ensures |ReadAll(fs, FilePlaces(PerLevel(fs), limit), off, cnt)| == cnt
    ensures Stands(fs, off + k, ReadAll(fs, FilePlaces(PerLevel(fs), limit), off, cnt)[k])
  {
    hide Byte, Slot, Limit, PlaceOf, Address;
    var size, ps := fs.blockSize, FilePlaces(PerLevel(fs), limit);
    ReadsFile(fs.disk, size, Blocks(fs, ps), off, cnt, 0, k);
    SplitIs(size, off + k, limit);
    var i, y := BlockOf(size, off + k, limit), OffsetOf(size, off + k);
    AddressIs(size, Lookup(fs, i), y);
  }
}
