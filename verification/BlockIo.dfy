/** Chunked transfers over a file whose blocks lie in given disk blocks. */
module BlockIo {
  import opened Arithmetic
  import opened Ext2

  /** Byte `y` of block `b`, counted block by block. */
  function Address(size: nat, b: nat, y: nat): nat {
    if b == 0 then y else size + Address(size, b - 1, y)
  }

  /** It is the product that the source computes. */
  lemma {:induction false} AddressIs(size: nat, b: nat, y: nat)
    ensures Address(size, b, y) == b * size + y
  {
    if b > 0 {
      AddressIs(size, b - 1, y);
      assert b * size == (b - 1) * size + size;
    }
  }

  lemma {:induction false} AddressAdd(size: nat, b: nat, y: nat, d: nat)
    ensures Address(size, b, y + d) == Address(size, b, y) + d
  {
    if b > 0 {
      AddressAdd(size, b - 1, y, d);
    }
  }

  /** Different blocks never meet. */
  lemma {:induction false} AddressesApart(size: nat, b: nat, x: nat, c: nat, y: nat)
    requires x < size && y < size && b < c
    ensures Address(size, b, x) < Address(size, c, 0) <= Address(size, c, y)
  {
    AddressAdd(size, c, 0, y);
    if b > 0 {
      AddressesApart(size, b - 1, x, c - 1, y);
    }
  }

  /** The block index of file position `pos`, counted block by block, for a file of `count` blocks. */
  function BlockOf(size: nat, pos: nat, count: nat): (r: nat)
    requires size > 0 && pos < Address(size, count, 0)
    ensures r < count
    decreases count
  {
    if pos < size then 0 else 1 + BlockOf(size, pos - size, count - 1)
  }

  function OffsetOf(size: nat, pos: nat): (r: nat)
    requires size > 0
    ensures r < size
  {
    if pos < size then pos else OffsetOf(size, pos - size)
  }

  /** A position is its block index and offset, and nothing else is. */
  lemma {:induction false} Position(size: nat, pos: nat, count: nat, i: nat, y: nat)
    requires size > 0 && pos < Address(size, count, 0) && y < size
    ensures pos == Address(size, BlockOf(size, pos, count), OffsetOf(size, pos))
    ensures pos == Address(size, i, y) ==> i == BlockOf(size, pos, count) && y == OffsetOf(size, pos)
    decreases count
  {
    if pos >= size {
      Position(size, pos - size, count - 1, if i > 0 then i - 1 else 0, y);
    }
  }

  /** They are the quotient and the remainder that the source computes. */
  lemma SplitIs(size: nat, pos: nat, count: nat)
    requires size > 0 && pos < Address(size, count, 0)
    ensures BlockOf(size, pos, count) == pos / size && OffsetOf(size, pos) == pos % size
  {
    Position(size, pos, count, 0, 0);
    AddressIs(size, BlockOf(size, pos, count), OffsetOf(size, pos));
    QuotientUnique(pos, size, BlockOf(size, pos, count), OffsetOf(size, pos));
  }

  /** Positions of one chunk share the block and follow its offset; other positions do not. */
  lemma ChunkPositions(size: nat, pos: nat, count: nat, len: nat, x: nat)
    requires size > 0 && pos < Address(size, count, 0) && x < Address(size, count, 0)
    requires OffsetOf(size, pos) + len <= size
    ensures var i, y := BlockOf(size, pos, count), OffsetOf(size, pos);
      (pos <= x < pos + len <==> BlockOf(size, x, count) == i && y <= OffsetOf(size, x) < y + len)
    ensures pos <= x < pos + len ==> OffsetOf(size, x) == OffsetOf(size, pos) + (x - pos)
  {
    var i, y := BlockOf(size, pos, count), OffsetOf(size, pos);
    Position(size, pos, count, i, y);
    if pos <= x < pos + len {
      AddressAdd(size, i, y, x - pos);
      Position(size, x, count, i, y + (x - pos));
    }
    if BlockOf(size, x, count) == i && y <= OffsetOf(size, x) < y + len {
      Position(size, x, count, 0, 0);
      AddressAdd(size, i, y, OffsetOf(size, x) - y);
    }
  }

  /** The length of the chunk at `headway` of a transfer of `total` bytes at `off`. */
  function ChunkLen(size: nat, off: nat, total: nat, headway: nat): (r: nat)
    requires size > 0 && headway < total
    ensures 0 < r <= total - headway && OffsetOf(size, off + headway) + r <= size
  {
    var left, room := total - headway, size - OffsetOf(size, off + headway);
    if left > room then room else left
  }

  /** The first position behind a file in the disk blocks `bs`. */
  function End(size: nat, bs: seq<nat>): nat {
    Address(size, |bs|, 0)
  }

  /** Byte `x` of the file. */
  function FileAt(d: Disk, size: nat, bs: seq<nat>, x: nat): nat
    requires size > 0 && x < End(size, bs)
  {
    Byte(d, Address(size, bs[BlockOf(size, x, |bs|)], OffsetOf(size, x)))
  }

  /** The disk address of the chunk at `headway`. */
  function ChunkAddress(size: nat, bs: seq<nat>, pos: nat): nat
    requires size > 0 && pos < End(size, bs)
  {
    Address(size, bs[BlockOf(size, pos, |bs|)], OffsetOf(size, pos))
  }

  function WriteChunk(d: Disk, size: nat, bs: seq<nat>, off: nat, buf: seq<nat>, headway: nat): Disk
    requires size > 0 && headway < |buf| && off + |buf| <= End(size, bs)
  {
    Put(d, ChunkAddress(size, bs, off + headway), buf[headway..headway + ChunkLen(size, off, |buf|, headway)])
  }

  function WriteBlocks(d: Disk, size: nat, bs: seq<nat>, off: nat, buf: seq<nat>, headway: nat): Disk
    requires size > 0 && headway <= |buf| && off + |buf| <= End(size, bs)
    decreases |buf| - headway
  {
    if headway == |buf| then d
    else WriteBlocks(WriteChunk(d, size, bs, off, buf, headway), size, bs, off, buf, headway + ChunkLen(size, off, |buf|, headway))
  }

  function ReadChunk(d: Disk, size: nat, bs: seq<nat>, off: nat, cnt: nat, headway: nat): seq<nat>
    requires size > 0 && headway < cnt && off + cnt <= End(size, bs)
  {
    Get(d, ChunkAddress(size, bs, off + headway), ChunkLen(size, off, cnt, headway))
  }

  function ReadBlocks(d: Disk, size: nat, bs: seq<nat>, off: nat, cnt: nat, headway: nat): seq<nat>
    requires size > 0 && headway <= cnt && off + cnt <= End(size, bs)
    decreases cnt - headway
  {
    if headway == cnt then []
    else ReadChunk(d, size, bs, off, cnt, headway) + ReadBlocks(d, size, bs, off, cnt, headway + ChunkLen(size, off, cnt, headway))
  }

  predicate Distinct(bs: seq<nat>) {
    forall i, j :: 0 <= i < j < |bs| ==> bs[i] != bs[j]
  }

  /** A range of `len` bytes inside block `b` holds byte `y` of block `c` just when block and offset say so. */
  lemma InsideBlock(size: nat, b: nat, offset: nat, len: nat, c: nat, y: nat)
    requires offset + len <= size && y < size
    ensures var first, a := Address(size, b, offset), Address(size, c, y);
      && (first <= a < first + len <==> c == b && offset <= y < offset + len)
      && (c == b ==> a - first == y - offset)
  {
    AddressAdd(size, b, 0, offset);
    AddressAdd(size, c, 0, y);
    if b < c && len > 0 {
      AddressesApart(size, b, offset + len - 1, c, y);
      AddressAdd(size, b, offset, len - 1);
    } else if c < b && len > 0 {
      AddressesApart(size, c, y, b, offset);
    }
  }

  /** A write inside block `b`, seen at byte `y` of block `c`. */
  lemma PutInBlock(d: Disk, size: nat, b: nat, offset: nat, bytes: seq<nat>, c: nat, y: nat)
    requires offset + |bytes| <= size && y < size
    ensures Byte(Put(d, Address(size, b, offset), bytes), Address(size, c, y)) ==
      if c == b && offset <= y < offset + |bytes| then bytes[y - offset] else Byte(d, Address(size, c, y))
  {
    InsideBlock(size, b, offset, |bytes|, c, y);
  }

  /** One turn of the write loop changes exactly the bytes of its chunk. */
  lemma ChunkWrites(d: Disk, size: nat, bs: seq<nat>, off: nat, buf: seq<nat>, headway: nat, x: nat)
    requires size > 0 && headway < |buf| && off + |buf| <= End(size, bs) && x < End(size, bs) && Distinct(bs)
    ensures var pos, len := off + headway, ChunkLen(size, off, |buf|, headway);
      FileAt(WriteChunk(d, size, bs, off, buf, headway), size, bs, x) ==
      if pos <= x < pos + len then buf[x - off] else FileAt(d, size, bs, x)
  {
    var pos, len := off + headway, ChunkLen(size, off, |buf|, headway);
    var i, j := BlockOf(size, pos, |bs|), BlockOf(size, x, |bs|);
    ChunkPositions(size, pos, |bs|, len, x);
    PutInBlock(d, size, bs[i], OffsetOf(size, pos), buf[headway..headway + len], bs[j], OffsetOf(size, x));
    assert bs[i] == bs[j] <==> i == j;
  }

  /** A whole write changes exactly the written bytes. */
  lemma {:induction false} WritesFile(d: Disk, size: nat, bs: seq<nat>, off: nat, buf: seq<nat>, headway: nat, x: nat)
    requires size > 0 && headway <= |buf| && off + |buf| <= End(size, bs) && x < End(size, bs) && Distinct(bs)
    ensures FileAt(WriteBlocks(d, size, bs, off, buf, headway), size, bs, x) ==
      if off + headway <= x < off + |buf| then buf[x - off] else FileAt(d, size, bs, x)
    decreases |buf| - headway
  {
    if headway < |buf| {
      ChunkWrites(d, size, bs, off, buf, headway, x);
      WritesFile(WriteChunk(d, size, bs, off, buf, headway), size, bs, off, buf, headway + ChunkLen(size, off, |buf|, headway), x);
    }
  }

  /** A write leaves every block alone that is not one of the file's. */
  lemma {:induction false} WriteSparesOthers(d: Disk, size: nat, bs: seq<nat>, off: nat, buf: seq<nat>, headway: nat, c: nat, y: nat)
    requires size > 0 && headway <= |buf| && off + |buf| <= End(size, bs) && y < size && c !in bs
    ensures Byte(WriteBlocks(d, size, bs, off, buf, headway), Address(size, c, y)) == Byte(d, Address(size, c, y))
    decreases |buf| - headway
  {
    if headway < |buf| {
      var len := ChunkLen(size, off, |buf|, headway);
      var i := BlockOf(size, off + headway, |bs|);
      assert bs[i] != c;
      PutInBlock(d, size, bs[i], OffsetOf(size, off + headway), buf[headway..headway + len], c, y);
      WriteSparesOthers(WriteChunk(d, size, bs, off, buf, headway), size, bs, off, buf, headway + len, c, y);
    }
  }

  lemma ChunkReads(d: Disk, size: nat, bs: seq<nat>, off: nat, cnt: nat, headway: nat, k: nat)
    requires size > 0 && headway < cnt && off + cnt <= End(size, bs) && k < ChunkLen(size, off, cnt, headway)
    ensures ReadChunk(d, size, bs, off, cnt, headway)[k] == FileAt(d, size, bs, off + headway + k)
  {
    var pos := off + headway;
    ChunkPositions(size, pos, |bs|, ChunkLen(size, off, cnt, headway), pos + k);
    AddressAdd(size, bs[BlockOf(size, pos, |bs|)], OffsetOf(size, pos), k);
  }

  /** A read returns the bytes of the file. */
  lemma {:induction false} ReadsFile(d: Disk, size: nat, bs: seq<nat>, off: nat, cnt: nat, headway: nat, k: nat)
    requires size > 0 && headway <= cnt && off + cnt <= End(size, bs)
    ensures |ReadBlocks(d, size, bs, off, cnt, headway)| == cnt - headway
    ensures k < cnt - headway ==> ReadBlocks(d, size, bs, off, cnt, headway)[k] == FileAt(d, size, bs, off + headway + k)
    decreases cnt - headway
  {
    if headway < cnt {
      var len := ChunkLen(size, off, cnt, headway);
      ChunkReads(d, size, bs, off, cnt, headway, if k < len then k else 0);
      ReadsFile(d, size, bs, off, cnt, headway + len, if k < len then 0 else k - len);
    }
  }
}
