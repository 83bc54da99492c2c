/** The physical page allocator of kernel/mm/pmm.cpp: aligned first fit over chunk bitmaps. */
module Pmm {
  import opened Wrappers
  import opened Arithmetic

  /** A memory chunk; its bitmap starts at bit `at` of the buffer that holds all bitmaps. */
  datatype Chunk = Chunk(base: nat, pages: nat, at: nat)

  /**
   The chunk list, the bits of the buffer that are set, and `total_used_mem`. The bitmaps share
   the buffer with each other and with the chunk nodes, and neither the scan nor the marking is
   bounded by `pages`.
   */
  datatype Memory = Memory(chunks: seq<Chunk>, bits: set<nat>, used: int)

  function AlignUp(a: nat, b: nat): nat
    requires b > 0
  {
    DivRoundup(a, b) * b
  }

  /** The bit at which the scan starts. */
  function FirstBit(c: Chunk, align: nat): nat
    requires align > 0
  {
    AlignUpAtLeast(c.base, align * 0x1000);
    (AlignUp(c.base, align * 0x1000) - c.base) / 0x1000
  }

  lemma AlignUpAtLeast(a: nat, b: nat)
    requires b > 0
    ensures AlignUp(a, b) >= a && AlignUp(a, b) % b == 0
  {
    var q, r := (a + (b - 1)) / b, (a + (b - 1)) % b;
    assert a + (b - 1) == q * b + r;
    QuotientUnique(q * b, b, q, 0);
  }

  /** No aligned address lies in between. */
  lemma AlignUpLeast(a: nat, b: nat, x: nat)
    requires b > 0 && x >= a && x % b == 0
    ensures AlignUp(a, b) <= x
  {
    var k := x / b;
    assert x == k * b;
    RoundupIff(a, b, k);
    ProductOrder(k, DivRoundup(a, b), b);
  }

  function Range(start: nat, cnt: nat): (r: set<nat>)
    ensures forall p: nat :: p in r <==> start <= p < start + cnt
  {
    if cnt == 0 then {} else Range(start, cnt - 1) + {start + cnt - 1}
  }

  /** The candidate positions of the outer loop. */
  predicate Candidate(c: Chunk, align: nat, i: nat)
    requires align > 0
  {
    FirstBit(c, align) <= i < c.pages && (i - FirstBit(c, align)) % align == 0
  }

  predicate FreeRun(c: Chunk, bits: set<nat>, i: nat, cnt: nat) {
    Range(c.at + i, cnt) !! bits
  }

  /** The outer loop from position `i`: the first candidate whose `cnt` bits are all clear. */
  function Scan(c: Chunk, bits: set<nat>, i: nat, cnt: nat, align: nat): Option<nat>
    requires align > 0
    decreases c.pages - i
  {
    if i >= c.pages then None
    else if cnt > 0 && FreeRun(c, bits, i, cnt) then Some(i)
    else Scan(c, bits, i + align, cnt, align)
  }

  function Find(c: Chunk, bits: set<nat>, cnt: nat, align: nat): Option<nat>
    requires align > 0
  {
    Scan(c, bits, FirstBit(c, align), cnt, align)
  }

  /** The scan finds the first free candidate, and nothing only if there is none. */
  lemma {:induction false} ScanIsFirstFit(c: Chunk, bits: set<nat>, i: nat, cnt: nat, align: nat)
    requires align > 0 && i >= FirstBit(c, align) && (i - FirstBit(c, align)) % align == 0
    ensures var r := Scan(c, bits, i, cnt, align);
      && (r.Some? ==> Candidate(c, align, r.value) && i <= r.value && cnt > 0 && FreeRun(c, bits, r.value, cnt))
      && (forall j: nat :: i <= j && Candidate(c, align, j) && cnt > 0 && FreeRun(c, bits, j, cnt) ==> r.Some? && r.value <= j)
    decreases c.pages - i
  {
    if i < c.pages && !(cnt > 0 && FreeRun(c, bits, i, cnt)) {
      StepAligned(i - FirstBit(c, align), align);
      ScanIsFirstFit(c, bits, i + align, cnt, align);
      forall j: nat | i <= j && Candidate(c, align, j) && cnt > 0 && FreeRun(c, bits, j, cnt)
        ensures i + align <= j
      {
        NextMultiple(i - FirstBit(c, align), j - FirstBit(c, align), align);
      }
    }
  }

  lemma StepAligned(x: nat, m: nat)
    requires m > 0 && x % m == 0
    ensures (x + m) % m == 0
  {
    QuotientUnique(x + m, m, x / m + 1, 0);
  }

  lemma NextMultiple(x: nat, y: nat, m: nat)
    requires m > 0 && x % m == 0 && y % m == 0 && x < y
    ensures x + m <= y
  {
    var d := y / m - x / m;
    assert y - x == d * m;
    ProductSign(d, m);
  }

  /** `mem_chunk::alloc` finds the first aligned free run of its chunk. */
  lemma FindIsFirstFit(c: Chunk, bits: set<nat>, cnt: nat, align: nat)
    requires align > 0
    ensures var r := Find(c, bits, cnt, align);
      && (r.Some? ==> Candidate(c, align, r.value) && cnt > 0 && FreeRun(c, bits, r.value, cnt))
      && (forall j: nat :: Candidate(c, align, j) && cnt > 0 && FreeRun(c, bits, j, cnt) ==> r.Some? && r.value <= j)
  {
    ScanIsFirstFit(c, bits, FirstBit(c, align), cnt, align);
  }

  /** An aligned free run that ends inside the chunk. */
  ghost predicate RoomInside(c: Chunk, bits: set<nat>, cnt: nat, align: nat)
    requires align > 0
  {
    exists i: nat :: Candidate(c, align, i) && cnt > 0 && FreeRun(c, bits, i, cnt) && i + cnt <= c.pages
  }

  /** The result lies inside the chunk exactly when some aligned free run does: the scan does not check it. */
  lemma InsideIffRoom(c: Chunk, bits: set<nat>, cnt: nat, align: nat)
    requires align > 0
    ensures var r := Find(c, bits, cnt, align); r.Some? && r.value + cnt <= c.pages <==> RoomInside(c, bits, cnt, align)
  {
    FindIsFirstFit(c, bits, cnt, align);
  }

  /** A one-page chunk hands out two pages. */
  lemma OverrunExample()
    ensures var c := Chunk(0x1000, 1, 448); Find(c, {}, 2, 1) == Some(0) && !RoomInside(c, {}, 2, 1)
  {
    var c := Chunk(0x1000, 1, 448);
    assert FirstBit(c, 1) == 0;
  }

  /** The scan starts at the bit of the first aligned address. */
  lemma FirstBitIs(c: Chunk, align: nat)
    requires align > 0 && c.base % 0x1000 == 0
    ensures AlignUp(c.base, align * 0x1000) == c.base + FirstBit(c, align) * 0x1000
    ensures AlignUp(c.base, align * 0x1000) % (align * 0x1000) == 0
  {
    var unit := align * 0x1000;
    AlignUpAtLeast(c.base, unit);
    var first := AlignUp(c.base, unit);
    var k, l := first / unit * align, c.base / 0x1000;
    assert first == first / unit * unit == k * 0x1000 by {
      hide AlignUp;
    }
    QuotientUnique(first - c.base, 0x1000, k - l, 0);
  }

  /** The address of bit `i`, as `alloc_base` is advanced with the scan, is where the bit says and is aligned. */
  lemma AddressTracksBit(c: Chunk, align: nat, i: nat)
    requires align > 0 && c.base % 0x1000 == 0 && FirstBit(c, align) <= i && (i - FirstBit(c, align)) % align == 0
    ensures var first := AlignUp(c.base, align * 0x1000);
      && first + (i - FirstBit(c, align)) * 0x1000 == c.base + i * 0x1000
      && (c.base + i * 0x1000) % (align * 0x1000) == 0
  {
    hide AlignUp, FirstBit;
    FirstBitIs(c, align);
    var unit, first, b := align * 0x1000, AlignUp(c.base, align * 0x1000), FirstBit(c, align);
    var k, d := first / unit, (i - b) / align;
    assert (i - b) * 0x1000 == d * unit;
    assert first == k * unit;
    QuotientUnique(c.base + i * 0x1000, unit, k + d, 0);
  }

  /** The candidates are exactly the pages of the chunk at aligned addresses. */
  lemma CandidateIff(c: Chunk, align: nat, i: nat)
    requires align > 0 && c.base % 0x1000 == 0
    ensures Candidate(c, align, i) <==> i < c.pages && (c.base + i * 0x1000) % (align * 0x1000) == 0
  {
    hide AlignUp, FirstBit;
    if Candidate(c, align, i) {
      AddressTracksBit(c, align, i);
    }
    if (c.base + i * 0x1000) % (align * 0x1000) == 0 {
      AlignedIsCandidate(c, align, i);
    }
  }

  lemma AlignedIsCandidate(c: Chunk, align: nat, i: nat)
    requires align > 0 && c.base % 0x1000 == 0 && (c.base + i * 0x1000) % (align * 0x1000) == 0
    ensures FirstBit(c, align) <= i && (i - FirstBit(c, align)) % align == 0
  {
    hide AlignUp, FirstBit;
    var unit, x, first := align * 0x1000, c.base + i * 0x1000, AlignUp(c.base, align * 0x1000);
    FirstBitIs(c, align);
    AlignUpLeast(c.base, unit, x);
    var d := x / unit - first / unit;
    assert x - first == d * unit;
    assert (i - FirstBit(c, align)) * 0x1000 == d * align * 0x1000;
    QuotientUnique(i - FirstBit(c, align), align, d, 0);
  }

  // ---------------------------------------------------------------------------------------
  // The chunk list

  /** A run of pages handed out: bits `start` to `start + cnt` of a chunk. */
  datatype Live = Live(chunk: nat, start: nat, cnt: nat)

  /** The first chunk from `k` on whose scan finds something, or the number of chunks. */
  function ChunkFor(chunks: seq<Chunk>, bits: set<nat>, cnt: nat, align: nat, k: nat): (r: nat)
    requires align > 0 && k <= |chunks|
    ensures k <= r <= |chunks|
    ensures r < |chunks| ==> Find(chunks[r], bits, cnt, align).Some?
    ensures forall j :: k <= j < r ==> Find(chunks[j], bits, cnt, align).None?
    decreases |chunks| - k
  {
    if k == |chunks| || Find(chunks[k], bits, cnt, align).Some? then k else ChunkFor(chunks, bits, cnt, align, k + 1)
  }

  /** What `pmm::alloc` hands out. */
  function Choice(m: Memory, cnt: nat, align: nat): Option<Live>
    requires align > 0
  {
    var k := ChunkFor(m.chunks, m.bits, cnt, align, 0);
    if k == |m.chunks| then None else Some(Live(k, Find(m.chunks[k], m.bits, cnt, align).value, cnt))
  }

  /** Some aligned position of the chunk starts a run of `cnt` clear bits, inside the chunk or not. */
  ghost predicate HasRun(c: Chunk, bits: set<nat>, cnt: nat, align: nat)
    requires align > 0
  {
    exists i: nat :: Candidate(c, align, i) && cnt > 0 && FreeRun(c, bits, i, cnt)
  }

  /** Chunk `k` is the first one with such a run, and one of its runs ends inside it. */
  ghost predicate FirstRoom(chunks: seq<Chunk>, bits: set<nat>, cnt: nat, align: nat, k: nat)
    requires align > 0
  {
    k < |chunks| && RoomInside(chunks[k], bits, cnt, align) && forall j :: 0 <= j < k ==> !HasRun(chunks[j], bits, cnt, align)
  }

  ghost predicate Served(m: Memory, cnt: nat, align: nat)
    requires align > 0
  {
    exists k: nat :: FirstRoom(m.chunks, m.bits, cnt, align, k)
  }

  ghost predicate Refused(m: Memory, cnt: nat, align: nat)
    requires align > 0
  {
    forall k :: 0 <= k < |m.chunks| ==> !HasRun(m.chunks[k], m.bits, cnt, align)
  }

  lemma FindsIfHasRun(c: Chunk, bits: set<nat>, cnt: nat, align: nat)
    requires align > 0
    ensures Find(c, bits, cnt, align).Some? <==> HasRun(c, bits, cnt, align)
  {
    FindIsFirstFit(c, bits, cnt, align);
  }

  /**
   `pmm::alloc` hands out a run that lies inside its chunk if and only if the first chunk with a
   free aligned run has one that ends inside it; it fails if and only if no chunk has any.
   */
  lemma ChoiceIff(m: Memory, cnt: nat, align: nat)
    requires align > 0
    ensures var r := Choice(m, cnt, align);
      && (r.Some? && Inside(m.chunks, r.value) <==> Served(m, cnt, align))
      && (r.None? <==> Refused(m, cnt, align))
  {
    hide HasRun, RoomInside, Find;
    var k := ChunkFor(m.chunks, m.bits, cnt, align, 0);
    forall j | 0 <= j < |m.chunks|
      ensures Find(m.chunks[j], m.bits, cnt, align).Some? <==> HasRun(m.chunks[j], m.bits, cnt, align)
      ensures RoomInside(m.chunks[j], m.bits, cnt, align) <==>
        Find(m.chunks[j], m.bits, cnt, align).Some? && Find(m.chunks[j], m.bits, cnt, align).value + cnt <= m.chunks[j].pages
    {
      FindsIfHasRun(m.chunks[j], m.bits, cnt, align);
      InsideIffRoom(m.chunks[j], m.bits, cnt, align);
    }
    if k < |m.chunks| {
      FindIsFirstFit(m.chunks[k], m.bits, cnt, align);
      assert RoomInside(m.chunks[k], m.bits, cnt, align) ==> FirstRoom(m.chunks, m.bits, cnt, align, k);
    }
    if Served(m, cnt, align) {
      var l: nat :| FirstRoom(m.chunks, m.bits, cnt, align, l);
      assert l == k;
    }
  }

  function Mark(m: Memory, r: Live): Memory
    requires r.chunk < |m.chunks|
  {
    m.(bits := m.bits + Range(m.chunks[r.chunk].at + r.start, r.cnt), used := m.used + r.cnt * 0x1000)
  }

  function Allocated(m: Memory, cnt: nat, align: nat): Memory
    requires align > 0
  {
    var r := Choice(m, cnt, align);
    if r.None? then m else Mark(m, r.value)
  }

  function Address(m: Memory, r: Live): nat
    requires r.chunk < |m.chunks|
  {
    m.chunks[r.chunk].base + r.start * 0x1000
  }

  predicate Holds(c: Chunk, base: nat, cnt: nat) {
    base >= c.base && base + cnt * 0x1000 <= c.base + c.pages * 0x1000
  }

  /** The first chunk from `k` on that contains the range. */
  function Owner(chunks: seq<Chunk>, base: nat, cnt: nat, k: nat): (r: nat)
    requires k <= |chunks|
    ensures k <= r <= |chunks|
    ensures r < |chunks| ==> Holds(chunks[r], base, cnt)
    ensures forall j :: k <= j < r ==> !Holds(chunks[j], base, cnt)
    decreases |chunks| - k
  {
    if k == |chunks| || Holds(chunks[k], base, cnt) then k else Owner(chunks, base, cnt, k + 1)
  }

  /** `pmm::free`. */
  function Freed(m: Memory, base: nat, cnt: nat): Memory {
    var k := Owner(m.chunks, base, cnt, 0);
    if k == |m.chunks| then m
    else
      var c := m.chunks[k];
      var bit := DivRoundup(base - c.base, 0x1000);
      m.(bits := m.bits - Range(c.at + bit, cnt), used := m.used - cnt * 0x1000)
  }

  /** With a one-page chunk in front of a chunk with room, two pages are taken from the one-page chunk. */
  lemma ListOverrunExample()
    ensures var m := Memory(Bitmaps([Extent(0x1000, 1), Extent(0x10000, 8)], 0, true), {}, 0);
      Choice(m, 2, 1) == Some(Live(0, 0, 2)) && !Inside(m.chunks, Live(0, 0, 2)) && |m.chunks| == 2 && RoomInside(m.chunks[1], {}, 2, 1)
  {
    hide Bitmaps;
    var c, d := Chunk(0x1000, 1, 448), Chunk(0x10000, 8, 456);
    TwoChunks();
    assert FirstBit(c, 1) == 0;
    assert FreeRun(c, {}, 0, 2);
    assert Find(c, {}, 2, 1) == Some(0);
    assert Candidate(d, 1, 0) && FreeRun(d, {}, 0, 2);
  }

  /** A longer overrun marks pages of the next chunk, whose bitmap lies right behind: page 0 of it is lost. */
  lemma OverrunMarksNext()
    ensures var m := Memory(Bitmaps([Extent(0x1000, 1), Extent(0x10000, 8)], 0, true), {}, 0);
      && Choice(m, 9, 1) == Some(Live(0, 0, 9)) && |m.chunks| == 2
      && IsSet(m.chunks, Allocated(m, 9, 1).bits, 1, 0) && !IsSet(m.chunks, m.bits, 1, 0)
  {
    hide Bitmaps;
    var c := Chunk(0x1000, 1, 448);
    TwoChunks();
    assert FirstBit(c, 1) == 0;
    assert FreeRun(c, {}, 0, 9);
    assert Find(c, {}, 9, 1) == Some(0);
    assert 456 in Range(448 + 0, 9);
  }

  lemma TwoChunks()
    ensures Bitmaps([Extent(0x1000, 1), Extent(0x10000, 8)], 0, true) == [Chunk(0x1000, 1, 448), Chunk(0x10000, 8, 456)]
  {
    var es := [Extent(0x1000, 1), Extent(0x10000, 8)];
    assert es[1..] == [Extent(0x10000, 8)] && es[1..][1..] == [];
    assert Bitmaps(es[1..], 456, false) == [Chunk(0x10000, 8, 456)];
  }

  // ---------------------------------------------------------------------------------------
  // Where the bitmaps lie

  /** An entry of the memory map, in pages. */
  datatype Extent = Extent(base: nat, pages: nat)

  /** The bits of a `mem_chunk` node. */
  const NODE: nat := 448

  /** Where a chunk's bitmap starts when the buffer stands at `at`. */
  function Start(at: nat, root: bool): nat {
    at + if root then NODE else 0
  }

  /** Where the buffer stands behind a bitmap of `pages` bits and, but for the root, its node. */
  function Behind(pages: nat, bitmap: nat, root: bool): nat {
    bitmap + 8 * DivRoundup(pages, 8) + if root then 0 else NODE
  }

  /** `pmm::init`: the root node lies in front of its bitmap, every other node behind its own. */
  function Bitmaps(extents: seq<Extent>, at: nat, root: bool): (r: seq<Chunk>)
    ensures |r| == |extents|
    ensures forall k :: 0 <= k < |r| ==> r[k].base == extents[k].base && r[k].pages == extents[k].pages
    decreases |extents|
  {
    if extents == [] then []
    else
      var e, bitmap := extents[0], Start(at, root);
      [Chunk(e.base, e.pages, bitmap)] + Bitmaps(extents[1..], Behind(e.pages, bitmap, root), false)
  }

  /** Bitmaps do not overlap. */
  predicate Layout(chunks: seq<Chunk>) {
    forall j, k :: 0 <= j < |chunks| && 0 <= k < |chunks| && j != k ==>
      chunks[j].at + chunks[j].pages <= chunks[k].at || chunks[k].at + chunks[k].pages <= chunks[j].at
  }

  lemma {:induction false} BitmapsApart(extents: seq<Extent>, at: nat, root: bool)
    ensures var r := Bitmaps(extents, at, root);
      Layout(r) && forall k :: 0 <= k < |r| ==> at <= r[k].at
    decreases |extents|
  {
    hide DivRoundup, Layout;
    NoBitmaps();
    if extents != [] {
      var e, bitmap := extents[0], Start(at, root);
      var next := Behind(e.pages, bitmap, root);
      BitmapsApart(extents[1..], next, false);
      WholeBytes(e.pages);
      PutInFront(Chunk(e.base, e.pages, bitmap), Bitmaps(extents[1..], next, false), next);
    }
  }

  /** Bitmap `d` starts a whole number of bytes behind the start of `c`, past `c` and `node` bits, in the first byte that fits. */
  predicate Follows(c: Chunk, d: Chunk, node: nat) {
    0 <= d.at - c.at - c.pages - node < 8 && (d.at - c.at) % 8 == 0
  }

  /** The bitmaps lie in list order as close as whole bytes allow, with one node behind each but the root's. */
  lemma {:induction false} BitmapsTight(extents: seq<Extent>, at: nat, root: bool, k: nat)
    requires k < |extents|
    ensures var r := Bitmaps(extents, at, root);
      && r[0].at == at + (if root then 448 else 0)
      && (k + 1 < |r| ==> Follows(r[k], r[k + 1], if root && k == 0 then 0 else 448))
    decreases |extents|
  {
    hide Bitmaps, Behind, Follows;
    var r, next := Bitmaps(extents, at, root), Behind(extents[0].pages, Start(at, root), root);
    var rest := BitmapsStep(extents, at, root);
    if k > 0 {
      BitmapsTight(extents[1..], next, false, k - 1);
      assert r[k] == rest[k - 1];
      assert k + 1 < |r| ==> r[k + 1] == rest[k];
    } else if |extents| > 1 {
      BitmapsTight(extents[1..], next, false, 0);
      assert r[1] == rest[0];
      NextFollows(r[0], rest[0], root);
    }
  }

  lemma BitmapsStep(extents: seq<Extent>, at: nat, root: bool) returns (rest: seq<Chunk>)
    requires extents != []
    ensures var e := extents[0];
      && rest == Bitmaps(extents[1..], Behind(e.pages, Start(at, root), root), false)
      && Bitmaps(extents, at, root) == [Chunk(e.base, e.pages, Start(at, root))] + rest
  {
    hide Behind, Start;
    rest := Bitmaps(extents[1..], Behind(extents[0].pages, Start(at, root), root), false);
  }

  lemma NextFollows(c: Chunk, d: Chunk, root: bool)
    requires d.at == Behind(c.pages, c.at, root)
    ensures Follows(c, d, if root then 0 else 448)
  {
    WholeBytes(c.pages);
    hide DivRoundup;
  }

  lemma NoBitmaps()
    ensures Layout([])
  {
  }

  lemma WholeBytes(pages: nat)
    ensures pages <= 8 * DivRoundup(pages, 8) < pages + 8
  {
  }

  lemma PutInFront(c: Chunk, rest: seq<Chunk>, next: nat)
    requires Layout(rest) && c.at + c.pages <= next && forall k :: 0 <= k < |rest| ==> next <= rest[k].at
    ensures Layout([c] + rest)
  {
    var r := [c] + rest;
    forall j, k | 0 <= j < |r| && 0 <= k < |r| && j != k
      ensures r[j].at + r[j].pages <= r[k].at || r[k].at + r[k].pages <= r[j].at
    {
      assert (j > 0 ==> r[j] == rest[j - 1]) && (k > 0 ==> r[k] == rest[k - 1]);
    }
  }

  // ---------------------------------------------------------------------------------------
  // Runs

  /** Chunks are page aligned and do not overlap, as the firmware's memory map gives them. */
  predicate Geometry(chunks: seq<Chunk>) {
    && (forall k :: 0 <= k < |chunks| ==> chunks[k].base % 0x1000 == 0)
    && (forall j, k :: 0 <= j < |chunks| && 0 <= k < |chunks| && j != k ==>
         chunks[j].base + chunks[j].pages * 0x1000 <= chunks[k].base || chunks[k].base + chunks[k].pages * 0x1000 <= chunks[j].base)
  }

  predicate Inside(chunks: seq<Chunk>, r: Live) {
    r.chunk < |chunks| && r.cnt > 0 && r.start + r.cnt <= chunks[r.chunk].pages
  }

  predicate Disjoint(a: Live, b: Live) {
    a.chunk != b.chunk || a.start + a.cnt <= b.start || b.start + b.cnt <= a.start
  }

  predicate AllDisjoint(live: set<Live>) {
    forall a, b :: a in live && b in live && a != b ==> Disjoint(a, b)
  }

  ghost predicate Covers(live: set<Live>, k: nat, p: nat) {
    exists r :: r in live && r.chunk == k && r.start <= p < r.start + r.cnt
  }

  predicate AllInside(chunks: seq<Chunk>, live: set<Live>) {
    forall r :: r in live ==> Inside(chunks, r)
  }

  /** The bit of page `p` of chunk `k` is set. */
  predicate IsSet(chunks: seq<Chunk>, bits: set<nat>, k: nat, p: nat)
    requires k < |chunks|
  {
    chunks[k].at + p in bits
  }

  /** The bits of the pages are set just where live runs are; other bits of the buffer are free to be anything. */
  ghost predicate BitsCover(chunks: seq<Chunk>, bits: set<nat>, live: set<Live>) {
    forall k: nat, p: nat {:trigger IsSet(chunks, bits, k, p)} {:trigger Covers(live, k, p)} ::
      k < |chunks| && p < chunks[k].pages ==> (IsSet(chunks, bits, k, p) <==> Covers(live, k, p))
  }

  /** The pages of all live runs. */
  ghost function LivePages(live: set<Live>): nat {
    if live == {} then 0
    else
      var r :| r in live;
      r.cnt + LivePages(live - {r})
  }

  lemma {:induction false} LivePagesWithout(live: set<Live>, x: Live)
    requires x in live
    ensures LivePages(live) == x.cnt + LivePages(live - {x})
  {
    var r :| r in live && LivePages(live) == r.cnt + LivePages(live - {r});
    if r != x {
      LivePagesWithout(live - {r}, x);
      LivePagesWithout(live - {x}, r);
      assert live - {r} - {x} == live - {x} - {r};
    }
  }

  /** The bits of the pages are those of the live runs, which are disjoint and inside their chunks. */
  ghost predicate Valid(m: Memory, live: set<Live>) {
    && Geometry(m.chunks) && Layout(m.chunks)
    && AllInside(m.chunks, live) && AllDisjoint(live) && BitsCover(m.chunks, m.bits, live)
    && m.used == LivePages(live) * 0x1000
  }

  /** What the choice is: the first chunk with a fitting run, and that chunk's first one, disjoint from all live runs. */
  lemma ChoiceIsFresh(m: Memory, live: set<Live>, cnt: nat, align: nat)
    requires align > 0 && Valid(m, live) && Choice(m, cnt, align).Some?
    ensures var r := Choice(m, cnt, align).value;
      && r.chunk < |m.chunks| && r.cnt == cnt > 0 && Candidate(m.chunks[r.chunk], align, r.start)
      && FreeRun(m.chunks[r.chunk], m.bits, r.start, cnt)
      && (forall a :: a in live ==> Disjoint(a, r) && a != r)
  {
    var r := Choice(m, cnt, align).value;
    FindIsFirstFit(m.chunks[r.chunk], m.bits, cnt, align);
    hide Choice, Valid;
    forall a | a in live
      ensures Disjoint(a, r) && a != r
    {
      FreeRunApart(m, live, a, r);
    }
  }

  /** A run of clear bits meets no live run. */
  lemma FreeRunApart(m: Memory, live: set<Live>, a: Live, r: Live)
    requires Valid(m, live) && a in live && r.cnt > 0 && r.chunk < |m.chunks|
    requires FreeRun(m.chunks[r.chunk], m.bits, r.start, r.cnt)
    ensures Disjoint(a, r) && a != r
  {
    hide BitsCover, FreeRun, Geometry, Layout, AllDisjoint, LivePages;
    assert Inside(m.chunks, a);
    if a.chunk == r.chunk && a.start < r.start + r.cnt && r.start < a.start + a.cnt {
      var p := if a.start >= r.start then a.start else r.start;
      LiveBit(m, live, a, p);
      FreeBit(m.chunks[r.chunk], m.bits, r.start, r.cnt, p);
    }
  }

  lemma LiveBit(m: Memory, live: set<Live>, a: Live, p: nat)
    requires Valid(m, live) && a in live && a.start <= p < a.start + a.cnt
    ensures a.chunk < |m.chunks| && IsSet(m.chunks, m.bits, a.chunk, p)
  {
    hide Geometry, Layout, AllDisjoint, LivePages, IsSet;
    assert Inside(m.chunks, a) && Covers(live, a.chunk, p);
  }

  lemma FreeBit(c: Chunk, bits: set<nat>, i: nat, cnt: nat, p: nat)
    requires FreeRun(c, bits, i, cnt) && i <= p < i + cnt
    ensures c.at + p !in bits
  {
    assert c.at + p in Range(c.at + i, cnt);
  }

  /** Marking or clearing the pages of a run inside its chunk changes the bits of these pages and of no others. */
  lemma RunBits(chunks: seq<Chunk>, r: Live, k: nat, p: nat)
    requires Layout(chunks) && Inside(chunks, r) && k < |chunks| && p < chunks[k].pages
    ensures chunks[k].at + p in Range(chunks[r.chunk].at + r.start, r.cnt) <==> k == r.chunk && r.start <= p < r.start + r.cnt
  {
  }

  lemma CoversAdd(live: set<Live>, r: Live, k: nat, p: nat)
    ensures Covers(live + {r}, k, p) <==> Covers(live, k, p) || (k == r.chunk && r.start <= p < r.start + r.cnt)
  {
    if Covers(live, k, p) {
      var a :| a in live && a.chunk == k && a.start <= p < a.start + a.cnt;
      assert a in live + {r};
    }
    assert r in live + {r};
  }

  lemma CoversRemove(live: set<Live>, r: Live, k: nat, p: nat)
    requires AllDisjoint(live) && r in live
    ensures Covers(live - {r}, k, p) <==> Covers(live, k, p) && !(k == r.chunk && r.start <= p < r.start + r.cnt)
  {
    if Covers(live - {r}, k, p) {
      var a :| a in live - {r} && a.chunk == k && a.start <= p < a.start + a.cnt;
      assert Disjoint(a, r);
    }
    if Covers(live, k, p) && !(k == r.chunk && r.start <= p < r.start + r.cnt) {
      var a :| a in live && a.chunk == k && a.start <= p < a.start + a.cnt;
      assert a in live - {r};
    }
  }

  /** Marking a fresh run inside its chunk keeps the books. */
  lemma MarkKeepsValid(m: Memory, live: set<Live>, r: Live)
    requires Valid(m, live) && Inside(m.chunks, r)
    requires forall a :: a in live ==> Disjoint(a, r) && a != r
    ensures Valid(Mark(m, r), live + {r})
  {
    hide Geometry, Layout, Covers, IsSet, Inside, BitsCover;
    MarkCovers(m, live, r);
    LivePagesWithout(live + {r}, r);
    assert live + {r} - {r} == live;
  }

  lemma MarkCovers(m: Memory, live: set<Live>, r: Live)
    requires Valid(m, live) && Inside(m.chunks, r)
    ensures BitsCover(m.chunks, Mark(m, r).bits, live + {r})
  {
    hide Geometry, Layout, Covers, LivePages, AllDisjoint;
    forall k: nat, p: nat | k < |m.chunks| && p < m.chunks[k].pages
      ensures IsSet(m.chunks, Mark(m, r).bits, k, p) <==> Covers(live + {r}, k, p)
    {
      assert IsSet(m.chunks, m.bits, k, p) <==> Covers(live, k, p);
      CoversAdd(live, r, k, p);
      RunBits(m.chunks, r, k, p);
    }
  }

  /** The chunk that `pmm::free` picks for a live run is the run's own. */
  lemma OwnerIsOwn(m: Memory, r: Live)
    requires Geometry(m.chunks) && Inside(m.chunks, r)
    ensures Owner(m.chunks, Address(m, r), r.cnt, 0) == r.chunk
    ensures DivRoundup(Address(m, r) - m.chunks[r.chunk].base, 0x1000) == r.start
  {
    assert Holds(m.chunks[r.chunk], Address(m, r), r.cnt);
    forall j | 0 <= j < |m.chunks| && j != r.chunk
      ensures !Holds(m.chunks[j], Address(m, r), r.cnt)
    {
      var a, b := m.chunks[j], m.chunks[r.chunk];
      assert a.base + a.pages * 0x1000 <= b.base || b.base + b.pages * 0x1000 <= a.base;
    }
    QuotientUnique(r.start * 0x1000 + 0xFFF, 0x1000, r.start, 0xFFF);
  }

  lemma FreeIs(m: Memory, r: Live)
    requires Geometry(m.chunks) && Inside(m.chunks, r)
    ensures Freed(m, Address(m, r), r.cnt) ==
      m.(bits := m.bits - Range(m.chunks[r.chunk].at + r.start, r.cnt), used := m.used - r.cnt * 0x1000)
  {
    OwnerIsOwn(m, r);
  }

  lemma FreeKeepsValid(m: Memory, live: set<Live>, r: Live)
    requires Valid(m, live) && r in live
    ensures Valid(Freed(m, Address(m, r), r.cnt), live - {r})
  {
    hide Geometry, Layout, Freed, Address, BitsCover;
    assert Inside(m.chunks, r);
    FreeIs(m, r);
    FreeCovers(m, live, r);
    LivePagesWithout(live, r);
  }

  lemma FreeCovers(m: Memory, live: set<Live>, r: Live)
    requires Valid(m, live) && r in live
    ensures BitsCover(m.chunks, m.bits - Range(m.chunks[r.chunk].at + r.start, r.cnt), live - {r})
  {
    hide Geometry, Layout, Covers, LivePages, AllDisjoint;
    var bits := m.bits - Range(m.chunks[r.chunk].at + r.start, r.cnt);
    forall k: nat, p: nat | k < |m.chunks| && p < m.chunks[k].pages
      ensures IsSet(m.chunks, bits, k, p) <==> Covers(live - {r}, k, p)
    {
      assert IsSet(m.chunks, m.bits, k, p) <==> Covers(live, k, p);
      CoversRemove(live, r, k, p);
      RunBits(m.chunks, r, k, p);
    }
  }

  /** `bits` has the same page bits; everything between the bitmaps may differ. */
  predicate SameBitmaps(chunks: seq<Chunk>, before: set<nat>, bits: set<nat>) {
    forall k: nat, p: nat {:trigger IsSet(chunks, bits, k, p)} ::
      k < |chunks| && p < chunks[k].pages ==> (IsSet(chunks, bits, k, p) <==> IsSet(chunks, before, k, p))
  }

  datatype Op =
    | Take(cnt: nat, align: nat)      // pmm::alloc
    | Give(run: Live)                 // pmm::free
    | Elsewhere(bits: set<nat>)       // somebody writes memory that holds no bitmap

  /** An allocation that is refused or whose first chunk with a free run has room inside, or the return of a live run. */
  ghost predicate Enabled(m: Memory, live: set<Live>, op: Op) {
    match op
    case Take(cnt, align) => align > 0 && (Served(m, cnt, align) || Refused(m, cnt, align))
    case Give(run) => run in live && run.chunk < |m.chunks|
    case Elsewhere(bits) => SameBitmaps(m.chunks, m.bits, bits)
  }

  function Apply(m: Memory, op: Op): Memory
    requires op.Take? ==> op.align > 0
    requires op.Give? ==> op.run.chunk < |m.chunks|
  {
    match op
    case Take(cnt, align) => Allocated(m, cnt, align)
    case Give(run) => Freed(m, Address(m, run), run.cnt)
    case Elsewhere(bits) => m.(bits := bits)
  }

  function LiveAfter(m: Memory, live: set<Live>, op: Op): set<Live>
    requires op.Take? ==> op.align > 0
  {
    match op
    case Take(cnt, align) => if Choice(m, cnt, align).None? then live else live + {Choice(m, cnt, align).value}
    case Give(run) => live - {run}
    case Elsewhere(_) => live
  }

  ghost predicate RunEnabled(m: Memory, live: set<Live>, ops: seq<Op>)
    decreases |ops|
  {
    ops == [] || (Enabled(m, live, ops[0]) && RunEnabled(Apply(m, ops[0]), LiveAfter(m, live, ops[0]), ops[1..]))
  }

  ghost function Run(m: Memory, live: set<Live>, ops: seq<Op>): (Memory, set<Live>)
    requires RunEnabled(m, live, ops)
    decreases |ops|
  {
    if ops == [] then (m, live) else Run(Apply(m, ops[0]), LiveAfter(m, live, ops[0]), ops[1..])
  }

  /** `pmm::init` clears the bitmaps; whatever else the buffer holds, the chunk nodes for one, does not matter. */
  lemma InitIsValid(extents: seq<Extent>, bits: set<nat>)
    requires var chunks := Bitmaps(extents, 0, true);
      Geometry(chunks) && forall k: nat, p: nat :: k < |chunks| && p < chunks[k].pages ==> !IsSet(chunks, bits, k, p)
    ensures Valid(Memory(Bitmaps(extents, 0, true), bits, 0), {})
  {
    BitmapsApart(extents, 0, true);
  }

  /** One operation keeps the books. */
  lemma StepKeepsValid(m: Memory, live: set<Live>, op: Op)
    requires Valid(m, live) && Enabled(m, live, op)
    ensures Valid(Apply(m, op), LiveAfter(m, live, op))
  {
    match op
    case Take(cnt, align) =>
      hide Valid, Served, Refused;
      ChoiceIff(m, cnt, align);
      if Choice(m, cnt, align).Some? {
        ChoiceIsFresh(m, live, cnt, align);
        MarkKeepsValid(m, live, Choice(m, cnt, align).value);
      }
    case Give(run) => FreeKeepsValid(m, live, run);
    case Elsewhere(bits) =>
      hide IsSet, Covers, Layout, Geometry, LivePages;
  }

  /** Every run keeps the books: bits, live runs and `total_used_mem` agree. */
  lemma {:induction false} RunKeepsValid(m: Memory, live: set<Live>, ops: seq<Op>)
    requires Valid(m, live) && RunEnabled(m, live, ops)
    ensures Valid(Run(m, live, ops).0, Run(m, live, ops).1)
    decreases |ops|
  {
    hide Valid, Served, Refused, SameBitmaps, Apply, LiveAfter;
    if ops != [] {
      StepKeepsValid(m, live, ops[0]);
      RunKeepsValid(Apply(m, ops[0]), LiveAfter(m, live, ops[0]), ops[1..]);
    }
  }

  /** Live runs occupy disjoint physical memory, across chunks too. */
  lemma LiveRunsApart(m: Memory, live: set<Live>, a: Live, b: Live)
    requires Valid(m, live) && a in live && b in live && a != b
    ensures Address(m, a) + a.cnt * 0x1000 <= Address(m, b) || Address(m, b) + b.cnt * 0x1000 <= Address(m, a)
  {
    assert Inside(m.chunks, a) && Inside(m.chunks, b) && Disjoint(a, b);
  }

  /** Freeing a run right after its allocation restores the memory. */
  lemma FreeUndoesAlloc(m: Memory, live: set<Live>, cnt: nat, align: nat)
    requires align > 0 && Valid(m, live) && Served(m, cnt, align)
    ensures var r := Choice(m, cnt, align);
      r.Some? && r.value.chunk < |m.chunks| && Freed(Allocated(m, cnt, align), Address(m, r.value), cnt) == m
  {
    ChoiceIff(m, cnt, align);
    ChoiceIsFresh(m, live, cnt, align);
    FreeUndoesMark(m, Choice(m, cnt, align).value);
  }

  lemma FreeUndoesMark(m: Memory, r: Live)
    requires Geometry(m.chunks) && Inside(m.chunks, r) && FreeRun(m.chunks[r.chunk], m.bits, r.start, r.cnt)
    ensures Freed(Mark(m, r), Address(m, r), r.cnt) == m
  {
    hide Freed, Geometry;
    FreeIs(Mark(m, r), r);
    var range := Range(m.chunks[r.chunk].at + r.start, r.cnt);
    assert m.bits + range - range == m.bits;
  }

  // ---------------------------------------------------------------------------------------
  // The allocator in place

  class Allocator {
    const chunks: seq<Chunk>
    var bits: set<nat>
    var used: int

    ghost function Value(): Memory
      reads this
    {
      Memory(chunks, bits, used)
    }

    constructor (chunks: seq<Chunk>, bits: set<nat>)
      ensures Value() == Memory(chunks, bits, 0)
    {
      this.chunks := chunks;
      this.bits := bits;
      used := 0;
    }

    method SetBits(k: nat, i: nat, cnt: nat)
      requires k < |chunks|
      modifies this`bits
      ensures bits == old(bits) + Range(chunks[k].at + i, cnt)
    {
      ghost var first := chunks[k].at + i;
      assert bits + Range(first, 0) == bits;
      var z := 0;
      while z < cnt
        invariant 0 <= z <= cnt && bits == old(bits) + Range(first, z)
      {
        assert old(bits) + Range(first, z) + {first + z} == old(bits) + Range(first, z + 1);
        bits := bits + {chunks[k].at + i + z};
        z := z + 1;
      }
    }

    /** The inner loop: count clear bits from `i`, and stop at the first one that is set. */
    method Probe(k: nat, i: nat, cnt: nat) returns (clear: bool)
      requires k < |chunks|
      ensures clear <==> cnt > 0 && FreeRun(chunks[k], bits, i, cnt)
    {
      var j, count := i, 0;
      while j < i + cnt
        invariant i <= j <= i + cnt && count == j - i && (cnt > 0 ==> j < i + cnt)
        invariant forall p :: i <= p < j ==> !IsSet(chunks, bits, k, p)
      {
        if chunks[k].at + j in bits {
          assert chunks[k].at + j in Range(chunks[k].at + i, cnt);
          return false;
        }
        count := count + 1;
        if count == cnt {
          ClearRun(chunks, bits, k, i, cnt);
          return true;
        }
        j := j + 1;
      }
      return false;
    }

    /** `mem_chunk::alloc` on chunk `k`. */
    method ChunkAlloc(k: nat, cnt: nat, align: nat) returns (addr: int)
      requires k < |chunks| && align > 0
      modifies this
      ensures var c := chunks[k]; var r := Find(c, old(bits), cnt, align);
        if r.None? then addr == -1 && Value() == old(Value())
        else
          && addr == AlignUp(c.base, align * 0x1000) + (r.value - FirstBit(c, align)) * 0x1000
          && Value() == Mark(old(Value()), Live(k, r.value, cnt))
    {
      ghost var c := chunks[k];
      FindIsFirstFit(c, bits, cnt, align);
      var allocBase := AlignUp(chunks[k].base, align * 0x1000);
      AlignUpAtLeast(chunks[k].base, align * 0x1000);
      var i := (allocBase - chunks[k].base) / 0x1000;
      while i < chunks[k].pages
        invariant Value() == old(Value()) && i >= FirstBit(c, align)
        invariant Find(c, bits, cnt, align) == Scan(c, bits, i, cnt, align)
        invariant cnt > 0 ==> allocBase == AlignUp(c.base, align * 0x1000) + (i - FirstBit(c, align)) * 0x1000
        decreases chunks[k].pages - i
      {
        var clear := Probe(k, i, cnt);
        if clear {
          SetBits(k, i, cnt);
          used := used + cnt * 0x1000;
          return allocBase;
        }
        if cnt > 0 {
          allocBase := allocBase + align * 0x1000;
          assert (i + align - FirstBit(c, align)) * 0x1000 == (i - FirstBit(c, align)) * 0x1000 + align * 0x1000;
        }
        i := i + align;
      }
      return -1;
    }

    /** `pmm::alloc`: chunk after chunk until one succeeds; the list is never empty. */
    method Alloc(cnt: nat, align: nat) returns (addr: int)
      requires chunks != [] && align > 0 && Geometry(chunks)
      modifies this
      ensures Value() == Allocated(old(Value()), cnt, align)
      ensures var r := Choice(old(Value()), cnt, align); addr == if r.None? then -1 else Address(old(Value()), r.value)
    {
      var k := 0;
      while k < |chunks|
        invariant 0 <= k <= |chunks| && Value() == old(Value())
        invariant ChunkFor(chunks, bits, cnt, align, 0) == ChunkFor(chunks, bits, cnt, align, k)
      {
        ghost var c := chunks[k];
        FindIsFirstFit(c, bits, cnt, align);
        addr := ChunkAlloc(k, cnt, align);
        if addr != -1 {
          AddressTracksBit(c, align, Find(c, old(bits), cnt, align).value);
          return;
        }
        k := k + 1;
      }
      return -1;
    }

    /** `mem_chunk::free` on chunk `k`; `offset` counts from the chunk's base. */
    method ChunkFree(k: nat, offset: nat, cnt: nat)
      requires k < |chunks|
      modifies this
      ensures var first := chunks[k].at + DivRoundup(offset, 0x1000);
        Value() == Memory(chunks, old(bits) - Range(first, cnt), old(used) - cnt * 0x1000)
    {
      var first := DivRoundup(offset, 0x1000);
      ghost var at := chunks[k].at + first;
      assert bits - Range(at, 0) == bits;
      var i := first;
      while i < first + cnt
        invariant first <= i <= first + cnt && used == old(used) - (i - first) * 0x1000
        invariant bits == old(bits) - Range(at, i - first)
      {
        used := used - 0x1000;
        assert old(bits) - Range(at, i - first) - {chunks[k].at + i} == old(bits) - Range(at, i + 1 - first);
        bits := bits - {chunks[k].at + i};
        i := i + 1;
      }
    }

    /** `pmm::free`. */
    method Free(base: nat, cnt: nat)
      requires chunks != []
      modifies this
      ensures Value() == Freed(old(Value()), base, cnt)
    {
      var k := 0;
      while k < |chunks|
        invariant 0 <= k <= |chunks| && Value() == old(Value())
        invariant Owner(chunks, base, cnt, 0) == Owner(chunks, base, cnt, k)
      {
        if base >= chunks[k].base && base + cnt * 0x1000 <= chunks[k].base + chunks[k].pages * 0x1000 {
          ChunkFree(k, base - chunks[k].base, cnt);
          return;
        }
        k := k + 1;
      }
    }
  }

  lemma ClearRun(chunks: seq<Chunk>, bits: set<nat>, k: nat, i: nat, cnt: nat)
    requires k < |chunks| && forall p :: i <= p < i + cnt ==> !IsSet(chunks, bits, k, p)
    ensures FreeRun(chunks[k], bits, i, cnt)
  {
    forall b | b in Range(chunks[k].at + i, cnt) ensures b !in bits {
      assert !IsSet(chunks, bits, k, b - chunks[k].at);
    }
  }
}
