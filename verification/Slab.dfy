/**
 The slab cache of kernel/mm/slab.cpp as values: which slab serves a request, what the
 bitmaps and counters become, and why live objects never overlap.
 */
module Slab {
  import opened Arithmetic

  const OBJECTS: nat := 256
  const SLAB_HEADER: nat := 48
  const BITMAP: nat := 32
  const CACHE_DESCRIPTOR: nat := 88

  /** A slab: its first byte, its object buffer, the set bits of its bitmap, and `available_objects`. */
  datatype SlabView = SlabView(address: nat, buf: nat, bits: set<nat>, available: nat)

  /** A cache: at most one slab that still has room (in the empty or the partial list), and the full list. */
  datatype CacheView = CacheView(size: nat, open: seq<SlabView>, full: seq<SlabView>)

  /** `pages_per_slab`, in bytes. */
  function SlabBytes(size: nat): nat {
    DivRoundup(size * OBJECTS + SLAB_HEADER + BITMAP, 0x1000) * 0x1000
  }

  const WORD: int := 0x1_0000_0000_0000_0000

  /** A 64-bit word read as `ssize_t`. */
  function Signed(x: int): int {
    if x % WORD < WORD / 2 then x % WORD else x % WORD - WORD
  }

  /** C++ division, which rounds towards zero. */
  function Truncated(x: int, m: int): int
    requires m > 0
  {
    if x >= 0 then x / m else -(-x / m)
  }

  /** `align_up` on signed words. */
  function SignedAlignUp(x: int, m: int): int
    requires m > 0
  {
    Truncated(Signed(x) + (m - 1), m) * m
  }

  /** The object buffer of a slab at `address`; the root slab holds the cache descriptor in front of it. */
  function BufferOf(address: nat, root: bool): nat {
    SignedAlignUp(address + SLAB_HEADER + BITMAP, 16) % WORD + if root then CACHE_DESCRIPTOR else 0
  }

  predicate PageAddress(address: nat) {
    address % 0x1000 == 0 && address < WORD
  }

  lemma AlignNonNegative(x: int)
    requires x >= 0 && x % 16 == 0
    ensures Truncated(x + 15, 16) * 16 == x
  {
    QuotientUnique(x + 15, 16, x / 16, 15);
  }

  lemma AlignNegative(x: int)
    requires x < 0 && x % 16 == 0
    ensures Truncated(x + 15, 16) * 16 == x + 16
  {
    var m := -x / 16;
    QuotientUnique(-x, 16, m, 0);
    QuotientUnique(-(x + 15), 16, m - 1, 1);
  }

  lemma AlignedSum(address: nat)
    requires address % 0x1000 == 0
    ensures (address + 80) % 16 == 0 && (address + 80 - 0x1_0000_0000_0000_0000) % 16 == 0
    ensures address < 0x1_0000_0000_0000_0000 ==> address + 0x1000 <= 0x1_0000_0000_0000_0000
    ensures address < 0x8000_0000_0000_0000 ==> address + 0x1000 <= 0x8000_0000_0000_0000
  {
    var k := address / 0x1000;
    QuotientUnique(address + 80, 16, k * 256 + 5, 0);
    QuotientUnique(address + 80 - 0x1_0000_0000_0000_0000, 16, k * 256 + 5 - 0x1000_0000_0000_0000, 0);
  }

  /** In the upper half of the address space the rounding towards zero skips 16 bytes that are already aligned. */
  lemma BufferIs(address: nat, root: bool)
    requires PageAddress(address)
    ensures BufferOf(address, root) ==
      address + (if address < WORD / 2 then 80 else 96) + (if root then CACHE_DESCRIPTOR else 0)
  {
    hide Truncated;
    AlignedSum(address);
    if address < WORD / 2 {
      AlignNonNegative(address + 80);
    } else {
      AlignNegative(address + 80 - WORD);
    }
  }

  /** A fresh slab from `pmm::calloc` at `address`. */
  function NewSlab(address: nat, root: bool): SlabView {
    SlabView(address, BufferOf(address, root), {}, OBJECTS)
  }

  /** Header, bitmap and, in the root slab, the cache descriptor precede the objects, and all 256 objects fit. */
  lemma ObjectsFit(size: nat, address: nat, root: bool)
    requires PageAddress(address)
    ensures var buf := BufferOf(address, root);
      && address + SLAB_HEADER + BITMAP <= buf
      && (root ==> address + SLAB_HEADER + BITMAP <= buf - CACHE_DESCRIPTOR)
      && buf + size * OBJECTS <= address + SlabBytes(size)
  {
    hide BufferOf;
    BufferIs(address, root);
    var h, l := size / 16, size % 16;
    assert size * 256 == h * 0x1000 + l * 256;
    QuotientUnique(size * 256 + 80 + 0xFFF, 0x1000, h + 1, l * 256 + 79);
  }

  /** A slab takes the least number of whole pages that hold header, bitmap and 256 objects. */
  lemma SlabBytesLeast(size: nat)
    ensures SlabBytes(size) % 0x1000 == 0
    ensures size * 256 + 80 <= SlabBytes(size) < size * 256 + 80 + 0x1000
  {
  }

  /** The first clear bit from `i` on, or 256. */
  function FirstClear(bits: set<nat>, i: nat): (r: nat)
    requires i <= OBJECTS
    ensures i <= r <= OBJECTS
    ensures r < OBJECTS ==> r !in bits
    ensures forall j :: i <= j < r ==> j in bits
    decreases OBJECTS - i
  {
    if i == OBJECTS || i !in bits then i else FirstClear(bits, i + 1)
  }

  /** `slab::alloc` on a slab that has room. */
  function Take(s: SlabView): SlabView {
    var i := FirstClear(s.bits, 0);
    s.(bits := s.bits + {i}, available := if s.available > 0 then s.available - 1 else 0)
  }

  /** The slab that serves the next request, with `address` as the pages of a new one if it is needed. */
  function Server(c: CacheView, address: nat): SlabView {
    if c.open != [] then c.open[0] else NewSlab(address, false)
  }

  /** `cache::alloc_obj`. */
  function AllocObj(c: CacheView, address: nat): CacheView {
    var s := Take(Server(c, address));
    if s.available == 0 then c.(open := [], full := c.full + [s]) else c.(open := [s])
  }

  function AllocResult(c: CacheView, address: nat): nat {
    var s := Server(c, address);
    s.buf + FirstClear(s.bits, 0) * c.size
  }

  predicate InBuffer(s: SlabView, size: nat, obj: nat) {
    s.buf <= obj < s.buf + size * OBJECTS
  }

  function Clear(s: SlabView, size: nat, obj: nat): SlabView
    requires size > 0 && InBuffer(s, size, obj)
  {
    s.(bits := s.bits - {(obj - s.buf) / size})
  }

  /** The open slab is in the partial list once it has served an object. */
  predicate Partial(s: SlabView) {
    s.available != OBJECTS
  }

  /** `cache::free_obj`: it looks at the head of the partial list, then at the head of the full list. */
  function FreeObj(c: CacheView, obj: nat): (CacheView, bool)
    requires c.size > 0
  {
    if c.open != [] && Partial(c.open[0]) && InBuffer(c.open[0], c.size, obj) then
      (c.(open := c.open[0 := Clear(c.open[0], c.size, obj)]), true)
    else if c.full != [] && InBuffer(c.full[0], c.size, obj) then
      (c.(full := c.full[0 := Clear(c.full[0], c.size, obj)]), true)
    else (c, false)
  }

  // ---------------------------------------------------------------------------------------
  // The invariant

  /** All slabs of a cache. */
  function Slabs(c: CacheView): seq<SlabView> {
    c.full + c.open
  }

  /** `available_objects` never promises more than the bitmap has. */
  predicate SlabValid(s: SlabView, size: nat) {
    && (forall i :: i in s.bits ==> i < OBJECTS)
    && s.available + |s.bits| <= OBJECTS
    && s.address + SLAB_HEADER + BITMAP <= s.buf && s.buf + size * OBJECTS <= s.address + SlabBytes(size)
  }

  predicate PagesApart(a: nat, b: nat, size: nat) {
    a + SlabBytes(size) <= b || b + SlabBytes(size) <= a
  }

  predicate Valid(c: CacheView) {
    && c.size > 0 && |c.open| <= 1
    && (forall i :: 0 <= i < |Slabs(c)| ==> SlabValid(Slabs(c)[i], c.size))
    && (forall i, j :: 0 <= i < j < |Slabs(c)| ==> PagesApart(Slabs(c)[i].address, Slabs(c)[j].address, c.size))
    && (forall i :: 0 <= i < |c.open| ==> c.open[i].available > 0)
    && (forall i :: 0 <= i < |c.full| ==> c.full[i].available == 0)
  }

  /** Pages that `pmm::calloc` would hand out next: page aligned and apart from every slab. */
  predicate FreshPages(c: CacheView, address: nat) {
    PageAddress(address) && forall i :: 0 <= i < |Slabs(c)| ==> PagesApart(Slabs(c)[i].address, address, c.size)
  }

  /** If the next request needs a new slab, its pages are fresh. */
  predicate Supplied(c: CacheView, address: nat) {
    c.open == [] ==> FreshPages(c, address)
  }

  lemma {:induction false} CountBelow(bits: set<nat>, n: nat)
    requires forall i :: i in bits ==> i < n
    ensures |bits| <= n
    ensures |bits| < n ==> exists i :: 0 <= i < n && i !in bits
  {
    if n > 0 {
      if n - 1 in bits {
        CountBelow(bits - {n - 1}, n - 1);
        assert bits == bits - {n - 1} + {n - 1};
        if |bits| < n {
          var i :| 0 <= i < n - 1 && i !in bits - {n - 1};
          assert i !in bits;
        }
      } else {
        CountBelow(bits, n - 1);
      }
    } else {
      assert bits == {};
    }
  }

  /** A slab that says it has room does have a clear bit. */
  lemma RoomMeansClearBit(s: SlabView, size: nat)
    requires SlabValid(s, size) && s.available > 0
    ensures FirstClear(s.bits, 0) < OBJECTS
    ensures SlabValid(Take(s), size)
  {
    CountBelow(s.bits, OBJECTS);
  }

  lemma NewSlabValid(size: nat, address: nat, root: bool)
    requires PageAddress(address)
    ensures SlabValid(NewSlab(address, root), size)
  {
    ObjectsFit(size, address, root);
  }

  /** Allocation keeps the cache valid and always finds an object. */
  lemma AllocKeepsValid(c: CacheView, address: nat)
    requires Valid(c) && Supplied(c, address)
    ensures Valid(AllocObj(c, address))
    ensures FirstClear(Server(c, address).bits, 0) < OBJECTS
  {
    var s := Server(c, address);
    if c.open != [] {
      assert Slabs(c)[|c.full|] == s;
    } else {
      NewSlabValid(c.size, address, false);
      assert Slabs(c) == c.full;
    }
    assert SlabValid(s, c.size) && s.available > 0;
    RoomMeansClearBit(s, c.size);
    var r := AllocObj(c, address);
    assert Slabs(r) == c.full + [Take(s)];
    forall i | 0 <= i < |c.full|
      ensures Slabs(r)[i] == Slabs(c)[i] && PagesApart(c.full[i].address, s.address, c.size)
    {
      assert Slabs(c)[i] == c.full[i];
    }
    forall i, j | 0 <= i < j < |Slabs(r)|
      ensures PagesApart(Slabs(r)[i].address, Slabs(r)[j].address, c.size)
    {
      if j < |c.full| {
        assert PagesApart(Slabs(c)[i].address, Slabs(c)[j].address, c.size);
      }
    }
    forall i | 0 <= i < |Slabs(r)|
      ensures SlabValid(Slabs(r)[i], c.size)
    {
      if i < |c.full| {
        assert SlabValid(Slabs(c)[i], c.size);
      }
    }
  }

  lemma FreeKeepsValid(c: CacheView, obj: nat)
    requires Valid(c)
    ensures Valid(FreeObj(c, obj).0)
  {
    var r := FreeObj(c, obj).0;
    forall i | 0 <= i < |Slabs(c)|
      ensures SlabValid(Slabs(r)[i], c.size) && Slabs(r)[i].address == Slabs(c)[i].address
    {
      assert SlabValid(Slabs(c)[i], c.size);
    }
  }

  // ---------------------------------------------------------------------------------------
  // Objects over whole runs

  /** Object `i` of slab `k`. */
  function ObjectAt(c: CacheView, k: nat, i: nat): nat
    requires k < |Slabs(c)|
  {
    Slabs(c)[k].buf + i * c.size
  }

  /** The bit of the object at `obj` is set in its slab. */
  ghost predicate Taken(c: CacheView, obj: nat) {
    exists k, i :: 0 <= k < |Slabs(c)| && i in Slabs(c)[k].bits && obj == ObjectAt(c, k, i)
  }

  /** An object lies behind its slab's header and bitmap and inside the slab's pages. */
  lemma ObjectInside(c: CacheView, k: nat, i: nat)
    requires Valid(c) && k < |Slabs(c)| && i < OBJECTS
    ensures var s := Slabs(c)[k];
      s.address + SLAB_HEADER + BITMAP <= ObjectAt(c, k, i) && ObjectAt(c, k, i) + c.size <= s.address + SlabBytes(c.size)
  {
    hide SlabBytes, PagesApart;
    assert SlabValid(Slabs(c)[k], c.size);
    ScaleLe(i + 1, OBJECTS, c.size);
    ScaleLe(i, OBJECTS, c.size);
  }

  /** Two objects of a valid cache are the same one or do not overlap. */
  lemma ObjectsApart(c: CacheView, k: nat, i: nat, l: nat, j: nat)
    requires Valid(c) && k < |Slabs(c)| && l < |Slabs(c)| && i < OBJECTS && j < OBJECTS
    ensures (k == l && i == j) || ObjectAt(c, k, i) + c.size <= ObjectAt(c, l, j) || ObjectAt(c, l, j) + c.size <= ObjectAt(c, k, i)
  {
    ObjectInside(c, k, i);
    ObjectInside(c, l, j);
    if k < l {
      assert PagesApart(Slabs(c)[k].address, Slabs(c)[l].address, c.size);
    } else if l < k {
      assert PagesApart(Slabs(c)[l].address, Slabs(c)[k].address, c.size);
    } else if i < j {
      ScaleLe(i + 1, j, c.size);
      ScaleLe(i, j, c.size);
    } else if j < i {
      ScaleLe(j + 1, i, c.size);
      ScaleLe(j, i, c.size);
    }
  }

  /** No object touches the header or the bitmap of any slab. */
  lemma ObjectsAvoidHeaders(c: CacheView, k: nat, i: nat, l: nat)
    requires Valid(c) && k < |Slabs(c)| && l < |Slabs(c)| && i < OBJECTS
    ensures var header := Slabs(c)[l].address;
      header + SLAB_HEADER + BITMAP <= ObjectAt(c, k, i) || ObjectAt(c, k, i) + c.size <= header
  {
    ObjectInside(c, k, i);
    assert SlabValid(Slabs(c)[l], c.size);
    if k < l {
      assert PagesApart(Slabs(c)[k].address, Slabs(c)[l].address, c.size);
    } else if l < k {
      assert PagesApart(Slabs(c)[l].address, Slabs(c)[k].address, c.size);
    }
  }

  /** No object touches the cache descriptor in front of the root slab's buffer. */
  lemma ObjectsAvoidDescriptor(c: CacheView, k: nat, i: nat, root: nat)
    requires Valid(c) && k < |Slabs(c)| && root < |Slabs(c)| && i < OBJECTS
    requires Slabs(c)[root] == NewSlab(Slabs(c)[root].address, true).(bits := Slabs(c)[root].bits, available := Slabs(c)[root].available)
    requires PageAddress(Slabs(c)[root].address)
    ensures var buf := Slabs(c)[root].buf;
      buf <= ObjectAt(c, k, i) || ObjectAt(c, k, i) + c.size <= buf - CACHE_DESCRIPTOR
  {
    hide SlabBytes, BufferOf;
    ObjectsFit(c.size, Slabs(c)[root].address, true);
    ObjectInside(c, k, i);
    assert SlabValid(Slabs(c)[root], c.size);
    if k < root {
      assert PagesApart(Slabs(c)[k].address, Slabs(c)[root].address, c.size);
    } else if root < k {
      assert PagesApart(Slabs(c)[root].address, Slabs(c)[k].address, c.size);
    }
  }

  lemma ScaleLe(a: nat, b: nat, m: nat)
    requires a <= b
    ensures a * m <= b * m
    ensures (a + 1) * m == a * m + m
  {
    assert b * m == a * m + (b - a) * m;
  }

  datatype Op = Get(pages: nat) | Put(obj: nat)

  /** Allocation with fresh pages at hand, or the return of a live object. */
  predicate Enabled(c: CacheView, live: set<nat>, op: Op) {
    match op
    case Get(pages) => Supplied(c, pages)
    case Put(obj) => c.size > 0 && obj in live
  }

  function Apply(c: CacheView, op: Op): CacheView
    requires op.Put? ==> c.size > 0
  {
    match op
    case Get(pages) => AllocObj(c, pages)
    case Put(obj) => FreeObj(c, obj).0
  }

  function LiveAfter(c: CacheView, live: set<nat>, op: Op): set<nat> {
    match op
    case Get(pages) => live + {AllocResult(c, pages)}
    case Put(obj) => live - {obj}
  }

  predicate RunEnabled(c: CacheView, live: set<nat>, ops: seq<Op>)
    decreases |ops|
  {
    ops == [] || (Enabled(c, live, ops[0]) && RunEnabled(Apply(c, ops[0]), LiveAfter(c, live, ops[0]), ops[1..]))
  }

  function Run(c: CacheView, live: set<nat>, ops: seq<Op>): (CacheView, set<nat>)
    requires RunEnabled(c, live, ops)
    decreases |ops|
  {
    if ops == [] then (c, live) else Run(Apply(c, ops[0]), LiveAfter(c, live, ops[0]), ops[1..])
  }

  /** Every live object still has its bit. */
  ghost predicate Tracked(c: CacheView, live: set<nat>) {
    Valid(c) && forall obj :: obj in live ==> Taken(c, obj)
  }

  /** A new object is none of the taken ones, and takes no bit away. */
  lemma AllocTracks(c: CacheView, pages: nat, obj: nat)
    requires Valid(c) && Supplied(c, pages)
    ensures Taken(AllocObj(c, pages), AllocResult(c, pages))
    ensures Taken(c, obj) ==> Taken(AllocObj(c, pages), obj) && obj != AllocResult(c, pages)
  {
    var r, s, n := AllocObj(c, pages), Server(c, pages), |c.full|;
    AllocKeepsValid(c, pages);
    var f := FirstClear(s.bits, 0);
    assert Slabs(r) == c.full + [Take(s)];
    assert f in Slabs(r)[n].bits && AllocResult(c, pages) == ObjectAt(r, n, f);
    if Taken(c, obj) {
      var k, i :| 0 <= k < |Slabs(c)| && i in Slabs(c)[k].bits && obj == ObjectAt(c, k, i);
      assert SlabValid(Slabs(c)[k], c.size);
      assert k < n ==> Slabs(c)[k] == Slabs(r)[k];
      assert i in Slabs(r)[k].bits && obj == ObjectAt(r, k, i);
      ObjectsApart(r, k, i, n, f);
    }
  }

  /** Freeing one object leaves the bit of every other one. */
  lemma FreeTracks(c: CacheView, freed: nat, obj: nat)
    requires Valid(c) && Taken(c, freed) && Taken(c, obj) && obj != freed
    ensures Taken(FreeObj(c, freed).0, obj)
  {
    var r := FreeObj(c, freed).0;
    var k, i :| 0 <= k < |Slabs(c)| && i in Slabs(c)[k].bits && obj == ObjectAt(c, k, i);
    var l, j :| 0 <= l < |Slabs(c)| && j in Slabs(c)[l].bits && freed == ObjectAt(c, l, j);
    FreedBit(c, freed, l, j);
    assert i in Slabs(r)[k].bits && obj == ObjectAt(r, k, i);
  }

  /** `free_obj` on a taken object clears no bit but that object's. */
  lemma FreedBit(c: CacheView, freed: nat, l: nat, j: nat)
    requires Valid(c) && l < |Slabs(c)| && j in Slabs(c)[l].bits && freed == ObjectAt(c, l, j)
    ensures var r := FreeObj(c, freed).0;
      |Slabs(r)| == |Slabs(c)| && r.size == c.size &&
      forall k, i :: 0 <= k < |Slabs(c)| && i in Slabs(c)[k].bits && !(k == l && i == j) ==>
        i in Slabs(r)[k].bits && Slabs(r)[k].buf == Slabs(c)[k].buf
  {
    assert SlabValid(Slabs(c)[l], c.size);
    forall k | 0 <= k < |Slabs(c)|
      ensures InBuffer(Slabs(c)[k], c.size, freed) <==> k == l
    {
      OwnBuffer(c, l, j, k);
    }
    QuotientUnique(freed - Slabs(c)[l].buf, c.size, j, 0);
    assert c.open != [] ==> Slabs(c)[|c.full|] == c.open[0];
    assert c.full != [] ==> Slabs(c)[0] == c.full[0];
  }

  /**
   `free_obj` reports success on a taken object, and clears its bit, just when the object lies
   in the open slab or in the first slab of the full list; in any later full slab it stays taken.
   */
  lemma FreeFindsIff(c: CacheView, freed: nat, l: nat, j: nat)
    requires Valid(c) && l < |Slabs(c)| && j in Slabs(c)[l].bits && freed == ObjectAt(c, l, j)
    ensures var (r, found) := FreeObj(c, freed);
      && (found <==> l == 0 || l == |c.full|)
      && (j in Slabs(r)[l].bits <==> !found)
  {
    var s := Slabs(c)[l];
    assert SlabValid(s, c.size);
    if l == |c.full| {
      assert s == c.open[0] && |s.bits - {j}| == |s.bits| - 1;
    }
    forall k | 0 <= k < |Slabs(c)|
      ensures InBuffer(Slabs(c)[k], c.size, freed) <==> k == l
    {
      OwnBuffer(c, l, j, k);
    }
    QuotientUnique(freed - s.buf, c.size, j, 0);
    assert c.open != [] ==> Slabs(c)[|c.full|] == c.open[0];
    assert c.full != [] ==> Slabs(c)[0] == c.full[0];
  }

  /** An object lies in the buffer of its own slab only. */
  lemma OwnBuffer(c: CacheView, l: nat, j: nat, k: nat)
    requires Valid(c) && l < |Slabs(c)| && k < |Slabs(c)| && j < OBJECTS
    ensures InBuffer(Slabs(c)[k], c.size, ObjectAt(c, l, j)) <==> k == l
  {
    var s, t := Slabs(c)[k], Slabs(c)[l];
    assert SlabValid(s, c.size) && SlabValid(t, c.size);
    ObjectInside(c, l, j);
    ScaleLe(j + 1, OBJECTS, c.size);
    ScaleLe(j, OBJECTS, c.size);
    if k < l {
      assert PagesApart(s.address, t.address, c.size);
    } else if l < k {
      assert PagesApart(t.address, s.address, c.size);
    }
  }

  lemma StepKeepsTracked(c: CacheView, live: set<nat>, op: Op)
    requires Tracked(c, live) && Enabled(c, live, op)
    ensures Tracked(Apply(c, op), LiveAfter(c, live, op))
    ensures op.Get? ==> AllocResult(c, op.pages) !in live
  {
    match op
    case Get(pages) =>
      AllocKeepsValid(c, pages);
      forall obj: nat
        ensures Taken(AllocObj(c, pages), AllocResult(c, pages))
        ensures obj in live ==> Taken(AllocObj(c, pages), obj) && obj != AllocResult(c, pages)
      {
        AllocTracks(c, pages, obj);
      }
    case Put(freed) =>
      FreeKeepsValid(c, freed);
      forall obj | obj in live - {freed}
        ensures Taken(FreeObj(c, freed).0, obj)
      {
        FreeTracks(c, freed, obj);
      }
  }

  /** In every run the cache stays valid and every object handed out and not returned keeps its bit. */
  lemma {:induction false} RunKeepsTracked(c: CacheView, live: set<nat>, ops: seq<Op>)
    requires Tracked(c, live) && RunEnabled(c, live, ops)
    ensures Tracked(Run(c, live, ops).0, Run(c, live, ops).1)
    decreases |ops|
  {
    if ops != [] {
      StepKeepsTracked(c, live, ops[0]);
      RunKeepsTracked(Apply(c, ops[0]), LiveAfter(c, live, ops[0]), ops[1..]);
    }
  }

  /** So live objects never overlap. */
  lemma LiveObjectsApart(c: CacheView, live: set<nat>, a: nat, b: nat)
    requires Tracked(c, live) && a in live && b in live && a != b
    ensures a + c.size <= b || b + c.size <= a
  {
    var k, i :| 0 <= k < |Slabs(c)| && i in Slabs(c)[k].bits && a == ObjectAt(c, k, i);
    var l, j :| 0 <= l < |Slabs(c)| && j in Slabs(c)[l].bits && b == ObjectAt(c, l, j);
    assert SlabValid(Slabs(c)[k], c.size) && SlabValid(Slabs(c)[l], c.size);
    ObjectsApart(c, k, i, l, j);
  }

  /** The cache as its constructor leaves it: one root slab, whose buffer starts behind the descriptor. */
  function NewCache(size: nat, address: nat): CacheView {
    CacheView(size, [NewSlab(address, true)], [])
  }

  lemma NewCacheTracked(size: nat, address: nat)
    requires size > 0 && PageAddress(address)
    ensures Tracked(NewCache(size, address), {})
  {
    NewSlabValid(size, address, true);
  }

  // ---------------------------------------------------------------------------------------
  // What frees do not give back

  /** The allocations that the slabs of a cache have served, going by `available_objects`. */
  function Served(c: CacheView): int {
    OBJECTS * |c.full| + if c.open == [] then 0 else OBJECTS - c.open[0].available
  }

  function Gets(ops: seq<Op>): nat {
    if ops == [] then 0 else (if ops[0].Get? then 1 else 0) + Gets(ops[1..])
  }

  lemma StepServes(c: CacheView, op: Op)
    requires Valid(c) && (op.Get? ==> Supplied(c, op.pages))
    ensures Served(Apply(c, op)) == Served(c) + if op.Get? then 1 else 0
  {
    hide SlabBytes, BufferOf;
    if op.Get? {
      assert c.open != [] ==> c.open[0].available > 0;
    }
  }

  /** In every run each allocation uses up one of the 256 objects of some slab, and no free gives one back. */
  lemma {:induction false} RunServes(c: CacheView, live: set<nat>, ops: seq<Op>)
    requires Tracked(c, live) && RunEnabled(c, live, ops)
    ensures Served(Run(c, live, ops).0) == Served(c) + Gets(ops)
    decreases |ops|
  {
    if ops != [] {
      StepServes(c, ops[0]);
      StepKeepsTracked(c, live, ops[0]);
      hide Valid, Served, Apply, LiveAfter, Enabled;
      RunServes(Apply(c, ops[0]), LiveAfter(c, live, ops[0]), ops[1..]);
    }
  }

  /** So a cache has filled one slab for every 256 allocations, whatever was freed in between. */
  lemma FullSlabsCountAllocations(size: nat, address: nat, ops: seq<Op>)
    requires size > 0 && PageAddress(address) && RunEnabled(NewCache(size, address), {}, ops)
    ensures |Run(NewCache(size, address), {}, ops).0.full| == Gets(ops) / OBJECTS
  {
    var c := NewCache(size, address);
    NewCacheTracked(size, address);
    RunServes(c, {}, ops);
    RunKeepsTracked(c, {}, ops);
    var r := Run(c, {}, ops).0;
    OpenUnused(r);
    hide Valid, Run, RunEnabled;
    QuotientUnique(Gets(ops), 256, |r.full|, Served(r) - 256 * |r.full|);
  }

  lemma OpenUnused(c: CacheView)
    requires Valid(c)
    ensures 0 <= Served(c) - OBJECTS * |c.full| < OBJECTS
  {
    if c.open != [] {
      assert Slabs(c)[|c.full|] == c.open[0] && SlabValid(c.open[0], c.size);
    }
  }

  /** The objects that the allocations of a run return. */
  function Results(c: CacheView, live: set<nat>, ops: seq<Op>): seq<nat>
    requires RunEnabled(c, live, ops)
    decreases |ops|
  {
    if ops == [] then []
    else
      (if ops[0].Get? then [AllocResult(c, ops[0].pages)] else []) +
      Results(Apply(c, ops[0]), LiveAfter(c, live, ops[0]), ops[1..])
  }

  lemma StepKeepsFull(c: CacheView, op: Op, i: nat)
    requires Valid(c) && (op.Get? ==> Supplied(c, op.pages)) && i < |c.full|
    ensures var r := Apply(c, op);
      && i < |r.full| && r.size == c.size && r.full[i].buf == c.full[i].buf && r.full[i].address == c.full[i].address
      && (op.Get? ==> !InBuffer(c.full[i], c.size, AllocResult(c, op.pages)))
  {
    if op.Get? {
      AllocKeepsValid(c, op.pages);
      var r, s := AllocObj(c, op.pages), Server(c, op.pages);
      assert Slabs(r) == c.full + [Take(s)];
      OwnBuffer(r, |c.full|, FirstClear(s.bits, 0), i);
    }
  }

  /** No object of a full slab is ever handed out again. */
  lemma {:induction false} FullStaysFull(c: CacheView, live: set<nat>, ops: seq<Op>, i: nat, obj: nat)
    requires Tracked(c, live) && RunEnabled(c, live, ops) && i < |c.full| && obj in Results(c, live, ops)
    ensures !InBuffer(c.full[i], c.size, obj)
    decreases |ops|
  {
    StepKeepsFull(c, ops[0], i);
    StepKeepsTracked(c, live, ops[0]);
    hide Valid, Apply, LiveAfter, AllocResult, Enabled;
    if !(ops[0].Get? && obj == AllocResult(c, ops[0].pages)) {
      FullStaysFull(Apply(c, ops[0]), LiveAfter(c, live, ops[0]), ops[1..], i, obj);
    }
  }

  // A reachable cache that cannot take an object back

  /** A cache whose first slab is the one at `address` and that has served `n` allocations. */
  ghost predicate ServedFrom(c: CacheView, live: set<nat>, size: nat, address: nat, n: nat) {
    Tracked(c, live) && c.size == size && Slabs(c) != [] && Slabs(c)[0].address == address && Served(c) == n
  }

  function Requests(pages: nat, k: nat): seq<Op> {
    if k == 0 then [] else [Get(pages)] + Requests(pages, k - 1)
  }

  lemma RequestKeeps(c: CacheView, live: set<nat>, size: nat, address: nat, pages: nat, n: nat)
    requires ServedFrom(c, live, size, address, n) && n < 512
    requires PageAddress(pages) && PagesApart(address, pages, size)
    ensures Supplied(c, pages) && ServedFrom(AllocObj(c, pages), live + {AllocResult(c, pages)}, size, address, n + 1)
    ensures |c.full| == n / 256
  {
    OpenUnused(c);
    QuotientUnique(n, 256, |c.full|, n - 256 * |c.full|);
    if c.open == [] {
      assert Slabs(c) == c.full && |c.full| == 1;
    }
    StepServes(c, Get(pages));
    StepKeepsTracked(c, live, Get(pages));
    AllocKeepsValid(c, pages);
    assert Slabs(AllocObj(c, pages)) == c.full + [Take(Server(c, pages))];
    assert c.full != [] ==> Slabs(c)[0] == c.full[0];
  }

  /** After 512 allocations, the object returned last is live, and `free_obj` does not find it. */
  lemma {:induction false} LostObject(c: CacheView, live: set<nat>, size: nat, address: nat, pages: nat, n: nat)
    requires ServedFrom(c, live, size, address, n) && n < 512
    requires PageAddress(pages) && PagesApart(address, pages, size)
    ensures var ops := Requests(pages, 512 - n);
      && RunEnabled(c, live, ops) && var (r, held) := Run(c, live, ops);
      && r.size > 0 && |r.full| == 2 && exists obj :: obj in held && Taken(r, obj) && !FreeObj(r, obj).1
    decreases 512 - n
  {
    hide Valid, AllocObj, AllocResult, FreeObj, Taken, PagesApart, PageAddress, Served, Slabs;
    var ops := Requests(pages, 512 - n);
    RequestKeeps(c, live, size, address, pages, n);
    var r, held := AllocObj(c, pages), live + {AllocResult(c, pages)};
    assert ops[0] == Get(pages) && ops[1..] == Requests(pages, 512 - (n + 1));
    if n + 1 < 512 {
      LostObject(r, held, size, address, pages, n + 1);
    } else {
      LastLost(c, live, pages);
      assert ops[1..] == [];
      assert Run(r, held, ops[1..]) == (r, held);
    }
  }

  /** Such a cache is reached from every new one by 512 allocations. */
  lemma LostObjectReached(size: nat, address: nat, pages: nat)
    requires size > 0 && PageAddress(address) && PageAddress(pages) && PagesApart(address, pages, size)
    ensures var c, ops := NewCache(size, address), Requests(pages, 512);
      && RunEnabled(c, {}, ops) && var (r, held) := Run(c, {}, ops);
      && r.size > 0 && |r.full| == 2 && exists obj :: obj in held && Taken(r, obj) && !FreeObj(r, obj).1
  {
    NewCacheTracked(size, address);
    hide Valid, FreeObj, Taken, PagesApart, PageAddress, Run, RunEnabled;
    LostObject(NewCache(size, address), {}, size, address, pages, 0);
  }

  lemma LastLost(c: CacheView, live: set<nat>, pages: nat)
    requires Tracked(c, live) && Supplied(c, pages) && Served(c) == 511 && |c.full| == 1
    ensures var r, obj := AllocObj(c, pages), AllocResult(c, pages);
      r.size > 0 && |r.full| == 2 && Taken(r, obj) && !FreeObj(r, obj).1
  {
    var r, s := AllocObj(c, pages), Server(c, pages);
    var f := FirstClear(s.bits, 0);
    AllocKeepsValid(c, pages);
    assert Slabs(r) == c.full + [Take(s)];
    assert f in Slabs(r)[1].bits && AllocResult(c, pages) == ObjectAt(r, 1, f);
    FreeFindsIff(r, AllocResult(c, pages), 1, f);
  }
}
