/**
 All slab caches over one page allocator: every slab stands on a run of pages that
 `pmm::calloc` handed out, so objects of different caches never overlap either.
 */
module KernelHeap {
  import opened Wrappers
  import Pmm
  import opened Slab

  /**
   The page allocator with its live runs, the caches with their live objects, and the `high_vma`
   at which physical memory appears.
   */
  datatype Heap = Heap(mem: Pmm.Memory, runs: set<Pmm.Live>, caches: seq<CacheView>, held: seq<set<nat>>, high: nat)

  datatype HeapOp =
    | NewCacheOf(size: nat)             // cache::cache
    | AllocFrom(k: nat)                 // alloc_obj on cache k
    | FreeTo(k: nat, obj: nat)          // free_obj on cache k
    | TakePages(cnt: nat, align: nat)   // any other pmm::alloc
    | GivePages(run: Pmm.Live)          // pmm::free of pages that hold no slab
    | WriteElsewhere(bits: set<nat>)    // memory of the bitmap buffer that holds no bitmap changes

  /** `pages_per_slab`. */
  function SlabPages(size: nat): nat {
    SlabBytes(size) / 0x1000
  }

  lemma SlabPagesIs(size: nat)
    ensures SlabPages(size) * 0x1000 == SlabBytes(size) && SlabPages(size) > 0
  {
  }

  /** The address of the pages that the next slab of this object size would get. */
  function PagesFor(h: Heap, size: nat): nat {
    var r := Pmm.Choice(h.mem, SlabPages(size), 1);
    if r.Some? && r.value.chunk < |h.mem.chunks| then h.high + Pmm.Address(h.mem, r.value) else 0
  }

  /** The first byte of every slab of a cache. */
  function Addresses(c: CacheView): set<nat> {
    set i | 0 <= i < |Slabs(c)| :: Slabs(c)[i].address
  }

  predicate Backs(h: Heap, run: Pmm.Live, address: nat, size: nat) {
    && run in h.runs && run.chunk < |h.mem.chunks|
    && address == h.high + Pmm.Address(h.mem, run) && run.cnt * 0x1000 == SlabBytes(size)
  }

  ghost predicate Backed(h: Heap, address: nat, size: nat) {
    exists run :: Backs(h, run, address, size)
  }

  /** Slabs of different caches lie apart. */
  predicate SlabsApart(a: nat, sizeA: nat, b: nat, sizeB: nat) {
    a + SlabBytes(sizeA) <= b || b + SlabBytes(sizeB) <= a
  }

  ghost predicate CachesApart(h: Heap, k: nat, l: nat)
    requires k < |h.caches| && l < |h.caches|
  {
    forall a, b :: a in Addresses(h.caches[k]) && b in Addresses(h.caches[l]) ==>
      SlabsApart(a, h.caches[k].size, b, h.caches[l].size)
  }

  ghost predicate CacheBacked(h: Heap, k: nat)
    requires k < |h.caches|
  {
    forall a :: a in Addresses(h.caches[k]) ==> Backed(h, a, h.caches[k].size)
  }

  /** Mapped at `high`, all physical memory has 64-bit addresses. */
  predicate Mapped(mem: Pmm.Memory, high: nat) {
    high % 0x1000 == 0 &&
    forall k :: 0 <= k < |mem.chunks| ==> high + mem.chunks[k].base + mem.chunks[k].pages * 0x1000 <= WORD
  }

  ghost predicate HeapValid(h: Heap) {
    && Pmm.Valid(h.mem, h.runs) && Mapped(h.mem, h.high) && |h.held| == |h.caches|
    && (forall k :: 0 <= k < |h.caches| ==> Tracked(h.caches[k], h.held[k]))
    && (forall k :: 0 <= k < |h.caches| ==> CacheBacked(h, k))
    && (forall k, l {:trigger CachesApart(h, k, l)} :: 0 <= k < |h.caches| && 0 <= l < |h.caches| && k != l ==> CachesApart(h, k, l))
  }

  /** Pages are there for a new slab; live objects and runs without a slab are what callers give back. */
  ghost predicate Enabled(h: Heap, op: HeapOp) {
    match op
    case NewCacheOf(size) => size > 0 && Pmm.Served(h.mem, SlabPages(size), 1)
    case AllocFrom(k) =>
      k < |h.caches| == |h.held| && (h.caches[k].open == [] ==> Pmm.Served(h.mem, SlabPages(h.caches[k].size), 1))
    case FreeTo(k, obj) => k < |h.caches| == |h.held| && h.caches[k].size > 0 && obj in h.held[k]
    case TakePages(cnt, align) => Pmm.Enabled(h.mem, h.runs, Pmm.Take(cnt, align))
    case GivePages(run) =>
      && Pmm.Enabled(h.mem, h.runs, Pmm.Give(run))
      && forall k, a :: 0 <= k < |h.caches| && a in Addresses(h.caches[k]) ==> !Backs(h, run, a, h.caches[k].size)
    case WriteElsewhere(bits) => Pmm.Enabled(h.mem, h.runs, Pmm.Elsewhere(bits))
  }

  /** The page allocator's part of a step. */
  function PagesAfter(h: Heap, op: Pmm.Op): Heap
    requires op.Take? ==> op.align > 0
    requires op.Give? ==> op.run.chunk < |h.mem.chunks|
  {
    h.(mem := Pmm.Apply(h.mem, op), runs := Pmm.LiveAfter(h.mem, h.runs, op))
  }

  function NewSlabPages(h: Heap, size: nat): Heap {
    PagesAfter(h, Pmm.Take(SlabPages(size), 1))
  }

  ghost function Step(h: Heap, op: HeapOp): Heap
    requires Enabled(h, op)
  {
    match op
    case NewCacheOf(size) =>
      NewSlabPages(h, size).(caches := h.caches + [NewCache(size, PagesFor(h, size))], held := h.held + [{}])
    case AllocFrom(k) =>
      var c := h.caches[k];
      var pages := PagesFor(h, c.size);
      var h1 := if c.open == [] then NewSlabPages(h, c.size) else h;
      h1.(caches := h.caches[k := AllocObj(c, pages)], held := h.held[k := h.held[k] + {AllocResult(c, pages)}])
    case FreeTo(k, obj) =>
      h.(caches := h.caches[k := FreeObj(h.caches[k], obj).0], held := h.held[k := h.held[k] - {obj}])
    case TakePages(cnt, align) => PagesAfter(h, Pmm.Take(cnt, align))
    case GivePages(run) => PagesAfter(h, Pmm.Give(run))
    case WriteElsewhere(bits) => PagesAfter(h, Pmm.Elsewhere(bits))
  }

  ghost predicate RunEnabled(h: Heap, ops: seq<HeapOp>)
    decreases |ops|
  {
    ops == [] || (Enabled(h, ops[0]) && RunEnabled(Step(h, ops[0]), ops[1..]))
  }

  ghost function Run(h: Heap, ops: seq<HeapOp>): Heap
    requires RunEnabled(h, ops)
    decreases |ops|
  {
    if ops == [] then h else Run(Step(h, ops[0]), ops[1..])
  }

  // ---------------------------------------------------------------------------------------
  // The page allocator's steps

  lemma PagesKeepValid(h: Heap, op: Pmm.Op)
    requires Pmm.Valid(h.mem, h.runs) && Mapped(h.mem, h.high) && Pmm.Enabled(h.mem, h.runs, op)
    ensures var r := PagesAfter(h, op); Pmm.Valid(r.mem, r.runs) && Mapped(r.mem, r.high)
  {
    Pmm.StepKeepsValid(h.mem, h.runs, op);
    SameGeometry(h, op);
  }

  /** Chunks never move. */
  lemma SameGeometry(h: Heap, op: Pmm.Op)
    requires op.Take? ==> op.align > 0
    requires op.Give? ==> op.run.chunk < |h.mem.chunks|
    ensures var r := PagesAfter(h, op).mem;
      |r.chunks| == |h.mem.chunks| &&
      forall k :: 0 <= k < |r.chunks| ==> r.chunks[k].base == h.mem.chunks[k].base && r.chunks[k].pages == h.mem.chunks[k].pages
  {
  }

  lemma AddressKept(h: Heap, op: Pmm.Op, run: Pmm.Live)
    requires op.Take? ==> op.align > 0
    requires op.Give? ==> op.run.chunk < |h.mem.chunks|
    requires run.chunk < |h.mem.chunks|
    ensures var r := PagesAfter(h, op); run.chunk < |r.mem.chunks| && Pmm.Address(r.mem, run) == Pmm.Address(h.mem, run)
  {
    SameGeometry(h, op);
  }

  /** A slab keeps its run unless that very run is given back. */
  lemma BackedKept(h: Heap, op: Pmm.Op, address: nat, size: nat)
    requires Pmm.Enabled(h.mem, h.runs, op) && Backed(h, address, size)
    requires op.Give? ==> !Backs(h, op.run, address, size)
    ensures Backed(PagesAfter(h, op), address, size)
  {
    hide SlabBytes, Pmm.Served, Pmm.Refused;
    var run :| Backs(h, run, address, size);
    AddressKept(h, op, run);
    assert Backs(PagesAfter(h, op), run, address, size);
  }

  /** What `pmm::calloc` hands out for a slab. */
  function NewRun(h: Heap, size: nat): Option<Pmm.Live> {
    Pmm.Choice(h.mem, SlabPages(size), 1)
  }

  lemma NewRunIs(h: Heap, size: nat)
    requires Pmm.Valid(h.mem, h.runs) && Mapped(h.mem, h.high) && Pmm.Served(h.mem, SlabPages(size), 1)
    ensures var run, r := NewRun(h, size), NewSlabPages(h, size);
      && run.Some? && run.value.cnt == SlabPages(size) && Pmm.Inside(h.mem.chunks, run.value)
      && run.value !in h.runs && r.runs == h.runs + {run.value} && Pmm.Valid(r.mem, r.runs)
  {
    hide Pmm.Valid, Pmm.Served, Pmm.Mark, SlabPages;
    Pmm.ChoiceIff(h.mem, SlabPages(size), 1);
    Pmm.ChoiceIsFresh(h.mem, h.runs, SlabPages(size), 1);
    PagesKeepValid(h, Pmm.Take(SlabPages(size), 1));
  }

  /** The pages of a new slab stand on that run. */
  lemma NewPagesBacked(h: Heap, size: nat)
    requires Pmm.Valid(h.mem, h.runs) && Mapped(h.mem, h.high) && Pmm.Served(h.mem, SlabPages(size), 1)
    ensures PageAddress(PagesFor(h, size)) && Backed(NewSlabPages(h, size), PagesFor(h, size), size)
  {
    hide SlabBytes, SlabPages, Pmm.Valid, Pmm.Served, Pmm.Choice, Pmm.Apply, Pmm.LiveAfter, PageAddress, Mapped, Pmm.Address;
    NewRunIs(h, size);
    SlabPagesIs(size);
    AddressKept(h, Pmm.Take(SlabPages(size), 1), NewRun(h, size).value);
    RunAddress(h, NewRun(h, size).value);
    assert Backs(NewSlabPages(h, size), NewRun(h, size).value, PagesFor(h, size), size);
  }

  /** They lie apart from every slab there is. */
  lemma NewPagesApart(h: Heap, size: nat, address: nat, other: nat)
    requires Pmm.Valid(h.mem, h.runs) && Mapped(h.mem, h.high) && Pmm.Served(h.mem, SlabPages(size), 1)
    requires Backed(h, address, other)
    ensures SlabsApart(address, other, PagesFor(h, size), size)
  {
    hide SlabBytes, SlabPages, Pmm.Valid, Pmm.Served, Pmm.Choice, Pmm.Apply, Pmm.LiveAfter, Mapped, Pmm.Address;
    NewRunIs(h, size);
    SlabPagesIs(size);
    var r, run, op := NewSlabPages(h, size), NewRun(h, size).value, Pmm.Take(SlabPages(size), 1);
    var q :| Backs(h, q, address, other);
    AddressKept(h, op, q);
    AddressKept(h, op, run);
    Pmm.LiveRunsApart(r.mem, r.runs, q, run);
  }

  lemma RunAddress(h: Heap, run: Pmm.Live)
    requires Pmm.Valid(h.mem, h.runs) && Mapped(h.mem, h.high) && Pmm.Inside(h.mem.chunks, run)
    ensures PageAddress(h.high + Pmm.Address(h.mem, run))
  {
    var c := h.mem.chunks[run.chunk];
    assert c.base % 0x1000 == 0 && run.start < c.pages;
  }

  // ---------------------------------------------------------------------------------------
  // The caches' steps

  lemma AllocAddresses(c: CacheView, pages: nat)
    requires |c.open| <= 1
    ensures Addresses(AllocObj(c, pages)) == if c.open == [] then Addresses(c) + {pages} else Addresses(c)
  {
    var r, s := AllocObj(c, pages), Server(c, pages);
    assert Slabs(r) == c.full + [Take(s)];
    assert Slabs(c) == if c.open == [] then c.full else c.full + [s];
    var n := |c.full|;
    assert forall i :: 0 <= i < |Slabs(r)| ==> Slabs(r)[i].address == if i < n then c.full[i].address else s.address;
    assert forall i :: 0 <= i < n ==> Slabs(c)[i].address == c.full[i].address == Slabs(r)[i].address;
    assert Slabs(r)[n].address == s.address;
    if c.open != [] {
      assert Slabs(c)[n].address == s.address;
    }
  }

  lemma FreeAddresses(c: CacheView, obj: nat)
    requires c.size > 0
    ensures Addresses(FreeObj(c, obj).0) == Addresses(c)
  {
    var r := FreeObj(c, obj).0;
    assert |Slabs(r)| == |Slabs(c)|;
    assert forall i :: 0 <= i < |Slabs(c)| ==> Slabs(r)[i].address == Slabs(c)[i].address;
  }

  /** Pages for a cache that needs a slab are fresh for it. */
  lemma CacheSupplied(h: Heap, k: nat)
    requires HeapValid(h) && Enabled(h, AllocFrom(k))
    ensures Supplied(h.caches[k], PagesFor(h, h.caches[k].size))
  {
    hide SlabBytes, SlabPages, Pmm.Valid, Pmm.Served, Mapped, PagesFor;
    var c := h.caches[k];
    if c.open == [] {
      NewPagesBacked(h, c.size);
      forall i | 0 <= i < |Slabs(c)|
        ensures PagesApart(Slabs(c)[i].address, PagesFor(h, c.size), c.size)
      {
        assert CacheBacked(h, k) && Slabs(c)[i].address in Addresses(c);
        NewPagesApart(h, c.size, Slabs(c)[i].address, c.size);
      }
    }
  }

  /** Steps of the page allocator keep the slabs of every cache on their runs. */
  lemma PagesKeepHeap(h: Heap, op: Pmm.Op)
    requires HeapValid(h) && Pmm.Enabled(h.mem, h.runs, op)
    requires op.Give? ==> forall k, a :: 0 <= k < |h.caches| && a in Addresses(h.caches[k]) ==> !Backs(h, op.run, a, h.caches[k].size)
    ensures HeapValid(PagesAfter(h, op))
  {
    hide Backed, Addresses, Pmm.Valid, Pmm.Served, Pmm.Refused, Mapped, Tracked, SlabsApart, Pmm.Apply, Pmm.LiveAfter;
    var r := PagesAfter(h, op);
    PagesKeepValid(h, op);
    forall k | 0 <= k < |r.caches|
      ensures CacheBacked(r, k)
    {
      assert CacheBacked(h, k);
      forall a | a in Addresses(h.caches[k]) ensures Backed(r, a, h.caches[k].size) {
        BackedKept(h, op, a, h.caches[k].size);
      }
    }
    forall k, l | 0 <= k < |r.caches| && 0 <= l < |r.caches| && k != l
      ensures CachesApart(r, k, l)
    {
      assert CachesApart(h, k, l);
    }
  }

  /** Replacing cache `k` by one whose slabs are backed and apart from the others'. */
  lemma ReplaceCache(h: Heap, k: nat, c: CacheView, held: set<nat>)
    requires HeapValid(h) && k < |h.caches| && Tracked(c, held) && c.size == h.caches[k].size
    requires forall a :: a in Addresses(c) ==> Backed(h, a, c.size)
    requires forall l, a, b :: 0 <= l < |h.caches| && l != k && a in Addresses(c) && b in Addresses(h.caches[l]) ==>
      SlabsApart(a, c.size, b, h.caches[l].size)
    ensures HeapValid(h.(caches := h.caches[k := c], held := h.held[k := held]))
  {
    hide Backs, Addresses, Pmm.Valid, Mapped, Tracked;
    var r := h.(caches := h.caches[k := c], held := h.held[k := held]);
    forall i | 0 <= i < |r.caches|
      ensures CacheBacked(r, i)
    {
      assert CacheBacked(h, i);
      forall a | a in Addresses(r.caches[i]) ensures Backed(r, a, r.caches[i].size) {
        assert Backed(h, a, r.caches[i].size);
        SameBacking(h, r, a, r.caches[i].size);
      }
    }
    forall i, j | 0 <= i < |r.caches| && 0 <= j < |r.caches| && i != j
      ensures CachesApart(r, i, j)
    {
      assert CachesApart(h, i, j);
      forall a, b | a in Addresses(r.caches[i]) && b in Addresses(r.caches[j])
        ensures SlabsApart(a, r.caches[i].size, b, r.caches[j].size)
      {
        if j == k {
          assert SlabsApart(b, c.size, a, h.caches[i].size);
        }
      }
    }
  }

  /** Backing depends on the page allocator only. */
  lemma SameBacking(h: Heap, r: Heap, address: nat, size: nat)
    requires r.mem == h.mem && r.runs == h.runs && r.high == h.high
    ensures Backed(h, address, size) <==> Backed(r, address, size)
  {
    hide SlabBytes;
    if Backed(h, address, size) {
      var run :| Backs(h, run, address, size);
      assert Backs(r, run, address, size);
    }
    if Backed(r, address, size) {
      var run :| Backs(r, run, address, size);
      assert Backs(h, run, address, size);
    }
  }

  lemma FreeKeepsHeap(h: Heap, k: nat, obj: nat)
    requires HeapValid(h) && Enabled(h, FreeTo(k, obj))
    ensures HeapValid(Step(h, FreeTo(k, obj)))
  {
    hide Backed, Pmm.Valid, Mapped, Valid, SlabsApart;
    var c := h.caches[k];
    StepKeepsTracked(c, h.held[k], Put(obj));
    FreeAddresses(c, obj);
    hide Addresses, FreeObj, Tracked;
    assert CacheBacked(h, k);
    forall l, a, b | 0 <= l < |h.caches| && l != k && a in Addresses(c) && b in Addresses(h.caches[l])
      ensures SlabsApart(a, c.size, b, h.caches[l].size)
    {
      assert CachesApart(h, k, l);
    }
    FreeKeepsSize(c, obj);
    ReplaceCache(h, k, FreeObj(c, obj).0, h.held[k] - {obj});
  }

  lemma FreeKeepsSize(c: CacheView, obj: nat)
    requires c.size > 0
    ensures FreeObj(c, obj).0.size == c.size
  {
  }

  lemma AllocKeepsHeap(h: Heap, k: nat)
    requires HeapValid(h) && Enabled(h, AllocFrom(k))
    ensures HeapValid(Step(h, AllocFrom(k)))
  {
    hide Backed, Pmm.Valid, Mapped, SlabsApart, SlabPages, SlabBytes, PagesFor;
    var c := h.caches[k];
    var pages := PagesFor(h, c.size);
    CacheSupplied(h, k);
    StepKeepsTracked(c, h.held[k], Get(pages));
    AllocAddresses(c, pages);
    hide Addresses, Tracked, Valid;
    var h1 := if c.open == [] then NewSlabPages(h, c.size) else h;
    if c.open == [] {
      PagesKeepHeap(h, Pmm.Take(SlabPages(c.size), 1));
      NewPagesBacked(h, c.size);
    }
    assert CacheBacked(h1, k);
    forall l, a, b | 0 <= l < |h.caches| && l != k && a in Addresses(AllocObj(c, pages)) && b in Addresses(h.caches[l])
      ensures SlabsApart(a, c.size, b, h.caches[l].size)
    {
      assert CachesApart(h, k, l) && CacheBacked(h, l);
      if a !in Addresses(c) {
        NewPagesApart(h, c.size, b, h.caches[l].size);
        ApartSymmetric(b, h.caches[l].size, a, c.size);
      }
    }
    ReplaceCache(h1, k, AllocObj(c, pages), h.held[k] + {AllocResult(c, pages)});
  }

  lemma ApartSymmetric(a: nat, sizeA: nat, b: nat, sizeB: nat)
    requires SlabsApart(a, sizeA, b, sizeB)
    ensures SlabsApart(b, sizeB, a, sizeA)
  {
  }

  lemma NewCacheKeepsHeap(h: Heap, size: nat)
    requires HeapValid(h) && Enabled(h, NewCacheOf(size))
    ensures HeapValid(Step(h, NewCacheOf(size)))
  {
    hide Pmm.Valid, Mapped, SlabPages, SlabBytes, PagesFor, Backs;
    var pages, h1, n := PagesFor(h, size), NewSlabPages(h, size), |h.caches|;
    var c := NewCache(size, pages);
    NewPagesBacked(h, size);
    PagesKeepHeap(h, Pmm.Take(SlabPages(size), 1));
    NewCacheTracked(size, pages);
    assert Addresses(c) == {pages} by {
      assert Slabs(c) == [NewSlab(pages, true)];
      assert Slabs(c)[0].address == pages;
    }
    hide Addresses, Tracked, NewCache, SlabsApart;
    var r := Step(h, NewCacheOf(size));
    forall i | 0 <= i < |r.caches|
      ensures CacheBacked(r, i)
    {
      assert i < n ==> CacheBacked(h1, i);
      forall a | a in Addresses(r.caches[i]) ensures Backed(r, a, r.caches[i].size) {
        SameBacking(h1, r, a, r.caches[i].size);
      }
    }
    forall i, j | 0 <= i < |r.caches| && 0 <= j < |r.caches| && i != j
      ensures CachesApart(r, i, j)
    {
      assert i < n && j < n ==> CachesApart(h, i, j);
      assert (i < n ==> CacheBacked(h, i)) && (j < n ==> CacheBacked(h, j));
      forall a, b | a in Addresses(r.caches[i]) && b in Addresses(r.caches[j])
        ensures SlabsApart(a, r.caches[i].size, b, r.caches[j].size)
      {
        if j == n {
          NewPagesApart(h, size, a, h.caches[i].size);
        } else if i == n {
          NewPagesApart(h, size, b, h.caches[j].size);
          ApartSymmetric(b, h.caches[j].size, a, size);
        }
      }
    }
  }

  /** In every run over all caches and all other users of pages the heap invariant holds. */
  lemma {:induction false} RunKeepsHeap(h: Heap, ops: seq<HeapOp>)
    requires HeapValid(h) && RunEnabled(h, ops)
    ensures HeapValid(Run(h, ops))
    decreases |ops|
  {
    hide HeapValid;
    if ops != [] {
      match ops[0] {
        case NewCacheOf(size) => NewCacheKeepsHeap(h, size);
        case AllocFrom(k) => AllocKeepsHeap(h, k);
        case FreeTo(k, obj) => FreeKeepsHeap(h, k, obj);
        case TakePages(cnt, align) => PagesKeepHeap(h, Pmm.Take(cnt, align));
        case GivePages(run) => PagesKeepHeap(h, Pmm.Give(run));
        case WriteElsewhere(bits) => PagesKeepHeap(h, Pmm.Elsewhere(bits));
      }
      RunKeepsHeap(Step(h, ops[0]), ops[1..]);
    }
  }

  /** Live objects never overlap, within a cache or across caches. */
  lemma HeapObjectsApart(h: Heap, k: nat, a: nat, l: nat, b: nat)
    requires HeapValid(h) && k < |h.caches| && l < |h.caches| && a in h.held[k] && b in h.held[l]
    requires !(k == l && a == b)
    ensures a + h.caches[k].size <= b || b + h.caches[l].size <= a
  {
    hide Pmm.Valid, Mapped, SlabBytes;
    if k == l {
      LiveObjectsApart(h.caches[k], h.held[k], a, b);
    } else {
      var x := SlabOf(h, k, a);
      var y := SlabOf(h, l, b);
      assert CachesApart(h, k, l) && SlabsApart(x, h.caches[k].size, y, h.caches[l].size);
    }
  }

  /** A live object lies inside the pages of a slab of its cache, behind header and bitmap. */
  lemma SlabOf(h: Heap, k: nat, a: nat) returns (x: nat)
    requires HeapValid(h) && k < |h.caches| && a in h.held[k]
    ensures x in Addresses(h.caches[k]) && x + SLAB_HEADER + BITMAP <= a && a + h.caches[k].size <= x + SlabBytes(h.caches[k].size)
  {
    hide Pmm.Valid, Mapped, SlabBytes;
    var c := h.caches[k];
    assert Tracked(c, h.held[k]);
    var i, j :| 0 <= i < |Slabs(c)| && j in Slabs(c)[i].bits && a == ObjectAt(c, i, j);
    assert SlabValid(Slabs(c)[i], c.size);
    ObjectInside(c, i, j);
    x := Slabs(c)[i].address;
  }
}
