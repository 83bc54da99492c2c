/**
 Page tables, slabs and all other users of physical pages together: every table frame comes from
 `pmm::calloc`, so tables and slabs never share memory, and the frames that the page-table
 manager takes are as fresh as its invariant needs.
 */
module KernelMemory {
  import opened Wrappers
  import Pmm
  import opened Slab
  import opened KernelHeap
  import opened PageTable
  import opened FlatMap
  import AddressSpaces
  import Boot

  /** The heap, the address spaces, and the frames that hold page tables. */
  datatype Kernel = Kernel(heap: Heap, spaces: AddressSpaces.Spaces, tables: set<nat>)

  datatype KernelOp =
    | HeapStep(step: HeapOp)
    | TableStep(call: AddressSpaces.Op, frames: nat)   // an operation on an address space that takes so many frames

  // ---------------------------------------------------------------------------------------
  // Frames from the page allocator

  /** The page number of the next frame. */
  function NextFrame(mem: Pmm.Memory): nat {
    var r := Pmm.Choice(mem, 1, 1);
    if r.Some? && r.value.chunk < |mem.chunks| then Pmm.Address(mem, r.value) / 0x1000 else 0
  }

  /** The heap after `pmm::calloc(1)`. */
  function TakeFrame(h: Heap): Heap {
    PagesAfter(h, Pmm.Take(1, 1))
  }

  ghost predicate Supplies(h: Heap, n: nat)
    decreases n
  {
    n == 0 || (Pmm.Served(h.mem, 1, 1) && Supplies(TakeFrame(h), n - 1))
  }

  function TakeFrames(h: Heap, n: nat): Heap
    decreases n
  {
    if n == 0 then h else TakeFrames(TakeFrame(h), n - 1)
  }

  /** The frames that `n` calls hand out. */
  function FramesOf(h: Heap, n: nat): (r: seq<nat>)
    ensures |r| == n
    decreases n
  {
    if n == 0 then [] else [NextFrame(h.mem)] + FramesOf(TakeFrame(h), n - 1)
  }

  /** Frame `f` is a live run of one page. */
  predicate Holds(h: Heap, run: Pmm.Live, f: nat) {
    run in h.runs && run.chunk < |h.mem.chunks| && run.cnt == 1 && Pmm.Address(h.mem, run) == f * 0x1000
  }

  ghost predicate Held(h: Heap, f: nat) {
    exists run :: Holds(h, run, f)
  }

  /** Frame `f` lies apart from the slab at `address`. */
  predicate FrameApart(h: Heap, f: nat, address: nat, size: nat) {
    h.high + f * 0x1000 + 0x1000 <= address || address + SlabBytes(size) <= h.high + f * 0x1000
  }

  ghost predicate ApartFromSlabs(h: Heap, f: nat) {
    forall k, a :: 0 <= k < |h.caches| && a in Addresses(h.caches[k]) ==> FrameApart(h, f, a, h.caches[k].size)
  }

  ghost predicate TablesOk(h: Heap, tables: set<nat>) {
    forall f :: f in tables ==> Held(h, f) && ApartFromSlabs(h, f)
  }

  // ---------------------------------------------------------------------------------------
  // One frame

  /** A step of the page allocator keeps a frame held unless that frame is given back. */
  lemma HeldKept(h: Heap, op: Pmm.Op, f: nat)
    requires Pmm.Enabled(h.mem, h.runs, op) && Held(h, f)
    requires op.Give? ==> !Holds(h, op.run, f)
    ensures Held(PagesAfter(h, op), f)
  {
    hide Pmm.Served, Pmm.Refused, Pmm.Address;
    var run :| Holds(h, run, f);
    AddressKept(h, op, run);
    assert Holds(PagesAfter(h, op), run, f);
  }

  /** What `pmm::calloc(1)` hands out. */
  lemma NextFrameIs(h: Heap)
    requires Pmm.Valid(h.mem, h.runs) && Pmm.Served(h.mem, 1, 1)
    ensures var run, r := Pmm.Choice(h.mem, 1, 1), TakeFrame(h);
      && run.Some? && run.value.cnt == 1 && Pmm.Inside(h.mem.chunks, run.value)
      && run.value !in h.runs && r.runs == h.runs + {run.value} && Pmm.Valid(r.mem, r.runs)
      && Pmm.Address(h.mem, run.value) == NextFrame(h.mem) * 0x1000 && Holds(r, run.value, NextFrame(h.mem))
  {
    hide Pmm.Served, Pmm.Mark;
    Pmm.ChoiceIff(h.mem, 1, 1);
    Pmm.ChoiceIsFresh(h.mem, h.runs, 1, 1);
    Pmm.StepKeepsValid(h.mem, h.runs, Pmm.Take(1, 1));
    hide Pmm.Valid, Pmm.Choice;
    var run := Pmm.Choice(h.mem, 1, 1).value;
    AddressKept(h, Pmm.Take(1, 1), run);
    PageAligned(h, run);
  }

  lemma PageAligned(h: Heap, run: Pmm.Live)
    requires Pmm.Valid(h.mem, h.runs) && Pmm.Inside(h.mem.chunks, run)
    ensures Pmm.Address(h.mem, run) % 0x1000 == 0
  {
    assert h.mem.chunks[run.chunk].base % 0x1000 == 0;
  }

  /** The next frame is none that is held. */
  lemma NextFrameIsNew(h: Heap, f: nat)
    requires Pmm.Valid(h.mem, h.runs) && Pmm.Served(h.mem, 1, 1) && Held(h, f)
    ensures NextFrame(h.mem) != f
  {
    NextFrameIs(h);
    hide Pmm.Valid, Pmm.Served, Pmm.Choice, Pmm.Apply, Pmm.LiveAfter, Pmm.Address;
    var run := Pmm.Choice(h.mem, 1, 1).value;
    var q :| Holds(h, q, f);
    var r := TakeFrame(h);
    AddressKept(h, Pmm.Take(1, 1), q);
    AddressKept(h, Pmm.Take(1, 1), run);
    Pmm.LiveRunsApart(r.mem, r.runs, q, run);
  }

  /** The next frame lies apart from every slab. */
  lemma NextFrameApart(h: Heap)
    requires HeapValid(h) && Pmm.Served(h.mem, 1, 1)
    ensures ApartFromSlabs(TakeFrame(h), NextFrame(h.mem))
  {
    NextFrameIs(h);
    hide Pmm.Valid, Pmm.Served, Pmm.Choice, Pmm.Apply, Pmm.LiveAfter, Pmm.Address, SlabBytes, Addresses, Mapped, Tracked;
    var run, r := Pmm.Choice(h.mem, 1, 1).value, TakeFrame(h);
    forall k, a | 0 <= k < |h.caches| && a in Addresses(h.caches[k])
      ensures FrameApart(r, NextFrame(h.mem), a, h.caches[k].size)
    {
      assert CacheBacked(h, k) && Backed(h, a, h.caches[k].size);
      var q :| Backs(h, q, a, h.caches[k].size);
      AddressKept(h, Pmm.Take(1, 1), q);
      AddressKept(h, Pmm.Take(1, 1), run);
      Pmm.LiveRunsApart(r.mem, r.runs, q, run);
    }
  }

  /** Taking a frame for a table. */
  lemma TakeFrameKeeps(h: Heap, tables: set<nat>)
    requires HeapValid(h) && TablesOk(h, tables) && Pmm.Served(h.mem, 1, 1)
    ensures HeapValid(TakeFrame(h)) && NextFrame(h.mem) !in tables && TablesOk(TakeFrame(h), tables + {NextFrame(h.mem)})
  {
    hide HeapValid, Pmm.Served, Pmm.Refused, Pmm.Choice, Pmm.Apply, Pmm.LiveAfter, Holds, NextFrame, FrameApart, Pmm.Valid,
      ApartFromSlabs, Pmm.Inside, Pmm.Address;
    HeapPages(h);
    NextFrameIs(h);
    NextFrameApart(h);
    PagesKeepHeap(h, Pmm.Take(1, 1));
    forall f | f in tables
      ensures f != NextFrame(h.mem) && Held(TakeFrame(h), f) && ApartFromSlabs(TakeFrame(h), f)
    {
      NextFrameIsNew(h, f);
      HeldKept(h, Pmm.Take(1, 1), f);
      SameSlabs(h, TakeFrame(h), f);
    }
    assert Held(TakeFrame(h), NextFrame(h.mem));
  }

  lemma HeapPages(h: Heap)
    requires HeapValid(h)
    ensures Pmm.Valid(h.mem, h.runs)
  {
  }

  lemma SameSlabs(h: Heap, r: Heap, f: nat)
    requires ApartFromSlabs(h, f) && r.caches == h.caches && r.high == h.high
    ensures ApartFromSlabs(r, f)
  {
    hide SlabBytes, Addresses;
    forall k, a | 0 <= k < |r.caches| && a in Addresses(r.caches[k])
      ensures FrameApart(r, f, a, r.caches[k].size)
    {
      assert FrameApart(h, f, a, h.caches[k].size);
    }
  }

  /** The frames that calls hand out one after the other are distinct and none of the tables. */
  predicate Fresh(frames: seq<nat>, tables: set<nat>) {
    && (forall i :: 0 <= i < |frames| ==> frames[i] !in tables)
    && (forall i, j :: 0 <= i < j < |frames| ==> frames[i] != frames[j])
  }

  lemma {:induction false} FramesKeep(h: Heap, tables: set<nat>, n: nat)
    requires HeapValid(h) && TablesOk(h, tables) && Supplies(h, n)
    ensures HeapValid(TakeFrames(h, n)) && Fresh(FramesOf(h, n), tables)
    ensures TablesOk(TakeFrames(h, n), tables + (set f | f in FramesOf(h, n)))
    decreases n
  {
    hide HeapValid, Pmm.Served, NextFrame, TakeFrame, Held, ApartFromSlabs;
    if n == 0 {
      assert tables + (set f | f in FramesOf(h, n)) == tables;
    } else {
      TakeFrameKeeps(h, tables);
      var f, rest := NextFrame(h.mem), FramesOf(TakeFrame(h), n - 1);
      FramesKeep(TakeFrame(h), tables + {f}, n - 1);
      assert FramesOf(h, n) == [f] + rest;
      assert tables + {f} + (set g | g in rest) == tables + (set g | g in FramesOf(h, n));
      forall i | 0 <= i < n ensures FramesOf(h, n)[i] !in tables && (i > 0 ==> FramesOf(h, n)[i] != f) {
        assert i > 0 ==> FramesOf(h, n)[i] == rest[i - 1] && rest[i - 1] !in tables + {f};
      }
    }
  }

  // ---------------------------------------------------------------------------------------
  // Steps

  /** The spaces with the frames at hand that the operation takes. */
  function Stocked(k: Kernel, n: nat): AddressSpaces.Spaces {
    k.spaces.(m := k.spaces.m.(pool := FramesOf(k.heap, n)))
  }

  ghost predicate KernelValid(k: Kernel, labels: Labels) {
    && HeapValid(k.heap) && AddressSpaces.Valid(k.spaces, labels) && k.spaces.m.pool == []
    && (forall f :: f in labels ==> f in k.tables) && TablesOk(k.heap, k.tables)
  }

  /**
   A step of the heap, which gives no table frame back, or an operation on an address space for
   which the page allocator has exactly the frames that it takes.
   */
  ghost predicate Enabled(k: Kernel, op: KernelOp) {
    match op
    case HeapStep(step) =>
      && KernelHeap.Enabled(k.heap, step)
      && (step.GivePages? ==> forall f :: f in k.tables ==> !Holds(k.heap, step.run, f))
    case TableStep(call, frames) =>
      && Supplies(k.heap, frames) && AddressSpaces.Enabled(Stocked(k, frames), call)
      && AddressSpaces.Step(Stocked(k, frames), call).m.pool == []
  }

  ghost function Step(k: Kernel, op: KernelOp): Kernel
    requires Enabled(k, op)
  {
    match op
    case HeapStep(step) => k.(heap := KernelHeap.Step(k.heap, step))
    case TableStep(call, frames) =>
      Kernel(TakeFrames(k.heap, frames), AddressSpaces.Step(Stocked(k, frames), call),
             k.tables + (set f | f in FramesOf(k.heap, frames)))
  }

  ghost predicate RunEnabled(k: Kernel, ops: seq<KernelOp>)
    decreases |ops|
  {
    ops == [] || (Enabled(k, ops[0]) && RunEnabled(Step(k, ops[0]), ops[1..]))
  }

  ghost function Run(k: Kernel, ops: seq<KernelOp>): Kernel
    requires RunEnabled(k, ops)
    decreases |ops|
  {
    if ops == [] then k else Run(Step(k, ops[0]), ops[1..])
  }

  /** The frames of the page allocator are what the page tables take for fresh. */
  lemma StockedValid(k: Kernel, labels: Labels, n: nat)
    requires KernelValid(k, labels) && Supplies(k.heap, n)
    ensures AddressSpaces.Valid(Stocked(k, n), labels)
  {
    hide HeapValid, TablesOk, Supplies, FramesOf, AddressSpaces.Valid;
    FramesKeep(k.heap, k.tables, n);
    Restock(k.spaces, labels, FramesOf(k.heap, n));
  }

  /** Which frames are at hand matters only in that they are fresh. */
  lemma Restock(s: AddressSpaces.Spaces, labels: Labels, pool: seq<nat>)
    requires AddressSpaces.Valid(s, labels) && PoolValid(pool, labels)
    ensures AddressSpaces.Valid(s.(m := s.m.(pool := pool)), labels)
  {
    hide PoolValid, Linked, Child;
    var m := s.m.(pool := pool);
    forall f, i
      ensures Read(m, f, i) == Read(s.m, f, i)
    {
    }
    hide Read;
    assert Shaped(m, labels, s.levels);
  }

  lemma TableStepKeeps(k: Kernel, labels: Labels, op: KernelOp) returns (more: Labels)
    requires KernelValid(k, labels) && op.TableStep? && Enabled(k, op)
    ensures KernelValid(Step(k, op), more)
  {
    var s := Stocked(k, op.frames);
    StockedValid(k, labels, op.frames);
    FramesKeep(k.heap, k.tables, op.frames);
    hide HeapValid, AddressSpaces.Valid, TablesOk, Supplies, FramesOf, TakeFrames;
    more := labels;
    match op.call {
      case Create => more := AddressSpaces.CreateKeepsValid(s, labels);
      case Map(_, _, _, _, _, _) => more := AddressSpaces.MapKeepsValid(s, labels, op.call);
      case Unmap(_, _) => AddressSpaces.UnmapKeepsValid(s, labels, op.call);
    }
  }

  // ---------------------------------------------------------------------------------------
  // Heap steps beside the tables

  /** A slab that a heap step adds stands on a run of its own, apart from every table. */
  lemma NewSlabApart(h: Heap, size: nat, f: nat)
    requires HeapValid(h) && Pmm.Served(h.mem, SlabPages(size), 1) && Held(h, f)
    ensures FrameApart(h, f, PagesFor(h, size), size) && Held(NewSlabPages(h, size), f)
  {
    NewRunIs(h, size);
    SlabPagesIs(size);
    hide SlabBytes, SlabPages, Pmm.Valid, Pmm.Served, Pmm.Refused, Pmm.Choice, Pmm.Apply, Pmm.LiveAfter, Mapped, Pmm.Address;
    var r, run, op := NewSlabPages(h, size), NewRun(h, size).value, Pmm.Take(SlabPages(size), 1);
    HeldKept(h, op, f);
    var q :| Holds(h, q, f);
    AddressKept(h, op, q);
    AddressKept(h, op, run);
    Pmm.LiveRunsApart(r.mem, r.runs, q, run);
  }

  /** Held frames depend on the page allocator only. */
  lemma SameHeld(h: Heap, r: Heap, f: nat)
    requires r.mem == h.mem && r.runs == h.runs && Held(h, f)
    ensures Held(r, f)
  {
    hide Pmm.Address;
    var run :| Holds(h, run, f);
    assert Holds(r, run, f);
  }

  lemma HeapStepKeepsTable(h: Heap, op: HeapOp, f: nat)
    requires HeapValid(h) && KernelHeap.Enabled(h, op) && Held(h, f) && ApartFromSlabs(h, f)
    requires op.GivePages? ==> !Holds(h, op.run, f)
    ensures Held(KernelHeap.Step(h, op), f) && ApartFromSlabs(KernelHeap.Step(h, op), f)
  {
    hide HeapValid, Holds, Pmm.Served, Pmm.Refused, Pmm.Apply, Pmm.LiveAfter, FrameApart;
    var r := KernelHeap.Step(h, op);
    match op
    case NewCacheOf(size) =>
      NewSlabApart(h, size, f);
      SameHeld(NewSlabPages(h, size), r, f);
      NewCacheApart(h, size, f);
    case AllocFrom(k) => AllocKeepsTable(h, k, f);
    case FreeTo(k, obj) =>
      SameHeld(h, r, f);
      FreeKeepsApart(h, k, obj, f);
    case TakePages(cnt, align) =>
      HeldKept(h, Pmm.Take(cnt, align), f);
      SameSlabs(h, r, f);
    case GivePages(run) =>
      HeldKept(h, Pmm.Give(run), f);
      SameSlabs(h, r, f);
    case WriteElsewhere(bits) =>
      HeldKept(h, Pmm.Elsewhere(bits), f);
      SameSlabs(h, r, f);
  }

  lemma NewCacheApart(h: Heap, size: nat, f: nat)
    requires KernelHeap.Enabled(h, NewCacheOf(size)) && ApartFromSlabs(h, f) && FrameApart(h, f, PagesFor(h, size), size)
    ensures ApartFromSlabs(KernelHeap.Step(h, NewCacheOf(size)), f)
  {
    hide SlabBytes, PagesFor, Pmm.Apply, Pmm.LiveAfter, Pmm.Served, SlabPages;
    var r, c := KernelHeap.Step(h, NewCacheOf(size)), NewCache(size, PagesFor(h, size));
    assert Slabs(c) == [NewSlab(PagesFor(h, size), true)];
    forall k, a | 0 <= k < |r.caches| && a in Addresses(r.caches[k])
      ensures FrameApart(r, f, a, r.caches[k].size)
    {
      assert k < |h.caches| ==> FrameApart(h, f, a, h.caches[k].size);
    }
  }

  lemma FreeKeepsApart(h: Heap, k: nat, obj: nat, f: nat)
    requires KernelHeap.Enabled(h, FreeTo(k, obj)) && ApartFromSlabs(h, f)
    ensures ApartFromSlabs(KernelHeap.Step(h, FreeTo(k, obj)), f)
  {
    FreeAddresses(h.caches[k], obj);
    FreeKeepsSize(h.caches[k], obj);
    hide SlabBytes, Addresses, FreeObj;
    var r := KernelHeap.Step(h, FreeTo(k, obj));
    forall l, a | 0 <= l < |r.caches| && a in Addresses(r.caches[l])
      ensures FrameApart(r, f, a, r.caches[l].size)
    {
      assert FrameApart(h, f, a, h.caches[l].size);
    }
  }

  lemma AllocKeepsTable(h: Heap, k: nat, f: nat)
    requires HeapValid(h) && KernelHeap.Enabled(h, AllocFrom(k)) && Held(h, f) && ApartFromSlabs(h, f)
    ensures var r := KernelHeap.Step(h, AllocFrom(k)); Held(r, f) && ApartFromSlabs(r, f)
  {
    hide HeapValid, Held, Pmm.Served, Pmm.Apply, Pmm.LiveAfter, SlabBytes, SlabPages, Addresses, AllocObj, PagesFor, AllocResult;
    var c, r := h.caches[k], KernelHeap.Step(h, AllocFrom(k));
    OneOpen(h, k);
    AllocAddresses(c, PagesFor(h, c.size));
    if c.open == [] {
      NewSlabApart(h, c.size, f);
      SameHeld(NewSlabPages(h, c.size), r, f);
    } else {
      SameHeld(h, r, f);
    }
    AllocKeepsSize(c, PagesFor(h, c.size));
    forall l, a | 0 <= l < |r.caches| && a in Addresses(r.caches[l])
      ensures FrameApart(r, f, a, r.caches[l].size)
    {
      assert a in Addresses(h.caches[l]) ==> FrameApart(h, f, a, h.caches[l].size);
    }
  }

  lemma OneOpen(h: Heap, k: nat)
    requires HeapValid(h) && k < |h.caches|
    ensures |h.caches[k].open| <= 1
  {
    assert Tracked(h.caches[k], h.held[k]);
  }

  lemma AllocKeepsSize(c: CacheView, pages: nat)
    ensures AllocObj(c, pages).size == c.size
  {
  }

  lemma HeapStepKeeps(k: Kernel, labels: Labels, op: KernelOp)
    requires KernelValid(k, labels) && op.HeapStep? && Enabled(k, op)
    ensures KernelValid(Step(k, op), labels)
  {
    hide HeapValid, AddressSpaces.Valid, KernelHeap.Enabled, KernelHeap.Step, Held, ApartFromSlabs;
    RunOne(k.heap, op.step);
    forall f | f in k.tables
      ensures Held(KernelHeap.Step(k.heap, op.step), f) && ApartFromSlabs(KernelHeap.Step(k.heap, op.step), f)
    {
      HeapStepKeepsTable(k.heap, op.step, f);
    }
  }

  lemma RunOne(h: Heap, op: HeapOp)
    requires HeapValid(h) && KernelHeap.Enabled(h, op)
    ensures HeapValid(KernelHeap.Step(h, op))
  {
    hide HeapValid, KernelHeap.Enabled, KernelHeap.Step;
    assert [op][0] == op && [op][1..] == [];
    RunKeepsHeap(h, [op]);
    assert KernelHeap.Run(h, [op]) == KernelHeap.Run(KernelHeap.Step(h, op), []);
  }

  /** In every run over address spaces, caches and all other users of pages, everything keeps its own memory. */
  lemma {:induction false} RunKeepsKernel(k: Kernel, labels: Labels, ops: seq<KernelOp>) returns (more: Labels)
    requires KernelValid(k, labels) && RunEnabled(k, ops)
    ensures KernelValid(Run(k, ops), more)
    decreases |ops|
  {
    hide KernelValid, Enabled, Step;
    if ops == [] {
      more := labels;
    } else {
      more := labels;
      if ops[0].HeapStep? {
        HeapStepKeeps(k, labels, ops[0]);
      } else {
        more := TableStepKeeps(k, labels, ops[0]);
      }
      more := RunKeepsKernel(Step(k, ops[0]), more, ops[1..]);
    }
  }

  /** No live object lies in a page table. */
  lemma ObjectsAvoidTables(k: Kernel, labels: Labels, f: nat, cache: nat, obj: nat)
    requires KernelValid(k, labels) && f in labels && cache < |k.heap.caches| && obj in k.heap.held[cache]
    ensures var table := k.heap.high + f * 0x1000;
      obj + k.heap.caches[cache].size <= table || table + 0x1000 <= obj
  {
    hide Pmm.Valid, SlabBytes, AddressSpaces.Valid, Addresses, Mapped, Tracked;
    var x := SlabOf(k.heap, cache, obj);
    assert ApartFromSlabs(k.heap, f) && FrameApart(k.heap, f, x, k.heap.caches[cache].size);
  }

  /**
   Booting on frames of the page allocator: when the loops of `init` take exactly `n` frames, the
   kernel mapping is a start for such runs.
   */
  lemma BootKernel(h: Heap, root: nat, levels: nat, totalMem: nat, n: nat) returns (labels: Labels)
    requires HeapValid(h) && TablesOk(h, {root}) && Supplies(h, n) && totalMem >= 0x20_0000
    requires var m := Memory(map[root := map[]], FramesOf(h, n));
      levels in {4, 5} && Boot.BootFrames(m, root, levels, totalMem) && Boot.BootMemory(m, root, levels, totalMem).pool == []
    requires Boot.HighVma(levels) + totalMem / 0x20_0000 * 0x20_0000 <= Boot.KERNEL_HIGH_VMA
    ensures var m := Memory(map[root := map[]], FramesOf(h, n));
      KernelValid(Kernel(TakeFrames(h, n), AddressSpaces.Spaces(Boot.BootMemory(m, root, levels, totalMem), [root], levels),
        {root} + (set f | f in FramesOf(h, n))), labels)
  {
    hide HeapValid, TablesOk, Supplies, FramesOf, TakeFrames, Boot.BootFrames, Boot.BootMemory, AddressSpaces.Valid;
    FramesKeep(h, {root}, n);
    var m := Memory(map[root := map[]], FramesOf(h, n));
    labels := Boot.BootIsValid(m, root, levels, totalMem);
  }
}
