/** The mapping loops of `vmm::init` (kernel/mm/vmm.cpp) for four and five levels. */
module Boot {
  import opened Arithmetic
  import opened Wrappers
  import opened PageEntry
  import opened PageTable
  import opened FlatMap
  import opened AddressSpaces
  import opened VirtualAddress
  import opened FiveLevel
  import opened Vmm
  import opened ManualWalk

  const KERNEL_HIGH_VMA: nat := 0xFFFF_FFFF_8000_0000
  const TOP: nat := 0x1_0000_0000_0000_0000

  /** `high_vma`, which kernel/main.cpp moves down when the processor has five levels. */
  function HighVma(levels: nat): nat {
    if levels == 4 then 0xFFFF_8000_0000_0000 else 0xFF00_0000_0000_0000
  }

  /** 0x3 | (1 << 2), and the same with PS and global. */
  const TABLE_FLAGS: Flags := {0, 1, 2}
  const LEAF_FLAGS: Flags := {0, 1, 2, 7, 8}

  predicate Paths(paths: seq<seq<nat>>, levels: nat) {
    forall k :: 0 <= k < |paths| ==> |paths[k]| == levels
  }

  /** There are frames for all tables that a mapping loop adds. */
  predicate CanMapPages(m: Memory, root: nat, levels: nat, paths: seq<seq<nat>>)
    requires levels in {4, 5} && Paths(paths, levels)
    decreases |paths|, 0
  {
    paths == [] ||
    var k := |paths| - 1;
    && CanMapPages(m, root, levels, paths[..k])
    && Enough(MapPages(m, root, levels, paths[..k]), root, paths[k],
         RawRequest(levels, k * 0x20_0000, TABLE_FLAGS, LEAF_FLAGS, NO_PA))
  }

  /** A mapping loop: large page `k` of physical memory is mapped at the `k`-th path. */
  function MapPages(m: Memory, root: nat, levels: nat, paths: seq<seq<nat>>): (r: Memory)
    requires levels in {4, 5} && Paths(paths, levels) && CanMapPages(m, root, levels, paths)
    decreases |paths|, 1
  {
    if paths == [] then m
    else
      var k := |paths| - 1;
      MapRaw(MapPages(m, root, levels, paths[..k]), root, paths[k], k * 0x20_0000, TABLE_FLAGS, LEAF_FLAGS, NO_PA)
  }

  /** One frame for each level and page is always enough. */
  lemma {:induction false} FramesForPages(m: Memory, root: nat, levels: nat, paths: seq<seq<nat>>)
    requires levels in {4, 5} && Paths(paths, levels) && 5 * |paths| <= |m.pool|
    ensures CanMapPages(m, root, levels, paths)
    ensures |MapPages(m, root, levels, paths).pool| >= |m.pool| - 5 * |paths|
    decreases |paths|
  {
    if paths != [] {
      var k := |paths| - 1;
      FramesForPages(m, root, levels, paths[..k]);
      var m1, req := MapPages(m, root, levels, paths[..k]), RawRequest(levels, k * 0x20_0000, TABLE_FLAGS, LEAF_FLAGS, NO_PA);
      EnoughFrames(m1, root, paths[k], req);
      MapUsesFewFrames(m1, root, paths[k], req);
    }
  }

  lemma {:induction false} MapUsesFewFrames(m: Memory, f: nat, path: seq<nat>, req: Request)
    requires 1 <= |path| == |req.flags| <= |m.pool| + 1
    ensures Enough(m, f, path, req) && |MapAt(m, f, path, req).pool| + |path| >= |m.pool| + 1
    decreases path
  {
    EnoughFrames(m, f, path, req);
    var e := Read(m, f, path[0]);
    if e == ZERO {
      if req.flags[0] != {} && !MakesLeaf(req.flags[0], |path|) {
        var m1 := Write(Calloc(m), f, path[0], Entry(m.pool[0], req.flags[0]));
        MapUsesFewFrames(m1, m.pool[0], path[1..], req.Tail());
      }
    } else if !e.IsLeaf(|path|) {
      MapUsesFewFrames(m, e.page, path[1..], req.Tail());
    }
  }

  lemma {:induction false} FillSpare(path: seq<nat>, view: seq<Slot>, other: seq<nat>, oview: seq<Slot>,
      paddr: nat, flags1: Flags, flags0: Flags, pa: int)
    requires |path| == |view| == |other| == |oview| && TableFlags(flags1)
    requires Coherent(path, view, other, oview)
    requires !SamePage(path, other, LeafLevel(flags0)) && Spare(oview, LeafLevel(flags0))
    ensures Spare(Overlay(path, Fill(view, RawRequest(|path|, paddr, flags1, flags0, pa)), other, oview), LeafLevel(flags0))
    decreases path
  {
    if path[0] == other[0] {
      var req := RawRequest(|path|, paddr, flags1, flags0, pa);
      RawRequestValid(|path|, paddr, flags1, flags0, pa);
      FillSpare(path[1..], view[1..], other[1..], oview[1..], paddr, flags1, flags0, pa);
      var result := Overlay(path, Fill(view, req), other, oview);
      assert result[1..] == Overlay(path[1..], Fill(view[1..], req.Tail()), other[1..], oview[1..]);
    }
  }

  /** A `map_page_raw` call leaves every other leaf slot of its size spare. */
  lemma MapRawKeepsSpare(m: Memory, labels: Labels, root: nat, path: seq<nat>, paddr: nat, flags1: Flags, flags0: Flags,
      pa: int, other: seq<nat>)
    requires 1 <= |path| == |other| && Enough(m, root, path, RawRequest(|path|, paddr, flags1, flags0, pa)) && TableFlags(flags1)
    requires Shaped(m, labels, |path|) && root in labels && labels[root].path == []
    requires !SamePage(path, other, LeafLevel(flags0)) && Spare(View(m, root, other), LeafLevel(flags0))
    ensures Spare(View(MapRaw(m, root, path, paddr, flags1, flags0, pa), root, other), LeafLevel(flags0))
  {
    RawRequestValid(|path|, paddr, flags1, flags0, pa);
    MapView(m, labels, |path|, root, path, RawRequest(|path|, paddr, flags1, flags0, pa), other);
    ViewsCoherent(m, root, path, other);
    FillSpare(path, View(m, root, path), other, View(m, root, other), paddr, flags1, flags0, pa);
  }

  /** The paths end in distinct large-page slots. */
  ghost predicate Distinct(paths: seq<seq<nat>>, levels: nat)
    requires Paths(paths, levels)
  {
    forall j, k :: 0 <= j < k < |paths| ==> !SamePage(paths[k], paths[j], 2) && !SamePage(paths[j], paths[k], 2)
  }

  /** `other` shares the large page of path `hit`, or of none when `hit` is -1. */
  ghost predicate Hits(paths: seq<seq<nat>>, other: seq<nat>, hit: int)
    requires Paths(paths, |other|)
  {
    && -1 <= hit < |paths|
    && forall k :: 0 <= k < |paths| ==> (SamePage(paths[k], other, 2) <==> k == hit)
  }

  lemma PrefixHits(paths: seq<seq<nat>>, levels: nat, other: seq<nat>, hit: int)
    requires paths != [] && Paths(paths, levels) && |other| == levels
    requires Distinct(paths, levels) && Hits(paths, other, hit)
    ensures var k := |paths| - 1; var before := paths[..k];
      && Distinct(before, levels)
      && Hits(before, other, if hit == k then -1 else hit)
      && Hits(before, paths[k], -1)
      && (SamePage(paths[k], other, 2) <==> hit == k)
  {
  }

  lemma {:induction false} PagesKeepShape(m: Memory, labels: Labels, root: nat, levels: nat, paths: seq<seq<nat>>)
    returns (more: Labels)
    requires levels in {4, 5} && Paths(paths, levels) && CanMapPages(m, root, levels, paths)
    requires Shaped(m, labels, levels) && root in labels && labels[root].path == []
    ensures Shaped(MapPages(m, root, levels, paths), more, levels) && Extends(labels, more)
    ensures Within(more, labels, m.pool) && forall x :: x in MapPages(m, root, levels, paths).pool ==> x in m.pool
    decreases |paths|
  {
    if paths == [] {
      more := labels;
    } else {
      var k := |paths| - 1;
      more := PagesKeepShape(m, labels, root, levels, paths[..k]);
      hide Shaped;
      var m1, req := MapPages(m, root, levels, paths[..k]), RawRequest(levels, k * 0x20_0000, TABLE_FLAGS, LEAF_FLAGS, NO_PA);
      RawRequestValid(levels, k * 0x20_0000, TABLE_FLAGS, LEAF_FLAGS, NO_PA);
      MapTakesFrames(m1, root, paths[k], req);
      more := MapKeepsShape(m1, more, levels, root, paths[k], req);
    }
  }

  lemma {:induction false} PagesKeepSpare(m: Memory, labels: Labels, root: nat, levels: nat, paths: seq<seq<nat>>,
      other: seq<nat>)
    requires levels in {4, 5} && Paths(paths, levels) && CanMapPages(m, root, levels, paths) && |other| == levels
    requires Shaped(m, labels, levels) && root in labels && labels[root].path == []
    requires Hits(paths, other, -1) && Spare(View(m, root, other), 2)
    ensures Spare(View(MapPages(m, root, levels, paths), root, other), 2)
    decreases |paths|
  {
    hide Shaped, View, Spare, MapRaw;
    if paths != [] {
      var k := |paths| - 1;
      assert Hits(paths[..k], other, -1);
      PagesKeepSpare(m, labels, root, levels, paths[..k], other);
      var more := PagesKeepShape(m, labels, root, levels, paths[..k]);
      MapRawKeepsSpare(MapPages(m, root, levels, paths[..k]), more, root, paths[k], k * 0x20_0000,
        TABLE_FLAGS, LEAF_FLAGS, NO_PA, other);
    }
  }

  /**
   A loop over spare, distinct slots maps large page `hit` for every address that shares the
   slot of path `hit`, and changes no other translation.
   */
  lemma {:induction false} PagesTranslate(m: Memory, labels: Labels, root: nat, levels: nat, paths: seq<seq<nat>>,
      other: seq<nat>, w: nat, hit: int)
    requires levels in {4, 5} && Paths(paths, levels) && CanMapPages(m, root, levels, paths) && |other| == levels
    requires Shaped(m, labels, levels) && root in labels && labels[root].path == []
    requires Distinct(paths, levels) && Hits(paths, other, hit)
    requires forall k :: 0 <= k < |paths| ==> Spare(View(m, root, paths[k]), 2)
    ensures Walk(MapPages(m, root, levels, paths), root, other, w) ==
      if hit >= 0 then Some(Resolve(LeafEntry(hit * 0x20_0000, LEAF_FLAGS), 2, w)) else Walk(m, root, other, w)
    decreases |paths|
  {
    hide Shaped, View, Spare, MapRaw, Walk, Resolve;
    if paths != [] {
      var k := |paths| - 1;
      var before := paths[..k];
      PrefixHits(paths, levels, other, hit);
      PagesTranslate(m, labels, root, levels, before, other, w, if hit == k then -1 else hit);
      PagesKeepSpare(m, labels, root, levels, before, paths[k]);
      var more := PagesKeepShape(m, labels, root, levels, before);
      MapRawTranslates(MapPages(m, root, levels, before), more, root, paths[k], k * 0x20_0000,
        TABLE_FLAGS, LEAF_FLAGS, NO_PA, other, w);
    }
  }

  /** The addresses a table of this many levels distinguishes: the canonical ones. */
  predicate Proper(v: nat, levels: nat) {
    v < TOP - HighVma(levels) || HighVma(levels) <= v < TOP
  }

  lemma ProperPages(v: nat, w: nat, levels: nat)
    requires levels in {4, 5} && Proper(v, levels) && Proper(w, levels)
    ensures SamePage(PathOf(v, levels), PathOf(w, levels), 2) <==> v / 0x20_0000 == w / 0x20_0000
  {
    SamePageIff(v, w, levels, 2);
    ProperResidue(v, levels);
    ProperResidue(w, levels);
  }

  /** The page number modulo the table's reach, which tells the two canonical halves apart. */
  lemma ProperResidue(v: nat, levels: nat)
    requires levels in {4, 5} && Proper(v, levels)
    ensures var d := Pow512(levels - 1);
      v / 0x20_0000 % d == if v < HighVma(levels) then v / 0x20_0000 else v / 0x20_0000 + d - TOP / 0x20_0000
    ensures v < HighVma(levels) <==> v / 0x20_0000 % Pow512(levels - 1) < Pow512(levels - 1) / 2
  {
    var d, y := Pow512(levels - 1), v / 0x20_0000;
    assert Pow512(2) == 0x4_0000 && Pow512(3) == 0x800_0000 && Pow512(4) == 0x10_0000_0000;
    if v < HighVma(levels) {
      QuotientUnique(y, d, 0, y);
    } else if levels == 4 {
      QuotientUnique(y, d, 0xFFFF, y + d - TOP / 0x20_0000);
    } else {
      QuotientUnique(y, d, 0x7F, y + d - TOP / 0x20_0000);
    }
  }

  /** The physical address of `w` in large page `k` of a window. */
  lemma WindowPage(base: nat, k: nat, w: nat)
    requires base % 0x20_0000 == 0
    ensures w / 0x20_0000 == base / 0x20_0000 + k <==> base + k * 0x20_0000 <= w < base + (k + 1) * 0x20_0000
    ensures base + k * 0x20_0000 <= w < base + (k + 1) * 0x20_0000 ==>
      Resolve(LeafEntry(k * 0x20_0000, LEAF_FLAGS), 2, w) == w - base
  {
    var r := w - (base + k * 0x20_0000);
    if 0 <= r < 0x20_0000 {
      QuotientUnique(w, 0x20_0000, base / 0x20_0000 + k, r);
      assert k * 0x20_0000 / PAGE == k * 512;
      assert (k * 512) / 512 * 512 == k * 512;
    }
  }

  function WindowPaths(base: nat, n: nat, levels: nat): (r: seq<seq<nat>>)
    requires levels in {4, 5}
    ensures |r| == n && Paths(r, levels)
  {
    seq(n, k requires 0 <= k < n => PathOf(base + k * 0x20_0000, levels))
  }

  /** Each address of a window hits exactly its own large page, and no other address hits any. */
  lemma WindowHits(base: nat, n: nat, levels: nat, w: nat)
    requires levels in {4, 5} && base % 0x20_0000 == 0
    requires HighVma(levels) <= base && base + n * 0x20_0000 <= TOP && Proper(w, levels)
    ensures Hits(WindowPaths(base, n, levels), PathOf(w, levels), HitOf(base, n, w))
  {
    hide SamePage, Resolve;
    var paths := WindowPaths(base, n, levels);
    var hit := HitOf(base, n, w);
    forall k | 0 <= k < n
      ensures SamePage(paths[k], PathOf(w, levels), 2) <==> k == hit
    {
      ProperPages(base + k * 0x20_0000, w, levels);
      WindowPage(base, k, base + k * 0x20_0000);
      WindowPage(base, k, w);
    }
  }

  lemma WindowDistinct(base: nat, n: nat, levels: nat)
    requires levels in {4, 5} && base % 0x20_0000 == 0
    requires HighVma(levels) <= base && base + n * 0x20_0000 <= TOP
    ensures Distinct(WindowPaths(base, n, levels), levels)
  {
    hide Path4, Path5, SamePage;
    var paths := WindowPaths(base, n, levels);
    forall j, k | 0 <= j < k < n
      ensures !SamePage(paths[k], paths[j], 2) && !SamePage(paths[j], paths[k], 2)
    {
      PagesDiffer(base, n, levels, j, k);
      PagesDiffer(base, n, levels, k, j);
    }
  }

  lemma PagesDiffer(base: nat, n: nat, levels: nat, j: nat, k: nat)
    requires levels in {4, 5} && base % 0x20_0000 == 0 && j < n && k < n && j != k
    requires HighVma(levels) <= base && base + n * 0x20_0000 <= TOP
    ensures !SamePage(PathOf(base + j * 0x20_0000, levels), PathOf(base + k * 0x20_0000, levels), 2)
  {
    hide SamePage, Resolve;
    var v, w := base + j * 0x20_0000, base + k * 0x20_0000;
    ProperPages(v, w, levels);
    WindowPage(base, j, v);
    WindowPage(base, k, w);
  }

  /** There are frames for the tables of both loops of `init`. */
  predicate BootFrames(m: Memory, root: nat, levels: nat, totalMem: nat)
    requires levels in {4, 5}
  {
    && CanMapPages(m, root, levels, WindowPaths(KERNEL_HIGH_VMA, 512, levels))
    && CanMapPages(MapPages(m, root, levels, WindowPaths(KERNEL_HIGH_VMA, 512, levels)), root, levels,
         WindowPaths(HighVma(levels), totalMem / 0x20_0000, levels))
  }

  /** Memory after both loops of `init`: 512 pages at `kernel_high_vma`, then all memory at `high_vma`. */
  function BootMemory(m: Memory, root: nat, levels: nat, totalMem: nat): Memory
    requires levels in {4, 5} && BootFrames(m, root, levels, totalMem)
  {
    MapPages(MapPages(m, root, levels, WindowPaths(KERNEL_HIGH_VMA, 512, levels)),
             root, levels, WindowPaths(HighVma(levels), totalMem / 0x20_0000, levels))
  }

  /** A fresh top table over `totalMem` bytes of memory whose two windows do not meet. */
  predicate BootReady(m: Memory, root: nat, levels: nat, totalMem: nat) {
    && levels in {4, 5} && BootFrames(m, root, levels, totalMem)
    && root in m.tables && m.tables[root] == map[] && PoolValid(m.pool, map[root := Position(0, [])])
    && HighVma(levels) + totalMem / 0x20_0000 * 0x20_0000 <= KERNEL_HIGH_VMA
  }

  lemma SpareWhenFresh(m: Memory, root: nat, path: seq<nat>)
    requires root in m.tables && m.tables[root] == map[] && 2 <= |path|
    ensures Spare(View(m, root, path), 2) && Walk(m, root, path, 0) == None
  {
    EmptyView(m, root, path);
    EmptiesSpare(|path|);
  }

  lemma {:induction false} EmptiesSpare(n: nat)
    requires n >= 2
    ensures Spare(Empties(n), 2)
  {
    if n > 2 {
      assert Empties(n)[1..] == Empties(n - 1);
      EmptiesSpare(n - 1);
    }
  }

  /** The large page of a window that `w` lies in, or -1. */
  function HitOf(base: nat, n: nat, w: nat): int {
    if base <= w < base + n * 0x20_0000 then (w - base) / 0x20_0000 else -1
  }

  /** One mapping loop over spare slots, in terms of addresses. */
  lemma WindowTranslation(m: Memory, labels: Labels, root: nat, levels: nat, paths: seq<seq<nat>>, base: nat,
      other: seq<nat>, w: nat)
    requires levels in {4, 5} && Paths(paths, levels) && CanMapPages(m, root, levels, paths) && |other| == levels
    requires Shaped(m, labels, levels) && root in labels && labels[root].path == []
    requires Distinct(paths, levels) && Hits(paths, other, HitOf(base, |paths|, w)) && base % 0x20_0000 == 0
    requires forall k :: 0 <= k < |paths| ==> Spare(View(m, root, paths[k]), 2)
    ensures Walk(MapPages(m, root, levels, paths), root, other, w) ==
      if base <= w < base + |paths| * 0x20_0000 then Some(w - base) else Walk(m, root, other, w)
  {
    hide Shaped, View, Spare, MapPages, Walk, Resolve, Hits, Distinct, SamePage;
    var hit := HitOf(base, |paths|, w);
    PagesTranslate(m, labels, root, levels, paths, other, w, hit);
    if hit >= 0 {
      WindowPage(base, hit, w);
    }
  }

  /** Both loops from a fresh top table, for any two families of paths that never meet. */
  lemma TwoWindows(m: Memory, root: nat, levels: nat, kernelPaths: seq<seq<nat>>, kernelBase: nat,
      paths: seq<seq<nat>>, base: nat, other: seq<nat>, w: nat)
    requires levels in {4, 5} && |other| == levels && Paths(kernelPaths, levels) && Paths(paths, levels)
    requires CanMapPages(m, root, levels, kernelPaths)
    requires CanMapPages(MapPages(m, root, levels, kernelPaths), root, levels, paths)
    requires root in m.tables && m.tables[root] == map[] && PoolValid(m.pool, map[root := Position(0, [])])
    requires Distinct(kernelPaths, levels) && Distinct(paths, levels)
    requires forall k :: 0 <= k < |paths| ==> Hits(kernelPaths, paths[k], -1)
    requires Hits(kernelPaths, other, HitOf(kernelBase, |kernelPaths|, w)) && Hits(paths, other, HitOf(base, |paths|, w))
    requires kernelBase % 0x20_0000 == 0 && base % 0x20_0000 == 0
    ensures Walk(MapPages(MapPages(m, root, levels, kernelPaths), root, levels, paths), root, other, w) ==
      if base <= w < base + |paths| * 0x20_0000 then Some(w - base)
      else if kernelBase <= w < kernelBase + |kernelPaths| * 0x20_0000 then Some(w - kernelBase)
      else None
  {
    var labels := map[root := Position(0, [])];
    FreshTableShaped(m, root, levels);
    forall path: seq<nat> | |path| == levels
      ensures Spare(View(m, root, path), 2)
    {
      SpareWhenFresh(m, root, path);
    }
    WindowTranslation(m, labels, root, levels, kernelPaths, kernelBase, other, w);
    assert Walk(m, root, other, w) == None;
    var m1 := MapPages(m, root, levels, kernelPaths);
    var more := PagesKeepShape(m, labels, root, levels, kernelPaths);
    forall k | 0 <= k < |paths|
      ensures Spare(View(m1, root, paths[k]), 2)
    {
      PagesKeepSpare(m, labels, root, levels, kernelPaths, paths[k]);
    }
    WindowTranslation(m1, more, root, levels, paths, base, other, w);
  }

  /** After boot a canonical address translates exactly as its window says. */
  lemma BootTranslates(m: Memory, root: nat, levels: nat, totalMem: nat, w: nat)
    requires BootReady(m, root, levels, totalMem) && Proper(w, levels)
    ensures Walk(BootMemory(m, root, levels, totalMem), root, PathOf(w, levels), w) ==
      if KERNEL_HIGH_VMA <= w < KERNEL_HIGH_VMA + 0x4000_0000 then Some(w - KERNEL_HIGH_VMA)
      else if HighVma(levels) <= w < HighVma(levels) + totalMem / 0x20_0000 * 0x20_0000
      then Some(w - HighVma(levels))
      else None
  {
    hide MapPages, CanMapPages, Walk, SamePage, Distinct, Hits;
    var n, high := totalMem / 0x20_0000, HighVma(levels);
    var kernelPaths, paths := WindowPaths(KERNEL_HIGH_VMA, 512, levels), WindowPaths(high, n, levels);
    WindowDistinct(KERNEL_HIGH_VMA, 512, levels);
    WindowDistinct(high, n, levels);
    WindowHits(KERNEL_HIGH_VMA, 512, levels, w);
    WindowHits(high, n, levels, w);
    WindowsApart(n, levels);
    TwoWindows(m, root, levels, kernelPaths, KERNEL_HIGH_VMA, paths, high, PathOf(w, levels), w);
  }

  lemma WindowsApart(n: nat, levels: nat)
    requires levels in {4, 5} && HighVma(levels) + n * 0x20_0000 <= KERNEL_HIGH_VMA
    ensures forall k :: 0 <= k < n ==>
      Hits(WindowPaths(KERNEL_HIGH_VMA, 512, levels), WindowPaths(HighVma(levels), n, levels)[k], -1)
  {
    forall k | 0 <= k < n
      ensures Hits(WindowPaths(KERNEL_HIGH_VMA, 512, levels), WindowPaths(HighVma(levels), n, levels)[k], -1)
    {
      WindowHits(KERNEL_HIGH_VMA, 512, levels, HighVma(levels) + k * 0x20_0000);
    }
  }

  /** In plain numbers: where the kernel and all of memory appear, for four and for five levels. */
  lemma BootMaps(m: Memory, root: nat, levels: nat, totalMem: nat, p: nat)
    requires BootReady(m, root, levels, totalMem)
    ensures p < 0x4000_0000 ==>
      AddressWalk(BootMemory(m, root, levels, totalMem), root, levels, 0xFFFF_FFFF_8000_0000 + p) == Some(p)
    ensures p / 0x20_0000 < totalMem / 0x20_0000 ==>
      var high := if levels == 4 then 0xFFFF_8000_0000_0000 else 0xFF00_0000_0000_0000;
      AddressWalk(BootMemory(m, root, levels, totalMem), root, levels, high + p) == Some(p)
  {
    hide MapPages, CanMapPages, AddressWalk, Walk;
    if p < 0x4000_0000 {
      BootTranslates(m, root, levels, totalMem, KERNEL_HIGH_VMA + p);
      WalkIsAddressWalk(BootMemory(m, root, levels, totalMem), root, KERNEL_HIGH_VMA + p, levels);
    }
    if p / 0x20_0000 < totalMem / 0x20_0000 {
      assert p < totalMem / 0x20_0000 * 0x20_0000;
      BootTranslates(m, root, levels, totalMem, HighVma(levels) + p);
      WalkIsAddressWalk(BootMemory(m, root, levels, totalMem), root, HighVma(levels) + p, levels);
    }
  }

  /** Tables are present, writable and open to user code; leaves are large and global besides. */
  ghost predicate BootEntries(m: Memory) {
    forall f, i {:trigger Read(m, f, i)} ::
      Read(m, f, i) == ZERO || Read(m, f, i).flags == {0, 1, 2} || Read(m, f, i).flags == {0, 1, 2, 7, 8}
  }

  lemma {:induction false} MapKeepsEntries(m: Memory, f: nat, path: seq<nat>, k: nat)
    requires path != [] && BootEntries(m) && Enough(m, f, path, BootRequest(|path|, k))
    ensures BootEntries(MapAt(m, f, path, BootRequest(|path|, k)))
    decreases path
  {
    var e, req := Read(m, f, path[0]), BootRequest(|path|, k);
    assert req.flags[0] == {} || req.flags[0] == {0, 1, 2} || req.flags[0] == {0, 1, 2, 7, 8};
    RawRequestValid(|path|, k * 0x20_0000, TABLE_FLAGS, LEAF_FLAGS, NO_PA);
    PageAligned(k);
    if e == ZERO && req.flags[0] != {} && MakesLeaf(req.flags[0], |path|) {
      ReadWrite(m, f, path[0], NewLeaf(req));
    } else if e == ZERO && req.flags[0] != {} {
      var m1 := Write(Calloc(m), f, path[0], Entry(m.pool[0], req.flags[0]));
      ReadWrite(Calloc(m), f, path[0], Entry(m.pool[0], req.flags[0]));
      forall g, i
        ensures Read(Calloc(m), g, i) == if g == m.pool[0] then ZERO else Read(m, g, i)
      {
      }
      MapKeepsEntries(m1, m.pool[0], path[1..], k);
    } else if e != ZERO && e.IsLeaf(|path|) {
      ReadWrite(m, f, path[0], e);
    } else if e != ZERO {
      MapKeepsEntries(m, e.page, path[1..], k);
    }
  }

  function BootRequest(levels: nat, k: nat): Request {
    RawRequest(levels, k * 0x20_0000, TABLE_FLAGS, LEAF_FLAGS, NO_PA)
  }

  lemma PageAligned(k: nat)
    ensures k * 0x20_0000 % 0x1000 == 0
  {
    QuotientUnique(k * 0x20_0000, 0x1000, k * 512, 0);
  }

  lemma {:induction false} PagesKeepEntries(m: Memory, root: nat, levels: nat, paths: seq<seq<nat>>)
    requires levels in {4, 5} && Paths(paths, levels) && CanMapPages(m, root, levels, paths) && BootEntries(m)
    ensures BootEntries(MapPages(m, root, levels, paths))
    decreases |paths|
  {
    hide BootEntries, Enough, MapAt;
    if paths != [] {
      var k := |paths| - 1;
      PagesKeepEntries(m, root, levels, paths[..k]);
      MapKeepsEntries(MapPages(m, root, levels, paths[..k]), root, paths[k], k);
    }
  }

  /** Every entry that boot makes has exactly these flags. */
  lemma BootFlags(m: Memory, root: nat, levels: nat, totalMem: nat)
    requires levels in {4, 5} && BootFrames(m, root, levels, totalMem) && m.tables == map[root := map[]]
    ensures BootEntries(BootMemory(m, root, levels, totalMem))
  {
    hide MapPages, CanMapPages;
    PagesKeepEntries(m, root, levels, WindowPaths(KERNEL_HIGH_VMA, 512, levels));
    PagesKeepEntries(MapPages(m, root, levels, WindowPaths(KERNEL_HIGH_VMA, 512, levels)), root, levels,
      WindowPaths(HighVma(levels), totalMem / 0x20_0000, levels));
  }

  /** The booted kernel mapping is a valid start for every run of address-space operations. */
  lemma BootIsValid(m: Memory, root: nat, levels: nat, totalMem: nat) returns (labels: Labels)
    requires BootReady(m, root, levels, totalMem) && totalMem >= 0x20_0000
    ensures Valid(Spaces(BootMemory(m, root, levels, totalMem), [root], levels), labels)
    ensures Within(labels, map[root := Position(0, [])], m.pool)
  {
    hide CanMapPages, MapPages, PoolValid;
    FreshTableShaped(m, root, levels);
    labels := PagesKeepShape(m, map[root := Position(0, [])], root, levels, WindowPaths(KERNEL_HIGH_VMA, 512, levels));
    labels := PagesKeepShape(MapPages(m, root, levels, WindowPaths(KERNEL_HIGH_VMA, 512, levels)), labels, root, levels,
      WindowPaths(HighVma(levels), totalMem / 0x20_0000, levels));
    KernelSlotsInUse(m, root, levels, totalMem);
  }

  lemma KernelSlotsInUse(m: Memory, root: nat, levels: nat, totalMem: nat)
    requires BootReady(m, root, levels, totalMem) && totalMem >= 0x20_0000
    ensures Read(BootMemory(m, root, levels, totalMem), root, 511) != ZERO
    ensures Read(BootMemory(m, root, levels, totalMem), root, 256) != ZERO
  {
    TopIndices(levels);
    MappedTopInUse(m, root, levels, totalMem, KERNEL_HIGH_VMA, 511);
    MappedTopInUse(m, root, levels, totalMem, HighVma(levels), 256);
  }

  lemma TopIndices(levels: nat)
    requires levels in {4, 5}
    ensures PathOf(KERNEL_HIGH_VMA, levels)[0] == 511 && PathOf(HighVma(levels), levels)[0] == 256
  {
  }

  lemma MappedTopInUse(m: Memory, root: nat, levels: nat, totalMem: nat, w: nat, i: nat)
    requires BootReady(m, root, levels, totalMem) && totalMem >= 0x20_0000
    requires w == KERNEL_HIGH_VMA || w == HighVma(levels)
    requires PathOf(w, levels)[0] == i
    ensures Read(BootMemory(m, root, levels, totalMem), root, i) != ZERO
  {
    BootTranslates(m, root, levels, totalMem, w);
    WalkUsesTop(BootMemory(m, root, levels, totalMem), root, PathOf(w, levels), w);
  }

  lemma WalkUsesTop(m: Memory, root: nat, path: seq<nat>, w: nat)
    requires path != [] && Walk(m, root, path, w).Some?
    ensures Read(m, root, path[0]) != ZERO
  {
  }

  lemma MapNone(m: Memory, root: nat, levels: nat)
    requires levels in {4, 5}
    ensures CanMapPages(m, root, levels, []) && MapPages(m, root, levels, []) == m
  {
  }

  /** A loop that can run can run up to any page. */
  lemma {:induction false} CanMapPrefix(m: Memory, root: nat, levels: nat, paths: seq<seq<nat>>, k: nat)
    requires levels in {4, 5} && Paths(paths, levels) && CanMapPages(m, root, levels, paths) && k <= |paths|
    ensures CanMapPages(m, root, levels, paths[..k])
    decreases |paths|
  {
    hide Enough, MapPages;
    if k == |paths| {
      assert paths[..k] == paths;
    } else {
      var before := paths[..|paths| - 1];
      CanMapPrefix(m, root, levels, before, k);
      assert before[..k] == paths[..k];
    }
  }

  /** One turn of a mapping loop. */
  lemma MapOneMore(m: Memory, root: nat, levels: nat, base: nat, n: nat, k: nat)
    requires levels in {4, 5} && k < n && CanMapPages(m, root, levels, WindowPaths(base, n, levels))
    ensures var paths := WindowPaths(base, n, levels);
      && CanMapPages(m, root, levels, paths[..k]) && CanMapPages(m, root, levels, paths[..k + 1])
      && var m1 := MapPages(m, root, levels, paths[..k]);
      && Enough(m1, root, PathOf(k * 0x20_0000 + base, levels), RawRequest(levels, k * 0x20_0000, TABLE_FLAGS, LEAF_FLAGS, NO_PA))
      && MapPages(m, root, levels, paths[..k + 1]) ==
         MapRaw(m1, root, PathOf(k * 0x20_0000 + base, levels), k * 0x20_0000, TABLE_FLAGS, LEAF_FLAGS, NO_PA)
  {
    hide MapRaw, Path4, Path5, Enough;
    var paths := WindowPaths(base, n, levels);
    CanMapPrefix(m, root, levels, paths, k);
    CanMapPrefix(m, root, levels, paths, k + 1);
    assert paths[..k + 1][..k] == paths[..k] && paths[..k + 1][k] == paths[k];
  }

  /** One mapping loop of `init` on a four-level table. */
  method MapLoop(kernel: Pml4Table, base: nat, n: nat)
    requires CanMapPages(kernel.memory.Value(), kernel.root, 4, WindowPaths(base, n, 4))
    modifies kernel.memory
    ensures kernel.memory.Value() == MapPages(old(kernel.memory.Value()), kernel.root, 4, WindowPaths(base, n, 4))
  {
    hide MapPages, MapRaw, Path4, CanMapPages, Enough;
    ghost var m, paths := kernel.memory.Value(), WindowPaths(base, n, 4);
    MapNone(m, kernel.root, 4);
    var phys, i := 0, 0;
    while i < n
      invariant 0 <= i <= n && phys == i * 0x20_0000 && CanMapPages(m, kernel.root, 4, paths[..i])
      invariant kernel.memory.Value() == MapPages(m, kernel.root, 4, paths[..i])
    {
      MapOneMore(m, kernel.root, 4, base, n, i);
      kernel.MapPageRaw(phys + base, phys, TABLE_FLAGS, LEAF_FLAGS, NO_PA);
      phys := phys + 0x20_0000;
      i := i + 1;
    }
    assert paths[..n] == paths;
  }

  /** The same loop on a five-level table. */
  method MapLoop5(kernel: Pml5Table, base: nat, n: nat)
    requires CanMapPages(kernel.memory.Value(), kernel.root, 5, WindowPaths(base, n, 5))
    modifies kernel.memory
    ensures kernel.memory.Value() == MapPages(old(kernel.memory.Value()), kernel.root, 5, WindowPaths(base, n, 5))
  {
    hide MapPages, MapRaw, Path5, CanMapPages, Enough;
    ghost var m, paths := kernel.memory.Value(), WindowPaths(base, n, 5);
    MapNone(m, kernel.root, 5);
    var phys, i := 0, 0;
    while i < n
      invariant 0 <= i <= n && phys == i * 0x20_0000 && CanMapPages(m, kernel.root, 5, paths[..i])
      invariant kernel.memory.Value() == MapPages(m, kernel.root, 5, paths[..i])
    {
      MapOneMore(m, kernel.root, 5, base, n, i);
      kernel.MapPageRaw(phys + base, phys, TABLE_FLAGS, LEAF_FLAGS, NO_PA);
      phys := phys + 0x20_0000;
      i := i + 1;
    }
    assert paths[..n] == paths;
  }

  /** `init` on a four-level kernel mapping. */
  method InitKernelMapping(kernel: Pml4Table, totalMem: nat)
    requires BootFrames(kernel.memory.Value(), kernel.root, 4, totalMem)
    modifies kernel.memory
    ensures kernel.memory.Value() == BootMemory(old(kernel.memory.Value()), kernel.root, 4, totalMem)
  {
    MapLoop(kernel, KERNEL_HIGH_VMA, 0x200);
    MapLoop(kernel, HighVma(4), totalMem / 0x20_0000);
  }

  /** `init` on a five-level kernel mapping. */
  method InitKernelMapping5(kernel: Pml5Table, totalMem: nat)
    requires BootFrames(kernel.memory.Value(), kernel.root, 5, totalMem)
    modifies kernel.memory
    ensures kernel.memory.Value() == BootMemory(old(kernel.memory.Value()), kernel.root, 5, totalMem)
  {
    MapLoop5(kernel, KERNEL_HIGH_VMA, 0x200);
    MapLoop5(kernel, HighVma(5), totalMem / 0x20_0000);
  }
}
