/**
 `map_page_raw` and `unmap` as operations on a flat map from virtual to physical addresses.
 */
module FlatMap {
  import opened Wrappers
  import opened PageEntry
  import opened PageTable

  /** The level of the leaf that `map_page_raw` asks for: 2 MiB when PS is set in `flags0`. */
  function LeafLevel(flags0: Flags): nat {
    if PAGE_SIZE_BIT in flags0 then 2 else 1
  }

  /** The per-level flags that `map_page_raw` passes to `map` for `levels` levels. */
  function RawFlags(levels: nat, flags1: Flags, flags0: Flags): (r: seq<Flags>)
    ensures |r| == levels
  {
    var leaf := LeafLevel(flags0);
    seq(levels, k requires 0 <= k < levels =>
      if levels - k > leaf then flags1 else if levels - k == leaf then flags0 else {})
  }

  function RawRequest(levels: nat, paddr: nat, flags1: Flags, flags0: Flags, pa: int): Request {
    Request(RawFlags(levels, flags1, flags0), paddr, pa)
  }

  /** `map_page_raw` on the table of the given number of levels at `root`. */
  function MapRaw(m: Memory, root: nat, path: seq<nat>, paddr: nat, flags1: Flags, flags0: Flags, pa: int): Memory
    requires path != [] && Enough(m, root, path, RawRequest(|path|, paddr, flags1, flags0, pa))
  {
    MapAt(m, root, path, RawRequest(|path|, paddr, flags1, flags0, pa))
  }

  /** Both paths run through the same slot of the given level: the addresses lie in one leaf. */
  predicate SamePage(path: seq<nat>, other: seq<nat>, level: nat)
    requires |path| == |other|
  {
    level <= |path| && path != [] && path[0] == other[0] &&
    (|path| == level || SamePage(path[1..], other[1..], level))
  }

  /** The leaf slot of the given level is empty, and no larger leaf stands in the way. */
  predicate Spare(view: seq<Slot>, level: nat) {
    level <= |view| && view != [] &&
    if |view| == level then view[0] == Empty else !view[0].Leaf? && Spare(view[1..], level)
  }

  lemma RawRequestValid(levels: nat, paddr: nat, flags1: Flags, flags0: Flags, pa: int)
    requires TableFlags(flags1)
    ensures RawRequest(levels, paddr, flags1, flags0, pa).Valid()
    ensures levels > 0 ==>
      RawRequest(levels, paddr, flags1, flags0, pa).Tail() == RawRequest(levels - 1, paddr, flags1, flags0, pa)
  {
    var r := RawFlags(levels, flags1, flags0);
    if levels > 0 {
      assert r[1..] == RawFlags(levels - 1, flags1, flags0);
    }
  }

  lemma {:induction false} EmptiesTranslateNowhere(n: nat, v: nat)
    ensures Translation(Empties(n), v) == None
  {
  }

  /** Changing the cache attributes of a leaf does not change what it translates to. */
  lemma LeafSlotTranslation(e: Entry, level: nat, pa: int, w: nat, rest: seq<Slot>)
    requires 1 <= level && e.IsLeaf(level) && |rest| == level - 1
    ensures Translation([SlotOf(SetPa(e, level, pa), level)] + rest, w) ==
            if e.Present() then Some(Resolve(e, level, w)) else None
  {
    SetPaBits(e, level, pa);
  }

  /** What `Fill` means for translations, on any other path of the same memory. */
  lemma {:induction false} FillTranslation(path: seq<nat>, view: seq<Slot>, other: seq<nat>, oview: seq<Slot>,
      paddr: nat, flags1: Flags, flags0: Flags, pa: int, w: nat)
    requires |path| == |view| == |other| == |oview| && TableFlags(flags1)
    requires Coherent(path, view, other, oview)
    ensures var level := LeafLevel(flags0);
      var req := RawRequest(|path|, paddr, flags1, flags0, pa);
      Translation(Overlay(path, Fill(view, req), other, oview), w) ==
      if SamePage(path, other, level) && Spare(view, level) && flags0 != {} && LeafEntry(paddr, flags0).Present()
      then Some(Resolve(LeafEntry(paddr, flags0), level, w))
      else Translation(oview, w)
    decreases path
  {
    if path != [] && path[0] == other[0] {
      var level := LeafLevel(flags0);
      var req := RawRequest(|path|, paddr, flags1, flags0, pa);
      RawRequestValid(|path|, paddr, flags1, flags0, pa);
      var result := Overlay(path, Fill(view, req), other, oview);
      match view[0]
      case Leaf(e) =>
        LeafSlotTranslation(e, |view|, pa, w, result[1..]);
      case Pointer(_) =>
        FillTranslation(path[1..], view[1..], other[1..], oview[1..], paddr, flags1, flags0, pa, w);
        assert result[1..] == Overlay(path[1..], Fill(view[1..], req.Tail()), other[1..], oview[1..]);
      case Empty =>
        if |path| > level {
          FillTranslation(path[1..], view[1..], other[1..], oview[1..], paddr, flags1, flags0, pa, w);
          assert result[1..] == Overlay(path[1..], Fill(view[1..], req.Tail()), other[1..], oview[1..]);
          EmptiesTranslateNowhere(|path| - 1, w);
        } else if |path| == level && flags0 != {} {
          LeafSlotTranslation(NewLeaf(req), |view|, pa, w, result[1..]);
        } else {
          OverlaySame(path, other, view);
        }
    }
  }

  /**
   Flat-map refinement: one `map_page_raw` call adds exactly the requested leaf, if its slot
   was spare, and changes no other translation. A leaf that was already there keeps its frame.
   */
  lemma MapRawTranslates(m: Memory, labels: Labels, root: nat, path: seq<nat>, paddr: nat, flags1: Flags, flags0: Flags,
      pa: int, other: seq<nat>, w: nat)
    requires 1 <= |path| == |other| && Enough(m, root, path, RawRequest(|path|, paddr, flags1, flags0, pa)) && TableFlags(flags1)
    requires Shaped(m, labels, |path|) && root in labels && labels[root].path == []
    ensures var level := LeafLevel(flags0);
      Walk(MapRaw(m, root, path, paddr, flags1, flags0, pa), root, other, w) ==
      if SamePage(path, other, level) && Spare(View(m, root, path), level) && flags0 != {} && LeafEntry(paddr, flags0).Present()
      then Some(Resolve(LeafEntry(paddr, flags0), level, w))
      else Walk(m, root, other, w)
  {
    var req := RawRequest(|path|, paddr, flags1, flags0, pa);
    RawRequestValid(|path|, paddr, flags1, flags0, pa);
    var more := MapKeepsShape(m, labels, |path|, root, path, req);
    var m1 := MapAt(m, root, path, req);
    WalkIsTranslation(m, labels, |path|, root, other, w);
    WalkIsTranslation(m1, more, |path|, root, other, w);
    MapView(m, labels, |path|, root, path, req, other);
    ViewsCoherent(m, root, path, other);
    FillTranslation(path, View(m, root, path), other, View(m, root, other), paddr, flags1, flags0, pa, w);
  }

  /** An address under a spare leaf slot does not translate. */
  lemma {:induction false} SpareUnmapped(path: seq<nat>, view: seq<Slot>, other: seq<nat>, oview: seq<Slot>, level: nat, w: nat)
    requires |path| == |view| == |other| == |oview| && Coherent(path, view, other, oview)
    requires SamePage(path, other, level) && Spare(view, level)
    ensures Translation(oview, w) == None
    decreases path
  {
    if |path| > level && view[0].Pointer? {
      SpareUnmapped(path[1..], view[1..], other[1..], oview[1..], level, w);
    }
  }

  /** So a `map_page_raw` call never moves an address that already translates. */
  lemma MapRawKeepsTranslations(m: Memory, labels: Labels, root: nat, path: seq<nat>, paddr: nat, flags1: Flags,
      flags0: Flags, pa: int, other: seq<nat>, w: nat)
    requires 1 <= |path| == |other| && Enough(m, root, path, RawRequest(|path|, paddr, flags1, flags0, pa)) && TableFlags(flags1)
    requires Shaped(m, labels, |path|) && root in labels && labels[root].path == []
    requires Walk(m, root, other, w).Some?
    ensures Walk(MapRaw(m, root, path, paddr, flags1, flags0, pa), root, other, w) == Walk(m, root, other, w)
  {
    MapRawTranslates(m, labels, root, path, paddr, flags1, flags0, pa, other, w);
    var level := LeafLevel(flags0);
    if SamePage(path, other, level) && Spare(View(m, root, path), level) {
      ViewsCoherent(m, root, path, other);
      WalkIsTranslation(m, labels, |path|, root, other, w);
      SpareUnmapped(path, View(m, root, path), other, View(m, root, other), level, w);
    }
  }

  /** The level of the leaf slot that a path ends in, or 0 when it meets an empty slot. */
  function MappedLevel(view: seq<Slot>): (r: nat)
    ensures r <= |view|
  {
    if view == [] then 0
    else match view[0]
      case Leaf(_) => |view|
      case Pointer(_) => MappedLevel(view[1..])
      case Empty => 0
  }

  /** The walking constructor of `virtual_address` gets to the leaf: every pointer on the way is present. */
  predicate Traversable(view: seq<Slot>)
    ensures Traversable(view) ==> MappedLevel(view) > 0
  {
    view != [] && match view[0]
      case Leaf(_) => true
      case Pointer(flags) => PRESENT in flags && Traversable(view[1..])
      case Empty => false
  }

  /** In a tree-shaped memory every path with a leaf is of that kind. */
  lemma {:induction false} ShapedTraversable(m: Memory, labels: Labels, levels: nat, f: nat, path: seq<nat>)
    requires Shaped(m, labels, levels) && f in labels && |labels[f].path| + |path| == levels
    requires MappedLevel(View(m, f, path)) > 0
    ensures Traversable(View(m, f, path))
    decreases path
  {
    var e := Read(m, f, path[0]);
    if e != ZERO && !e.IsLeaf(|path|) {
      assert View(m, f, path)[1..] == View(m, e.page, path[1..]);
      ShapedTraversable(m, labels, levels, e.page, path[1..]);
    }
  }

  lemma {:induction false} HideTranslation(path: seq<nat>, view: seq<Slot>, other: seq<nat>, oview: seq<Slot>, w: nat)
    requires |path| == |view| == |other| == |oview|
    requires Coherent(path, view, other, oview)
    ensures Translation(Overlay(path, Hide(view), other, oview), w) ==
      if MappedLevel(view) > 0 && SamePage(path, other, MappedLevel(view)) then None else Translation(oview, w)
    decreases path
  {
    if path != [] && path[0] == other[0] {
      var result := Overlay(path, Hide(view), other, oview);
      match view[0]
      case Leaf(e) =>
      case Pointer(_) =>
        HideTranslation(path[1..], view[1..], other[1..], oview[1..], w);
        assert result[1..] == Overlay(path[1..], Hide(view[1..]), other[1..], oview[1..]);
      case Empty =>
        OverlaySame(path, other, view);
    }
  }

  /** `unmap` makes exactly the addresses of that leaf fault and changes no other translation. */
  lemma UnmapTranslates(m: Memory, labels: Labels, root: nat, path: seq<nat>, other: seq<nat>, w: nat)
    requires |path| == |other| && path != []
    requires Shaped(m, labels, |path|) && root in labels && labels[root].path == []
    ensures var level := MappedLevel(View(m, root, path));
      Walk(UnmapAt(m, root, path), root, other, w) ==
      if level > 0 && SamePage(path, other, level) then None else Walk(m, root, other, w)
  {
    UnmapKeepsShape(m, labels, |path|, root, path);
    WalkIsTranslation(m, labels, |path|, root, other, w);
    WalkIsTranslation(UnmapAt(m, root, path), labels, |path|, root, other, w);
    UnmapView(m, labels, |path|, root, path, other);
    ViewsCoherent(m, root, path, other);
    HideTranslation(path, View(m, root, path), other, View(m, root, other), w);
  }

  /** The leaf entry that a path ends in. */
  function MappedEntry(view: seq<Slot>): Entry
    requires MappedLevel(view) > 0
  {
    if view[0].Leaf? then view[0].entry else MappedEntry(view[1..])
  }

  lemma {:induction false} SpareAfterHide(path: seq<nat>, view: seq<Slot>, level: nat)
    requires |path| == |view| && Coherent(path, view, path, view) && MappedLevel(view) > 0 && 1 <= level <= 2
    ensures MappedEntry(view) != ZERO ==>
      (Spare(Hide(view), level) <==> level == 1 && MappedEntry(view) == Entry(0, {PRESENT}))
    decreases path
  {
    if view[0].Pointer? {
      SpareAfterHide(path[1..], view[1..], level);
    } else {
      var e := view[0].entry;
      assert SetBit(e, PRESENT, false) == ZERO && e != ZERO <==> e == Entry(0, {PRESENT});
      assert Hide(view)[1..] == Empties(|view| - 1);
    }
  }

  /**
   Unmapping clears only the present bit, so the slot stays taken: mapping the page again
   works only for the one entry that becomes zero, frame 0 with no flag but present.
   */
  lemma RemapAfterUnmap(m: Memory, labels: Labels, root: nat, path: seq<nat>, paddr: nat, flags1: Flags, flags0: Flags,
      pa: int, v: nat)
    requires path != [] && TableFlags(flags1) && PRESENT in flags0
    requires Shaped(m, labels, |path|) && root in labels && labels[root].path == []
    requires MappedLevel(View(m, root, path)) > 0
    ensures var unmapped := UnmapAt(m, root, path);
      Walk(unmapped, root, path, v) == None &&
      Enough(unmapped, root, path, RawRequest(|path|, paddr, flags1, flags0, pa)) &&
      (Walk(MapRaw(unmapped, root, path, paddr, flags1, flags0, pa), root, path, v).Some? <==>
       PAGE_SIZE_BIT !in flags0 && MappedEntry(View(m, root, path)) == Entry(0, {PRESENT}))
  {
    hide Shaped, SamePage, Walk;
    var view := View(m, root, path);
    var level := LeafLevel(flags0);
    UnmapKeepsShape(m, labels, |path|, root, path);
    UnmapTranslates(m, labels, root, path, path, v);
    SamePageSelf(path, MappedLevel(view));
    UnmapView(m, labels, |path|, root, path, path);
    OverlaySelf(path, Hide(view), view);
    ViewsCoherent(m, root, path, path);
    HideKeepsTabled(path, view);
    TabledNeedsNoFrame(UnmapAt(m, root, path), root, path, RawRequest(|path|, paddr, flags1, flags0, pa));
    MapRawTranslates(UnmapAt(m, root, path), labels, root, path, paddr, flags1, flags0, pa, path, v);
    MappedEntryNonZero(m, root, path);
    SpareAfterHide(path, view, level);
    if level <= |path| {
      SamePageSelf(path, level);
    }
  }

  /** All tables of the path are there: the view ends in a leaf or in an empty slot of the lowest level. */
  predicate Tabled(view: seq<Slot>) {
    view != [] && match view[0]
      case Leaf(_) => true
      case Pointer(_) => Tabled(view[1..])
      case Empty => |view| == 1
  }

  lemma {:induction false} TabledNeedsNoFrame(m: Memory, f: nat, path: seq<nat>, req: Request)
    requires 1 <= |path| == |req.flags| && Tabled(View(m, f, path))
    ensures Enough(m, f, path, req)
    decreases path
  {
    var e := Read(m, f, path[0]);
    if e != ZERO && !e.IsLeaf(|path|) {
      assert View(m, f, path)[1..] == View(m, e.page, path[1..]);
      TabledNeedsNoFrame(m, e.page, path[1..], req.Tail());
    }
  }

  lemma {:induction false} HideKeepsTabled(path: seq<nat>, view: seq<Slot>)
    requires |path| == |view| && Coherent(path, view, path, view) && MappedLevel(view) > 0
    ensures Tabled(Hide(view))
    decreases path
  {
    if view[0].Pointer? {
      HideKeepsTabled(path[1..], view[1..]);
    } else if |view| > 1 {
      assert PAGE_SIZE_BIT in SetBit(view[0].entry, PRESENT, false).flags;
    }
  }

  lemma {:induction false} SamePageSelf(path: seq<nat>, level: nat)
    requires 1 <= level <= |path|
    ensures SamePage(path, path, level)
  {
    if |path| > level {
      SamePageSelf(path[1..], level);
    }
  }

  lemma {:induction false} OverlaySelf(path: seq<nat>, changed: seq<Slot>, view: seq<Slot>)
    requires |path| == |changed| == |view|
    ensures Overlay(path, changed, path, view) == changed
  {
    if path != [] {
      OverlaySelf(path[1..], changed[1..], view[1..]);
    }
  }

  lemma {:induction false} MappedEntryNonZero(m: Memory, f: nat, path: seq<nat>)
    ensures MappedLevel(View(m, f, path)) > 0 ==> MappedEntry(View(m, f, path)) != ZERO
    decreases path
  {
    if path != [] {
      var e := Read(m, f, path[0]);
      if e != ZERO && !e.IsLeaf(|path|) {
        MappedEntryNonZero(m, e.page, path[1..]);
      }
    }
  }
}
