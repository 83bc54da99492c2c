/**
 What a `map_page_raw` call leaves in the entries of its path, and the translations in plain
 numbers: frame, flags and cache attributes as the processor reads them.
 */
module LeafCells {
  import opened Wrappers
  import opened Arithmetic
  import opened PageEntry
  import opened PageTable
  import opened FlatMap
  import opened AddressSpaces
  import opened VirtualAddress
  import Pow2

  // ---------------------------------------------------------------------------------------
  // Entries

  /** Bit `b` of `paddr | flags` is one if it is in the flags or one in the address. */
  lemma {:induction false} BitsAre(x: nat, i: nat, b: nat)
    ensures b in BitsFrom(x, i) <==> b >= i && Pow2.Bit(x, b - i)
  {
    if x == 0 {
      if b >= i {
        Pow2.ZeroBit(b - i);
      }
    } else {
      BitsAre(x / 2, i + 1, b);
    }
  }

  /** The PAT index of a leaf, from the bits PAT (7, or 12 in a large leaf), PCD (4) and PWT (3). */
  function PatIndex(e: Entry, level: nat): nat {
    (if (if level == 1 then 7 in e.flags else e.page % 2 == 1) then 4 else 0) +
    (if 4 in e.flags then 2 else 0) +
    (if 3 in e.flags then 1 else 0)
  }

  /** Bit `b` of the low twelve is none of the cache attributes of a leaf. */
  predicate Plain(b: nat, level: nat) {
    b != 3 && b != 4 && (level == 1 ==> b != 7)
  }

  /** `e'` is `e` but for the cache attributes. */
  ghost predicate SameButCache(e: Entry, e': Entry, level: nat) {
    && (forall b: nat {:trigger b in e'.flags} :: Plain(b, level) ==> (b in e'.flags <==> b in e.flags))
    && if level == 1 then e'.page == e.page else e'.page / 2 == e.page / 2
  }

  /** `set_pa` sets the PAT index to the three low bits of its argument and touches nothing else. */
  lemma SetPaIndex(e: Entry, level: nat, pa: int)
    requires 1 <= level <= 3 && pa != -1
    ensures PatIndex(SetPa(e, level, pa), level) == pa % 8 && SameButCache(e, SetPa(e, level, pa), level)
  {
    LowBits(pa);
  }

  lemma LowBits(pa: int)
    ensures pa % 8 == 4 * (pa / 4 % 2) + 2 * (pa / 2 % 2) + pa / 1 % 2
  {
    var a := pa / 2;
    assert pa == 2 * a + pa % 2 && a == 2 * (a / 2) + a % 2;
    assert pa / 4 == a / 2;
    var c := a / 2;
    assert c == 2 * (c / 2) + c % 2;
    QuotientUnique(pa, 8, c / 2, 4 * (c % 2) + 2 * (a % 2) + pa % 2);
  }

  // ---------------------------------------------------------------------------------------
  // The leaf after a call

  /** The view of the mapped path after a call is the filled one. */
  lemma MappedView(m: Memory, labels: Labels, root: nat, path: seq<nat>, paddr: nat, flags1: Flags, flags0: Flags, pa: int)
    requires path != [] && Enough(m, root, path, RawRequest(|path|, paddr, flags1, flags0, pa)) && TableFlags(flags1)
    requires Shaped(m, labels, |path|) && root in labels && labels[root].path == []
    ensures View(MapRaw(m, root, path, paddr, flags1, flags0, pa), root, path) ==
      Fill(View(m, root, path), RawRequest(|path|, paddr, flags1, flags0, pa))
  {
    hide Shaped, View, Fill;
    var req := RawRequest(|path|, paddr, flags1, flags0, pa);
    RawRequestValid(|path|, paddr, flags1, flags0, pa);
    MapView(m, labels, |path|, root, path, req, path);
    OverlaySelf(path, Fill(View(m, root, path), req), View(m, root, path));
  }

  /** A leaf entry just made for `paddr` and `flags` with the cache attribute `pa`. */
  ghost predicate MadeFor(e: Entry, level: nat, paddr: nat, flags: Flags, pa: int) {
    if pa == -1 then
      && e.page == paddr / 0x1000
      && forall b: nat {:trigger b in e.flags} :: b in e.flags <==> b in flags || Pow2.Bit(paddr % 0x1000, b)
    else
      && PatIndex(e, level) == pa % 8
      && (if level == 1 then e.page == paddr / 0x1000 else e.page / 2 == paddr / 0x2000)
      && forall b: nat {:trigger b in e.flags} ::
           Plain(b, level) ==> (b in e.flags <==> b in flags || Pow2.Bit(paddr % 0x1000, b))
  }

  lemma NewEntry(paddr: nat, flags: Flags, level: nat, pa: int)
    requires 1 <= level <= 3
    ensures MadeFor(SetPa(LeafEntry(paddr, flags), level, pa), level, paddr, flags, pa)
  {
    hide BitsFrom;
    forall b: nat
      ensures b in BitsFrom(paddr % 0x1000, 0) <==> Pow2.Bit(paddr % 0x1000, b)
    {
      BitsAre(paddr % 0x1000, 0, b);
    }
    if pa != -1 {
      SetPaIndex(LeafEntry(paddr, flags), level, pa);
      HalfPage(paddr);
    }
  }

  lemma HalfPage(paddr: nat)
    ensures paddr / 0x1000 / 2 == paddr / 0x2000
  {
  }

  /** Filling a spare leaf slot puts exactly the entry asked for there, with tables of the flags asked for on the way. */
  lemma {:induction false} FillNew(view: seq<Slot>, paddr: nat, flags1: Flags, flags0: Flags, pa: int)
    requires TableFlags(flags1) && 0 in flags0 && Spare(view, LeafLevel(flags0))
    ensures var r, level := Fill(view, RawRequest(|view|, paddr, flags1, flags0, pa)), if 7 in flags0 then 2 else 1;
      && MappedLevel(r) == level && MadeFor(MappedEntry(r), level, paddr, flags0, pa)
      && forall k :: 0 <= k < |view| - level ==> r[k] == if view[k].Empty? then Pointer(flags1) else view[k]
    decreases |view|
  {
    var level, req := LeafLevel(flags0), RawRequest(|view|, paddr, flags1, flags0, pa);
    RawRequestValid(|view|, paddr, flags1, flags0, pa);
    var r := Fill(view, req);
    if |view| == level {
      NewEntry(paddr, flags0, level, pa);
      SetPaBits(LeafEntry(paddr, flags0), level, pa);
      assert level == 2 ==> LeafEntry(paddr, flags0).Huge();
      assert r[0] == Leaf(SetPa(LeafEntry(paddr, flags0), level, pa));
    } else {
      hide MadeFor;
      FillNew(view[1..], paddr, flags1, flags0, pa);
      assert r[1..] == Fill(view[1..], req.Tail());
      forall k | 0 <= k < |view| - level
        ensures r[k] == if view[k].Empty? then Pointer(flags1) else view[k]
      {
        assert k > 0 ==> r[k] == r[1..][k - 1] && view[k] == view[1..][k - 1];
      }
    }
  }

  /** One leaf entry after the call. */
  lemma LeafAfter(e: Entry, level: nat, pa: int)
    requires e.IsLeaf(level) && level > 0 && 0 in e.flags
    ensures SlotOf(SetPa(e, level, pa), level) == Leaf(SetPa(e, level, pa))
    ensures if pa == -1 then SetPa(e, level, pa) == e
      else SameButCache(e, SetPa(e, level, pa), level) && PatIndex(SetPa(e, level, pa), level) == pa % 8
  {
    SetPaBits(e, level, pa);
    if pa != -1 {
      SetPaIndex(e, level, pa);
    }
  }

  /** A leaf that was there keeps everything but its cache attributes. */
  lemma {:induction false} FillOld(path: seq<nat>, view: seq<Slot>, paddr: nat, flags1: Flags, flags0: Flags, pa: int)
    requires |path| == |view| && Coherent(path, view, path, view)
    requires TableFlags(flags1) && MappedLevel(view) > 0 && 0 in MappedEntry(view).flags
    ensures var r, level := Fill(view, RawRequest(|view|, paddr, flags1, flags0, pa)), MappedLevel(view);
      && MappedLevel(r) == level && (forall k :: 0 <= k < |view| - level ==> r[k] == view[k])
      && if pa == -1 then r == view
         else SameButCache(MappedEntry(view), MappedEntry(r), level) && PatIndex(MappedEntry(r), level) == pa % 8
    decreases |view|
  {
    var level, req := MappedLevel(view), RawRequest(|view|, paddr, flags1, flags0, pa);
    RawRequestValid(|view|, paddr, flags1, flags0, pa);
    var r := Fill(view, req);
    hide SameButCache, PatIndex, SetPa, SlotOf;
    if view[0].Leaf? {
      LeafAfter(view[0].entry, level, pa);
    } else {
      FillOld(path[1..], view[1..], paddr, flags1, flags0, pa);
      assert r[1..] == Fill(view[1..], req.Tail());
      forall k | 0 <= k < |view| - level
        ensures r[k] == view[k]
      {
        assert k > 0 ==> r[k] == r[1..][k - 1] && view[k] == view[1..][k - 1];
      }
    }
  }

  /**
   `map_page_raw` on a spare slot: the path ends in a leaf of the size asked for that holds the
   frame, flags and PAT index asked for, and the tables on the way have the flags asked for if
   they are new and those they had if not.
   */
  lemma MapRawMakes(m: Memory, labels: Labels, root: nat, path: seq<nat>, paddr: nat, flags1: Flags, flags0: Flags, pa: int)
    requires path != [] && Enough(m, root, path, RawRequest(|path|, paddr, flags1, flags0, pa)) && TableFlags(flags1)
    requires Shaped(m, labels, |path|) && root in labels && labels[root].path == []
    requires 0 in flags0 && Spare(View(m, root, path), LeafLevel(flags0))
    ensures var view, after := View(m, root, path), View(MapRaw(m, root, path, paddr, flags1, flags0, pa), root, path);
      var level := if 7 in flags0 then 2 else 1;
      && MappedLevel(after) == level && MadeFor(MappedEntry(after), level, paddr, flags0, pa)
      && forall k :: 0 <= k < |view| - level ==> after[k] == if view[k].Empty? then Pointer(flags1) else view[k]
  {
    hide Shaped, View, MapRaw, MadeFor, Fill;
    MappedView(m, labels, root, path, paddr, flags1, flags0, pa);
    FillNew(View(m, root, path), paddr, flags1, flags0, pa);
  }

  /** On a path that ends in a present leaf it sets that leaf's PAT index and changes nothing else. */
  lemma MapRawKeeps(m: Memory, labels: Labels, root: nat, path: seq<nat>, paddr: nat, flags1: Flags, flags0: Flags, pa: int)
    requires path != [] && Enough(m, root, path, RawRequest(|path|, paddr, flags1, flags0, pa)) && TableFlags(flags1)
    requires Shaped(m, labels, |path|) && root in labels && labels[root].path == []
    requires MappedLevel(View(m, root, path)) > 0 && 0 in MappedEntry(View(m, root, path)).flags
    ensures var view, after := View(m, root, path), View(MapRaw(m, root, path, paddr, flags1, flags0, pa), root, path);
      var level := MappedLevel(view);
      && MappedLevel(after) == level && (forall k :: 0 <= k < |view| - level ==> after[k] == view[k])
      && if pa == -1 then after == view
         else SameButCache(MappedEntry(view), MappedEntry(after), level) && PatIndex(MappedEntry(after), level) == pa % 8
  {
    hide Shaped, View, MapRaw, Fill, SameButCache, PatIndex, Coherent;
    MappedView(m, labels, root, path, paddr, flags1, flags0, pa);
    ViewsCoherent(m, root, path, path);
    FillOld(path, View(m, root, path), paddr, flags1, flags0, pa);
  }

  // ---------------------------------------------------------------------------------------
  // Translations in plain numbers

  /** A 4 KiB page maps the addresses of its page one to one onto the frame at `paddr`. */
  lemma SmallPageTranslates(m: Memory, labels: Labels, root: nat, path: seq<nat>, paddr: nat, flags1: Flags,
      flags0: Flags, pa: int, other: seq<nat>, w: nat)
    requires path != [] && Enough(m, root, path, RawRequest(|path|, paddr, flags1, flags0, pa)) && TableFlags(flags1)
    requires Shaped(m, labels, |path|) && root in labels && labels[root].path == [] && |other| == |path|
    requires paddr % 0x1000 == 0 && 0 in flags0 && 7 !in flags0
    requires Spare(View(m, root, path), 1) && SamePage(path, other, 1)
    ensures Walk(MapRaw(m, root, path, paddr, flags1, flags0, pa), root, other, w) == Some(paddr + w % 0x1000)
  {
    hide Shaped, View, MapRaw, Walk, Spare, SamePage, Enough, BitsFrom;
    MapRawTranslates(m, labels, root, path, paddr, flags1, flags0, pa, other, w);
    assert paddr == paddr / 0x1000 * 0x1000;
  }

  /** A 2 MiB page likewise. */
  lemma LargePageTranslates(m: Memory, labels: Labels, root: nat, path: seq<nat>, paddr: nat, flags1: Flags,
      flags0: Flags, pa: int, other: seq<nat>, w: nat)
    requires path != [] && Enough(m, root, path, RawRequest(|path|, paddr, flags1, flags0, pa)) && TableFlags(flags1)
    requires Shaped(m, labels, |path|) && root in labels && labels[root].path == [] && |other| == |path|
    requires paddr % 0x20_0000 == 0 && 0 in flags0 && 7 in flags0
    requires Spare(View(m, root, path), 2) && SamePage(path, other, 2)
    ensures Walk(MapRaw(m, root, path, paddr, flags1, flags0, pa), root, other, w) == Some(paddr + w % 0x20_0000)
  {
    hide Shaped, View, MapRaw, Walk, Spare, SamePage, Enough, BitsFrom;
    MapRawTranslates(m, labels, root, path, paddr, flags1, flags0, pa, other, w);
    LargeFrame(paddr);
  }

  lemma LargeFrame(paddr: nat)
    requires paddr % 0x20_0000 == 0
    ensures paddr / 0x1000 / 512 * 512 * 0x1000 == paddr
  {
    var k := paddr / 0x20_0000;
    assert paddr == k * 0x20_0000;
    QuotientUnique(paddr, 0x1000, k * 512, 0);
    QuotientUnique(k * 512, 512, k, 0);
  }

  lemma RootLabel(s: Spaces, labels: Labels, k: nat)
    requires AddressSpaces.Valid(s, labels) && k < |s.roots|
    ensures Shaped(s.m, labels, s.levels) && s.roots[k] in labels && labels[s.roots[k]].path == []
  {
    hide Shaped, KernelSlotsAgree;
  }

  lemma SamePageByAddress(v: nat, w: nat, levels: nat, level: nat)
    requires levels in {4, 5} && level in {1, 2}
    requires var size := if level == 2 then 0x20_0000 else 0x1000; w / size == v / size
    ensures SamePage(PathOf(v, levels), PathOf(w, levels), level)
  {
    hide Path4, Path5, Pow512;
    SamePageIff(v, w, levels, level);
  }

  /** A call through an address space, in addresses: `v` and every address of its page map onto `paddr`. */
  lemma SpacePageTranslates(s: Spaces, labels: Labels, k: nat, v: nat, paddr: nat, flags1: Flags, flags0: Flags, pa: int,
      size: nat, w: nat)
    requires AddressSpaces.Valid(s, labels) && AddressSpaces.Enabled(s, Map(k, v, paddr, flags1, flags0, pa))
    requires 0 in flags0 && size == (if 7 in flags0 then 0x20_0000 else 0x1000)
    requires paddr % size == 0 && w / size == v / size
    requires Spare(View(s.m, s.roots[k], PathOf(v, s.levels)), if 7 in flags0 then 2 else 1)
    ensures Walk(Step(s, Map(k, v, paddr, flags1, flags0, pa)).m, s.roots[k], PathOf(w, s.levels), w) ==
      Some(paddr + w % size)
  {
    hide Shaped, View, MapRaw, Walk, Spare, SamePage, Enough, AddressSpaces.Valid;
    RootLabel(s, labels, k);
    var root, path, other := s.roots[k], PathOf(v, s.levels), PathOf(w, s.levels);
    SamePageByAddress(v, w, s.levels, if 7 in flags0 then 2 else 1);
    if 7 in flags0 {
      LargePageTranslates(s.m, labels, root, path, paddr, flags1, flags0, pa, other, w);
    } else {
      SmallPageTranslates(s.m, labels, root, path, paddr, flags1, flags0, pa, other, w);
    }
  }
}
