/**
 Runs of `map_page_raw` and `unmap` on one table, and the equivalence of four- and
 five-level tables on 48-bit canonical addresses.
 */
module FiveLevel {
  import opened Wrappers
  import opened PageEntry
  import opened PageTable
  import opened FlatMap
  import opened AddressSpaces

  datatype Call =
    | MapPage(v: nat, paddr: nat, flags1: Flags, flags0: Flags, pa: int)
    | UnmapPage(v: nat)

  predicate CanApply(m: Memory, root: nat, levels: nat, c: Call) {
    c.MapPage? ==>
      && 1 <= levels == |PathOf(c.v, levels)| && TableFlags(c.flags1)
      && Enough(m, root, PathOf(c.v, levels), RawRequest(levels, c.paddr, c.flags1, c.flags0, c.pa))
  }

  function Apply(m: Memory, root: nat, levels: nat, c: Call): Memory
    requires CanApply(m, root, levels, c)
  {
    match c
    case MapPage(v, paddr, flags1, flags0, pa) =>
      MapRaw(m, root, PathOf(v, levels), paddr, flags1, flags0, pa)
    case UnmapPage(v) => UnmapAt(m, root, PathOf(v, levels))
  }

  predicate CanRun(m: Memory, root: nat, levels: nat, calls: seq<Call>)
    decreases |calls|
  {
    calls == [] ||
    (CanApply(m, root, levels, calls[0]) && CanRun(Apply(m, root, levels, calls[0]), root, levels, calls[1..]))
  }

  function RunCalls(m: Memory, root: nat, levels: nat, calls: seq<Call>): Memory
    requires CanRun(m, root, levels, calls)
    decreases |calls|
  {
    if calls == [] then m else RunCalls(Apply(m, root, levels, calls[0]), root, levels, calls[1..])
  }

  /** The 48-bit canonical addresses. */
  predicate Canonical(v: nat) {
    v < 0x8000_0000_0000 || 0xFFFF_8000_0000_0000 <= v < 0x1_0000_0000_0000_0000
  }

  /** The fifth-level slot of the canonical half that a fourth-level index belongs to. */
  function Top(i: nat): nat {
    if i < 256 then 0 else 511
  }

  lemma CanonicalPath(v: nat)
    requires Canonical(v)
    ensures Path5(v) == [Top(Path4(v)[0])] + Path4(v)
  {
    var q := v / 0x80_0000_0000;
    assert v / 0x1_0000_0000_0000 == q / 512;
    if v < 0x8000_0000_0000 {
      assert q < 256;
    } else {
      assert 0x1FF_FF00 <= q < 0x200_0000;
      assert q / 512 == 65535;
    }
  }

  /** One call on a well-shaped table of either kind keeps it well shaped. */
  lemma ApplyKeepsShape(m: Memory, labels: Labels, root: nat, levels: nat, c: Call) returns (more: Labels)
    requires levels in {4, 5} && CanApply(m, root, levels, c)
    requires Shaped(m, labels, levels) && root in labels && labels[root].path == []
    ensures Shaped(Apply(m, root, levels, c), more, levels) && Extends(labels, more)
  {
    match c
    case MapPage(v, paddr, flags1, flags0, pa) =>
      RawRequestValid(levels, paddr, flags1, flags0, pa);
      more := MapKeepsShape(m, labels, levels, root, PathOf(v, levels), RawRequest(levels, paddr, flags1, flags0, pa));
    case UnmapPage(v) =>
      more := labels;
      UnmapKeepsShape(m, labels, levels, root, PathOf(v, levels));
  }

  /** Every run from a well-shaped table keeps the tables at distinct positions of one tree. */
  lemma {:induction false} RunKeepsShape(m: Memory, labels: Labels, root: nat, levels: nat, calls: seq<Call>)
    returns (more: Labels)
    requires levels in {4, 5} && CanRun(m, root, levels, calls)
    requires Shaped(m, labels, levels) && root in labels && labels[root].path == []
    ensures Shaped(RunCalls(m, root, levels, calls), more, levels) && Extends(labels, more)
    decreases |calls|
  {
    if calls == [] {
      more := labels;
    } else {
      more := ApplyKeepsShape(m, labels, root, levels, calls[0]);
      more := RunKeepsShape(Apply(m, root, levels, calls[0]), more, root, levels, calls[1..]);
    }
  }

  /** In every run of `map_page_raw` calls an address that translates keeps its physical address. */
  lemma {:induction false} MappingsPersist(m: Memory, labels: Labels, root: nat, levels: nat, calls: seq<Call>, w: nat)
    requires levels in {4, 5} && CanRun(m, root, levels, calls) && forall c :: c in calls ==> c.MapPage?
    requires Shaped(m, labels, levels) && root in labels && labels[root].path == []
    requires Walk(m, root, PathOf(w, levels), w).Some?
    ensures Walk(RunCalls(m, root, levels, calls), root, PathOf(w, levels), w) == Walk(m, root, PathOf(w, levels), w)
    decreases |calls|
  {
    hide Walk, Shaped;
    if calls != [] {
      var c := calls[0];
      assert c in calls;
      MapRawKeepsTranslations(m, labels, root, PathOf(c.v, levels), c.paddr, c.flags1, c.flags0, c.pa, PathOf(w, levels), w);
      var more := ApplyKeepsShape(m, labels, root, levels, c);
      MappingsPersist(Apply(m, root, levels, c), more, root, levels, calls[1..], w);
    }
  }

  /** A zeroed top table is well shaped. */
  lemma FreshTableShaped(m: Memory, root: nat, levels: nat)
    requires levels > 0 && PoolValid(m.pool, map[root := Position(0, [])])
    requires root in m.tables && m.tables[root] == map[]
    ensures Shaped(m, map[root := Position(0, [])], levels)
  {
  }

  ghost predicate Alike(m4: Memory, r4: nat, m5: Memory, r5: nat) {
    forall v {:trigger Path4(v)} :: Canonical(v) ==> View(m5, r5, Path5(v))[1..] == View(m4, r4, Path4(v))
  }

  lemma {:induction false} HideEmpties(n: nat)
    ensures Hide(Empties(n)) == Empties(n)
  {
  }

  lemma FillBelowTop(view: seq<Slot>, paddr: nat, flags1: Flags, flags0: Flags, pa: int)
    requires |view| == 5 && !view[0].Leaf? && TableFlags(flags1)
    ensures Fill(view, RawRequest(5, paddr, flags1, flags0, pa))[1..] ==
            Fill(view[1..], RawRequest(4, paddr, flags1, flags0, pa))
  {
    RawRequestValid(5, paddr, flags1, flags0, pa);
  }

  /** The changed view of one path in both tables, seen from another path. */
  lemma OverlayBelowTop(v: nat, changed: seq<Slot>, w: nat, view: seq<Slot>)
    requires Canonical(v) && Canonical(w) && |changed| == |view| == 5
    ensures Overlay(Path5(v), changed, Path5(w), view)[1..] ==
            Overlay(Path4(v), changed[1..], Path4(w), view[1..])
  {
    CanonicalPath(v);
    CanonicalPath(w);
    assert Path5(v)[1..] == Path4(v) && Path5(w)[1..] == Path4(w);
  }

  /** The views of both tables at a canonical address after a call, for mapping and for unmapping. */
  lemma MapKeepsAlike(m4: Memory, l4: Labels, r4: nat, m5: Memory, l5: Labels, r5: nat, c: Call, w: nat)
    requires Shaped(m4, l4, 4) && r4 in l4 && l4[r4].path == []
    requires Shaped(m5, l5, 5) && r5 in l5 && l5[r5].path == []
    requires c.MapPage? && Canonical(c.v) && Canonical(w) && CanApply(m4, r4, 4, c) && CanApply(m5, r5, 5, c)
    requires Alike(m4, r4, m5, r5)
    ensures View(Apply(m5, r5, 5, c), r5, Path5(w))[1..] == View(Apply(m4, r4, 4, c), r4, Path4(w))
  {
    hide Shaped, Fill, Overlay, MapAt, Canonical;
    var v, paddr, flags1, flags0, pa := c.v, c.paddr, c.flags1, c.flags0, c.pa;
    var v5, v4 := View(m5, r5, Path5(v)), View(m4, r4, Path4(v));
    assert v5[1..] == v4;
    RawRequestValid(4, paddr, flags1, flags0, pa);
    RawRequestValid(5, paddr, flags1, flags0, pa);
    MapView(m4, l4, 4, r4, Path4(v), RawRequest(4, paddr, flags1, flags0, pa), Path4(w));
    MapView(m5, l5, 5, r5, Path5(v), RawRequest(5, paddr, flags1, flags0, pa), Path5(w));
    FillBelowTop(v5, paddr, flags1, flags0, pa);
    OverlayBelowTop(v, Fill(v5, RawRequest(5, paddr, flags1, flags0, pa)), w, View(m5, r5, Path5(w)));
  }

  lemma UnmapKeepsAlike(m4: Memory, l4: Labels, r4: nat, m5: Memory, l5: Labels, r5: nat, v: nat, w: nat)
    requires Shaped(m4, l4, 4) && r4 in l4 && l4[r4].path == []
    requires Shaped(m5, l5, 5) && r5 in l5 && l5[r5].path == []
    requires Canonical(v) && Canonical(w) && Alike(m4, r4, m5, r5)
    ensures View(UnmapAt(m5, r5, Path5(v)), r5, Path5(w))[1..] == View(UnmapAt(m4, r4, Path4(v)), r4, Path4(w))
  {
    hide Shaped, Overlay, UnmapAt, Canonical;
    var v5 := View(m5, r5, Path5(v));
    assert v5[1..] == View(m4, r4, Path4(v));
    UnmapView(m4, l4, 4, r4, Path4(v), Path4(w));
    UnmapView(m5, l5, 5, r5, Path5(v), Path5(w));
    HideEmpties(4);
    assert Hide(v5)[1..] == Hide(v5[1..]);
    OverlayBelowTop(v, Hide(v5), w, View(m5, r5, Path5(w)));
  }

  lemma ApplyKeepsAlike(m4: Memory, l4: Labels, r4: nat, m5: Memory, l5: Labels, r5: nat, c: Call)
    requires Shaped(m4, l4, 4) && r4 in l4 && l4[r4].path == []
    requires Shaped(m5, l5, 5) && r5 in l5 && l5[r5].path == []
    requires Canonical(c.v) && CanApply(m4, r4, 4, c) && CanApply(m5, r5, 5, c)
    requires Alike(m4, r4, m5, r5)
    ensures Alike(Apply(m4, r4, 4, c), r4, Apply(m5, r5, 5, c), r5)
  {
    hide Shaped, MapRaw, UnmapAt, View;
    forall w | Canonical(w)
      ensures View(Apply(m5, r5, 5, c), r5, Path5(w))[1..] == View(Apply(m4, r4, 4, c), r4, Path4(w))
    {
      if c.MapPage? {
        MapKeepsAlike(m4, l4, r4, m5, l5, r5, c, w);
      } else {
        UnmapKeepsAlike(m4, l4, r4, m5, l5, r5, c.v, w);
      }
    }
  }

  lemma AlikeTranslate(m4: Memory, l4: Labels, r4: nat, m5: Memory, l5: Labels, r5: nat, w: nat)
    requires Shaped(m4, l4, 4) && r4 in l4 && l4[r4].path == []
    requires Shaped(m5, l5, 5) && r5 in l5 && l5[r5].path == []
    requires Alike(m4, r4, m5, r5) && Canonical(w)
    ensures Walk(m5, r5, Path5(w), w) == Walk(m4, r4, Path4(w), w)
  {
    WalkIsTranslation(m4, l4, 4, r4, Path4(w), w);
    WalkIsTranslation(m5, l5, 5, r5, Path5(w), w);
    EmptiesTranslateNowhere(4, w);
    assert View(m5, r5, Path5(w))[1..] == View(m4, r4, Path4(w));
  }

  lemma {:induction false} RunKeepsAlike(m4: Memory, l4: Labels, r4: nat, m5: Memory, l5: Labels, r5: nat,
      calls: seq<Call>, w: nat)
    requires Shaped(m4, l4, 4) && r4 in l4 && l4[r4].path == []
    requires Shaped(m5, l5, 5) && r5 in l5 && l5[r5].path == []
    requires CanRun(m4, r4, 4, calls) && CanRun(m5, r5, 5, calls)
    requires forall c :: c in calls ==> Canonical(c.v)
    requires Alike(m4, r4, m5, r5) && Canonical(w)
    ensures Walk(RunCalls(m5, r5, 5, calls), r5, Path5(w), w) == Walk(RunCalls(m4, r4, 4, calls), r4, Path4(w), w)
    decreases |calls|
  {
    if calls == [] {
      AlikeTranslate(m4, l4, r4, m5, l5, r5, w);
    } else {
      var c := calls[0];
      assert c in calls;
      ApplyKeepsAlike(m4, l4, r4, m5, l5, r5, c);
      var l4' := ApplyKeepsShape(m4, l4, r4, 4, c);
      var l5' := ApplyKeepsShape(m5, l5, r5, 5, c);
      RunKeepsAlike(Apply(m4, r4, 4, c), l4', r4, Apply(m5, r5, 5, c), l5', r5, calls[1..], w);
    }
  }

  /**
   A four-level and a five-level table, both fresh, driven by the same calls on canonical
   addresses translate every canonical address alike.
   */
  lemma FourAndFiveLevelsAgree(m4: Memory, r4: nat, m5: Memory, r5: nat, calls: seq<Call>, w: nat)
    requires r4 in m4.tables && m4.tables[r4] == map[] && PoolValid(m4.pool, map[r4 := Position(0, [])])
    requires r5 in m5.tables && m5.tables[r5] == map[] && PoolValid(m5.pool, map[r5 := Position(0, [])])
    requires CanRun(m4, r4, 4, calls) && CanRun(m5, r5, 5, calls)
    requires (forall c :: c in calls ==> Canonical(c.v)) && Canonical(w)
    ensures Walk(RunCalls(m5, r5, 5, calls), r5, Path5(w), w) == Walk(RunCalls(m4, r4, 4, calls), r4, Path4(w), w)
  {
    FreshTableShaped(m4, r4, 4);
    FreshTableShaped(m5, r5, 5);
    forall v
      ensures View(m5, r5, Path5(v))[1..] == View(m4, r4, Path4(v))
    {
      EmptyView(m4, r4, Path4(v));
      EmptyView(m5, r5, Path5(v));
    }
    RunKeepsAlike(m4, map[r4 := Position(0, [])], r4, m5, map[r5 := Position(0, [])], r5, calls, w);
  }
}
