/**
 The radix page table in physical memory, as values: the processor's walk, what
 `virtual_address::map` and `unmap` do to memory, and the view of a path that both refine.

 Tables are named by page number. A path is the sequence of indices from the top table
 down, so its length is the number of levels left and four- and five-level tables are the
 same recursion.
 */
module PageTable {
  import opened Wrappers
  import opened PageEntry

  type Table = map<nat, Entry>

  /** Physical memory: the tables, and the frames that `pmm::calloc(1)` will return next. */
  datatype Memory = Memory(tables: map<nat, Table>, pool: seq<nat>)

  function Read(m: Memory, f: nat, i: nat): Entry {
    if f in m.tables && i in m.tables[f] then m.tables[f][i] else ZERO
  }

  function Write(m: Memory, f: nat, i: nat, e: Entry): Memory {
    m.(tables := m.tables[f := (if f in m.tables then m.tables[f] else map[])[i := e]])
  }

  /** `pmm::calloc(1)`: the next free frame, filled with zeros. */
  function Calloc(m: Memory): Memory
    requires m.pool != []
  {
    Memory(m.tables[m.pool[0] := map[]], m.pool[1..])
  }

  /** Section 4.5 of the Intel SDM, Volume 3A: the walk from the table `f`. */
  function Walk(m: Memory, f: nat, path: seq<nat>, v: nat): Option<nat>
    decreases path
  {
    if path == [] then None
    else
      var e := Read(m, f, path[0]);
      if !e.Present() then None
      else if e.IsLeaf(|path|) then Some(Resolve(e, |path|, v))
      else Walk(m, e.page, path[1..], v)
  }

  /** The arguments of one `map` call: the flags of each level, the frame and the cache attribute. */
  datatype Request = Request(flags: seq<Flags>, paddr: nat, pa: int) {
    function Tail(): Request
      requires flags != []
    {
      this.(flags := flags[1..])
    }

    /** Usable below a top level: every level is off, a leaf, or a proper table pointer. */
    predicate Valid() {
      && forall k :: 0 <= k < |flags| - 1 ==>
        flags[k] == {} || TableFlags(flags[k]) || (|flags| - k <= 3 && PAGE_SIZE_BIT in flags[k])
    }
  }

  predicate MakesLeaf(flags: Flags, level: nat) {
    level == 1 || (level <= 3 && PAGE_SIZE_BIT in flags)
  }

  function NewLeaf(req: Request): Entry
    requires req.flags != []
  {
    LeafEntry(req.paddr, req.flags[0])
  }

  /** There is a frame for every table that the call adds. */
  predicate Enough(m: Memory, f: nat, path: seq<nat>, req: Request)
    requires 1 <= |path| == |req.flags|
    decreases path
  {
    var e := Read(m, f, path[0]);
    if e == ZERO then
      req.flags[0] == {} || MakesLeaf(req.flags[0], |path|) ||
      (m.pool != [] && Enough(Write(Calloc(m), f, path[0], Entry(m.pool[0], req.flags[0])), m.pool[0], path[1..], req.Tail()))
    else e.IsLeaf(|path|) || Enough(m, e.page, path[1..], req.Tail())
  }

  /** One frame for each level below the top is always enough. */
  lemma {:induction false} EnoughFrames(m: Memory, f: nat, path: seq<nat>, req: Request)
    requires 1 <= |path| == |req.flags| <= |m.pool| + 1
    ensures Enough(m, f, path, req)
    decreases path
  {
    var e := Read(m, f, path[0]);
    if e == ZERO && req.flags[0] != {} && !MakesLeaf(req.flags[0], |path|) {
      EnoughFrames(Write(Calloc(m), f, path[0], Entry(m.pool[0], req.flags[0])), m.pool[0], path[1..], req.Tail());
    } else if e != ZERO && !e.IsLeaf(|path|) {
      EnoughFrames(m, e.page, path[1..], req.Tail());
    }
  }

  /** `virtual_address::map` from the table `f` down the path. */
  function MapAt(m: Memory, f: nat, path: seq<nat>, req: Request): Memory
    requires 1 <= |path| == |req.flags| && Enough(m, f, path, req)
    decreases path
  {
    var e := Read(m, f, path[0]);
    if e == ZERO then
      if req.flags[0] == {} then m
      else if MakesLeaf(req.flags[0], |path|) then
        Write(m, f, path[0], SetPa(NewLeaf(req), |path|, req.pa))
      else
        var m1 := Write(Calloc(m), f, path[0], Entry(m.pool[0], req.flags[0]));
        MapAt(m1, m.pool[0], path[1..], req.Tail())
    else if e.IsLeaf(|path|) then Write(m, f, path[0], SetPa(e, |path|, req.pa))
    else MapAt(m, e.page, path[1..], req.Tail())
  }

  /** A call takes frames from the pool and puts none back. */
  lemma {:induction false} MapTakesFrames(m: Memory, f: nat, path: seq<nat>, req: Request)
    requires 1 <= |path| == |req.flags| && Enough(m, f, path, req)
    ensures forall x :: x in MapAt(m, f, path, req).pool ==> x in m.pool
    decreases path
  {
    var e := Read(m, f, path[0]);
    if e == ZERO && req.flags[0] != {} && !MakesLeaf(req.flags[0], |path|) {
      MapTakesFrames(Write(Calloc(m), f, path[0], Entry(m.pool[0], req.flags[0])), m.pool[0], path[1..], req.Tail());
    } else if e != ZERO && !e.IsLeaf(|path|) {
      MapTakesFrames(m, e.page, path[1..], req.Tail());
    }
  }

  /** `virtual_address::unmap` on the leaf at the end of the path: only the present bit goes. */
  function UnmapAt(m: Memory, f: nat, path: seq<nat>): Memory
    decreases path
  {
    if path == [] then m
    else
      var e := Read(m, f, path[0]);
      if e == ZERO then m
      else if e.IsLeaf(|path|) then Write(m, f, path[0], SetBit(e, PRESENT, false))
      else UnmapAt(m, e.page, path[1..])
  }

  // ---------------------------------------------------------------------------------------
  // The view of a path: what each level holds, without saying where the tables lie.

  datatype Slot = Empty | Pointer(flags: Flags) | Leaf(entry: Entry)

  function SlotOf(e: Entry, level: nat): Slot {
    if e == ZERO then Empty else if e.IsLeaf(level) then Leaf(e) else Pointer(e.flags)
  }

  function Empties(n: nat): (r: seq<Slot>)
    ensures |r| == n && forall k :: 0 <= k < n ==> r[k] == Empty
  {
    seq(n, _ => Empty)
  }

  function View(m: Memory, f: nat, path: seq<nat>): (r: seq<Slot>)
    ensures |r| == |path|
    decreases path
  {
    if path == [] then []
    else
      var e := Read(m, f, path[0]);
      var s := SlotOf(e, |path|);
      [s] + if s.Pointer? then View(m, e.page, path[1..]) else Empties(|path| - 1)
  }

  /** The translation that a view gives. */
  function Translation(view: seq<Slot>, v: nat): Option<nat> {
    if view == [] then None
    else match view[0]
      case Empty => None
      case Pointer(_) => Translation(view[1..], v)
      case Leaf(e) => if e.Present() then Some(Resolve(e, |view|, v)) else None
  }

  /** What a `map` call does to the view of its own path. */
  function Fill(view: seq<Slot>, req: Request): (r: seq<Slot>)
    requires |view| == |req.flags|
    ensures |r| == |view|
    decreases view
  {
    if view == [] then []
    else match view[0]
      case Leaf(e) => [SlotOf(SetPa(e, |view|, req.pa), |view|)] + view[1..]
      case Pointer(_) => [view[0]] + Fill(view[1..], req.Tail())
      case Empty =>
        if req.flags[0] == {} then view
        else if MakesLeaf(req.flags[0], |view|) then
          [SlotOf(SetPa(NewLeaf(req), |view|, req.pa), |view|)] + view[1..]
        else [Pointer(req.flags[0])] + Fill(view[1..], req.Tail())
  }

  /** What an `unmap` call does to the view of its own path. */
  function Hide(view: seq<Slot>): (r: seq<Slot>)
    ensures |r| == |view|
  {
    if view == [] then []
    else match view[0]
      case Leaf(e) => [SlotOf(SetBit(e, PRESENT, false), |view|)] + view[1..]
      case Pointer(_) => [view[0]] + Hide(view[1..])
      case Empty => view
  }

  /** The view of `other` once the view of `path` has become `changed`: the shared prefix follows it. */
  function Overlay(path: seq<nat>, changed: seq<Slot>, other: seq<nat>, view: seq<Slot>): (r: seq<Slot>)
    requires |path| == |changed| == |other| == |view|
    ensures |r| == |view|
  {
    if path == [] || path[0] != other[0] then view
    else [changed[0]] + Overlay(path[1..], changed[1..], other[1..], view[1..])
  }

  // ---------------------------------------------------------------------------------------
  // Shape: every table has one position, and pointers lead to the position below.

  /** A position: an owner and the indices that lead there from the owner's top table. */
  datatype Position = Position(owner: int, path: seq<nat>)

  /** The owner of everything below a shared top-level slot. */
  const SHARED: int := -1

  /** The top-level slots that `create_generic` copies. */
  predicate IsShared(i: nat) {
    i == 256 || i == 511
  }

  function Child(p: Position, i: nat): Position {
    Position(if p.path == [] && IsShared(i) then SHARED else p.owner, p.path + [i])
  }

  type Labels = map<nat, Position>

  predicate PoolValid(pool: seq<nat>, labels: Labels) {
    && (forall k :: 0 <= k < |pool| ==> pool[k] !in labels)
    && (forall j, k :: 0 <= j < k < |pool| ==> pool[j] != pool[k])
  }

  predicate Linked(e: Entry, labels: Labels, below: Position) {
    e.Present() && e.page in labels && labels[e.page] == below
  }

  ghost predicate Shaped(m: Memory, labels: Labels, levels: nat) {
    && PoolValid(m.pool, labels)
    && (forall f :: f in labels ==> |labels[f].path| < levels)
    && (forall f, i {:trigger Read(m, f, i)} ::
          f in labels && Read(m, f, i) != ZERO && !Read(m, f, i).IsLeaf(levels - |labels[f].path|)
          ==> Linked(Read(m, f, i), labels, Child(labels[f], i)))
  }

  /** The cell at index `i` of a table at `p` lies on the path that starts at position `a`. */
  predicate OnPath(p: Position, i: nat, a: Position, path: seq<nat>)
    decreases path
  {
    path != [] && ((p == a && i == path[0]) || OnPath(p, i, Child(a, path[0]), path[1..]))
  }

  /** Memory `m1` differs from `m` in labelled tables only at cells on the path. */
  ghost predicate ChangesOnly(m: Memory, m1: Memory, labels: Labels, a: Position, path: seq<nat>) {
    forall f, i {:trigger Read(m1, f, i)} :: f in labels && Read(m1, f, i) != Read(m, f, i) ==>
      OnPath(labels[f], i, a, path)
  }

  ghost predicate Extends(labels: Labels, more: Labels) {
    forall f {:trigger f in more} {:trigger labels[f]} :: f in labels ==> f in more && more[f] == labels[f]
  }

  /** Every table is an old one or one of these frames. */
  ghost predicate Within(more: Labels, labels: Labels, frames: seq<nat>) {
    forall f {:trigger f in more} :: f in more ==> f in labels || f in frames
  }

  lemma ReadWrite(m: Memory, f: nat, i: nat, e: Entry)
    ensures forall g, j {:trigger Read(Write(m, f, i, e), g, j)} ::
      Read(Write(m, f, i, e), g, j) == if g == f && j == i then e else Read(m, g, j)
  {
  }

  lemma {:induction false} OnPathBelow(p: Position, i: nat, a: Position, path: seq<nat>)
    requires OnPath(p, i, a, path)
    ensures p.path + [i] <= a.path + path && |a.path| <= |p.path|
    ensures p.owner == a.owner || p.owner == SHARED
    decreases path
  {
    if p == a && i == path[0] {
      assert a.path + path == p.path + [i] + path[1..];
    } else {
      OnPathBelow(p, i, Child(a, path[0]), path[1..]);
      assert Child(a, path[0]).path + path[1..] == a.path + path;
    }
  }

  /** Calloc and linking of a fresh table keeps the shape and labels the table. */
  lemma LinkTable(m: Memory, labels: Labels, levels: nat, f: nat, i: nat, flags: Flags)
    requires Shaped(m, labels, levels) && f in labels && m.pool != []
    requires |labels[f].path| + 1 < levels && Read(m, f, i) == ZERO
    requires PRESENT in flags
    ensures var m1 := Write(Calloc(m), f, i, Entry(m.pool[0], flags));
      var more := labels[m.pool[0] := Child(labels[f], i)];
      && Shaped(m1, more, levels) && Extends(labels, more)
      && (forall g, j {:trigger Read(m1, g, j)} :: g != m.pool[0] && !(g == f && j == i) ==> Read(m1, g, j) == Read(m, g, j))
      && (forall j {:trigger Read(m1, m.pool[0], j)} :: Read(m1, m.pool[0], j) == ZERO)
      && Read(m1, f, i) == Entry(m.pool[0], flags)
  {
    var m1 := Write(Calloc(m), f, i, Entry(m.pool[0], flags));
    var more := labels[m.pool[0] := Child(labels[f], i)];
    ReadWrite(Calloc(m), f, i, Entry(m.pool[0], flags));
    assert m.pool[0] != f;
    forall g, j | g != m.pool[0] && !(g == f && j == i)
      ensures Read(m1, g, j) == Read(m, g, j)
    {
      assert Read(Calloc(m), g, j) == Read(m, g, j);
    }
  }

  /** `map` keeps every table at its position and writes only on its own path. */
  lemma {:induction false} MapKeepsShape(m: Memory, labels: Labels, levels: nat, f: nat, path: seq<nat>, req: Request)
    returns (more: Labels)
    requires Shaped(m, labels, levels) && f in labels && |labels[f].path| + |path| == levels
    requires 1 <= |path| == |req.flags| && Enough(m, f, path, req) && req.Valid()
    ensures Shaped(MapAt(m, f, path, req), more, levels) && Extends(labels, more) && Within(more, labels, m.pool)
    ensures ChangesOnly(m, MapAt(m, f, path, req), labels, labels[f], path)
    decreases path
  {
    var e := Read(m, f, path[0]);
    var m' := MapAt(m, f, path, req);
    if e == ZERO {
      if req.flags[0] == {} {
        more := labels;
      } else if MakesLeaf(req.flags[0], |path|) {
        more := labels;
        WriteLeafKeepsShape(m, labels, levels, f, path, NewLeaf(req), req.pa);
      } else {
        LinkTable(m, labels, levels, f, path[0], req.flags[0]);
        var m1 := Write(Calloc(m), f, path[0], Entry(m.pool[0], req.flags[0]));
        var labels1 := labels[m.pool[0] := Child(labels[f], path[0])];
        more := MapKeepsShape(m1, labels1, levels, m.pool[0], path[1..], req.Tail());
        assert m1.pool == m.pool[1..];
      }
    } else if e.IsLeaf(|path|) {
      more := labels;
      WriteLeafKeepsShape(m, labels, levels, f, path, e, req.pa);
    } else {
      more := MapKeepsShape(m, labels, levels, e.page, path[1..], req.Tail());
    }
  }

  lemma WriteLeafKeepsShape(m: Memory, labels: Labels, levels: nat, f: nat, path: seq<nat>, e: Entry, pa: int)
    requires Shaped(m, labels, levels) && f in labels && |labels[f].path| + |path| == levels
    requires path != [] && e.IsLeaf(|path|)
    ensures var m1 := Write(m, f, path[0], SetPa(e, |path|, pa));
      Shaped(m1, labels, levels) && ChangesOnly(m, m1, labels, labels[f], path)
  {
    SetPaBits(e, |path|, pa);
    ReadWrite(m, f, path[0], SetPa(e, |path|, pa));
  }

  lemma {:induction false} UnmapKeepsShape(m: Memory, labels: Labels, levels: nat, f: nat, path: seq<nat>)
    requires Shaped(m, labels, levels) && f in labels && |labels[f].path| + |path| == levels
    ensures Shaped(UnmapAt(m, f, path), labels, levels)
    ensures ChangesOnly(m, UnmapAt(m, f, path), labels, labels[f], path)
    decreases path
  {
    if path != [] {
      var e := Read(m, f, path[0]);
      if e != ZERO && e.IsLeaf(|path|) {
        ReadWrite(m, f, path[0], SetBit(e, PRESENT, false));
      } else if e != ZERO {
        UnmapKeepsShape(m, labels, levels, e.page, path[1..]);
      }
    }
  }

  /** No cell read along `other` from position `b` lies on the path from position `a`. */
  predicate Avoids(b: Position, other: seq<nat>, a: Position, path: seq<nat>)
    decreases other
  {
    other == [] ||
    (!OnPath(b, other[0], a, path) && Avoids(Child(b, other[0]), other[1..], a, path))
  }

  lemma {:induction false} ViewUnchanged(m: Memory, m1: Memory, labels: Labels, levels: nat, a: Position, path: seq<nat>,
      g: nat, other: seq<nat>)
    requires Shaped(m, labels, levels) && ChangesOnly(m, m1, labels, a, path)
    requires g in labels && |labels[g].path| + |other| == levels
    requires Avoids(labels[g], other, a, path)
    ensures View(m1, g, other) == View(m, g, other)
    decreases other
  {
    if other != [] {
      var e := Read(m, g, other[0]);
      assert Read(m1, g, other[0]) == e;
      if SlotOf(e, |other|).Pointer? {
        ViewUnchanged(m, m1, labels, levels, a, path, e.page, other[1..]);
      }
    }
  }

  /** Two paths whose index sequences differ somewhere above `b` never meet. */
  lemma {:induction false} AvoidsByIndex(b: Position, other: seq<nat>, a: Position, path: seq<nat>, n: nat)
    requires n <= |b.path| && n < |b.path + other| && n < |a.path + path|
    requires (b.path + other)[n] != (a.path + path)[n]
    ensures Avoids(b, other, a, path)
    decreases other
  {
    if other != [] {
      if OnPath(b, other[0], a, path) {
        OnPathBelow(b, other[0], a, path);
        assert false;
      }
      assert Child(b, other[0]).path + other[1..] == b.path + other;
      AvoidsByIndex(Child(b, other[0]), other[1..], a, path, n);
    }
  }

  /** A map call changes the views from its own table exactly as `Fill` says. */
  lemma {:induction false} MapView(m: Memory, labels: Labels, levels: nat, f: nat, path: seq<nat>, req: Request,
      other: seq<nat>)
    requires Shaped(m, labels, levels) && f in labels && |labels[f].path| + |path| == levels
    requires 1 <= |path| == |req.flags| && Enough(m, f, path, req) && req.Valid() && |other| == |path|
    ensures View(MapAt(m, f, path, req), f, other) ==
            Overlay(path, Fill(View(m, f, path), req), other, View(m, f, other))
    decreases path
  {
    var m' := MapAt(m, f, path, req);
    var more := MapKeepsShape(m, labels, levels, f, path, req);
    if path[0] != other[0] {
      AvoidsByIndex(labels[f], other, labels[f], path, |labels[f].path|);
      ViewUnchanged(m, m', labels, levels, labels[f], path, f, other);
    } else {
      MapViewSameSlot(m, labels, levels, f, path, req, other);
    }
  }

  lemma {:induction false} MapViewSameSlot(m: Memory, labels: Labels, levels: nat, f: nat, path: seq<nat>, req: Request,
      other: seq<nat>)
    requires Shaped(m, labels, levels) && f in labels && |labels[f].path| + |path| == levels
    requires 1 <= |path| == |req.flags| && Enough(m, f, path, req) && req.Valid() && |other| == |path|
    requires other[0] == path[0]
    ensures View(MapAt(m, f, path, req), f, other) ==
            Overlay(path, Fill(View(m, f, path), req), other, View(m, f, other))
    decreases path, 1
  {
    hide Shaped, OnPath, SetPa;
    var e := Read(m, f, path[0]);
    if e == ZERO {
      OverlaySame(path[1..], other[1..], Empties(|path| - 1));
      if req.flags[0] == {} {
      } else if MakesLeaf(req.flags[0], |path|) {
        LeafViewAfterWrite(m, f, path, NewLeaf(req), req.pa, other);
      } else {
        MapViewNewTable(m, labels, levels, f, path, req, other);
      }
    } else if e.IsLeaf(|path|) {
      OverlaySame(path[1..], other[1..], Empties(|path| - 1));
      LeafViewAfterWrite(m, f, path, e, req.pa, other);
    } else {
      MapViewPointer(m, labels, levels, f, path, req, other);
    }
  }

  /** The case of a slot that points to a table. */
  lemma {:induction false} MapViewPointer(m: Memory, labels: Labels, levels: nat, f: nat, path: seq<nat>, req: Request,
      other: seq<nat>)
    requires Shaped(m, labels, levels) && f in labels && |labels[f].path| + |path| == levels
    requires 1 <= |path| == |req.flags| && Enough(m, f, path, req) && req.Valid() && |other| == |path|
    requires other[0] == path[0] && Read(m, f, path[0]) != ZERO && !Read(m, f, path[0]).IsLeaf(|path|)
    ensures View(MapAt(m, f, path, req), f, other) ==
            Overlay(path, Fill(View(m, f, path), req), other, View(m, f, other))
    decreases path, 0
  {
    hide OnPath, SetPa, PoolValid;
    MapView(m, labels, levels, Read(m, f, path[0]).page, path[1..], req.Tail(), other[1..]);
    PointerStays(m, labels, levels, f, path, req);
  }

  /** The case of an empty slot that gets a fresh table. */
  lemma {:induction false} MapViewNewTable(m: Memory, labels: Labels, levels: nat, f: nat, path: seq<nat>, req: Request,
      other: seq<nat>)
    requires Shaped(m, labels, levels) && f in labels && |labels[f].path| + |path| == levels
    requires 1 <= |path| == |req.flags| && Enough(m, f, path, req) && req.Valid() && |other| == |path|
    requires other[0] == path[0] && Read(m, f, path[0]) == ZERO && req.flags[0] != {} && !MakesLeaf(req.flags[0], |path|)
    ensures View(MapAt(m, f, path, req), f, other) ==
            Overlay(path, Fill(View(m, f, path), req), other, View(m, f, other))
    decreases path, 0
  {
    hide Shaped, OnPath, SetPa, PoolValid, Extends, ChangesOnly, View, Fill, Overlay, Read;
    LinkTable(m, labels, levels, f, path[0], req.flags[0]);
    var m1 := Write(Calloc(m), f, path[0], Entry(m.pool[0], req.flags[0]));
    var labels1 := labels[m.pool[0] := Child(labels[f], path[0])];
    EmptyView(m1, m.pool[0], path[1..]);
    EmptyView(m1, m.pool[0], other[1..]);
    MapView(m1, labels1, levels, m.pool[0], path[1..], req.Tail(), other[1..]);
    PointerStays(m1, labels1, levels, f, path, req);
    NewTableView(m, MapAt(m1, m.pool[0], path[1..], req.Tail()), f, m.pool[0], path, req, other);
  }

  /** A slot that was empty and now points to the table `below`, as the paths through it see it. */
  lemma NewTableView(m: Memory, after: Memory, f: nat, below: nat, path: seq<nat>, req: Request, other: seq<nat>)
    requires 1 <= |path| == |req.flags| == |other| && other[0] == path[0]
    requires Read(m, f, path[0]) == ZERO && req.flags[0] != {} && !MakesLeaf(req.flags[0], |path|)
    requires Read(after, f, path[0]) == Entry(below, req.flags[0])
    requires var n := |path| - 1;
      View(after, below, other[1..]) == Overlay(path[1..], Fill(Empties(n), req.Tail()), other[1..], Empties(n))
    ensures View(after, f, other) == Overlay(path, Fill(View(m, f, path), req), other, View(m, f, other))
  {
    hide Read;
    assert View(m, f, path)[1..] == Empties(|path| - 1) && View(m, f, other)[1..] == Empties(|path| - 1);
  }

  /** A call on the table below leaves the pointer to that table in place. */
  lemma PointerStays(m: Memory, labels: Labels, levels: nat, f: nat, path: seq<nat>, req: Request)
    requires Shaped(m, labels, levels) && f in labels && |labels[f].path| + |path| == levels
    requires 2 <= |path| == |req.flags| && req.Valid()
    requires var e := Read(m, f, path[0]); e != ZERO && !e.IsLeaf(|path|) && Enough(m, e.page, path[1..], req.Tail())
    ensures var e := Read(m, f, path[0]);
      Read(MapAt(m, e.page, path[1..], req.Tail()), f, path[0]) == e
  {
    var e := Read(m, f, path[0]);
    var more := MapKeepsShape(m, labels, levels, e.page, path[1..], req.Tail());
    if OnPath(labels[f], path[0], labels[e.page], path[1..]) {
      OnPathBelow(labels[f], path[0], labels[e.page], path[1..]);
    }
  }

  lemma LeafViewAfterWrite(m: Memory, f: nat, path: seq<nat>, e: Entry, pa: int, other: seq<nat>)
    requires path != [] && |other| == |path| && other[0] == path[0] && e.IsLeaf(|path|)
    ensures View(Write(m, f, path[0], SetPa(e, |path|, pa)), f, other) ==
            [SlotOf(SetPa(e, |path|, pa), |path|)] + Empties(|path| - 1)
  {
    SetPaBits(e, |path|, pa);
    ReadWrite(m, f, path[0], SetPa(e, |path|, pa));
  }

  lemma EmptyView(m: Memory, f: nat, path: seq<nat>)
    requires forall i {:trigger Read(m, f, i)} :: Read(m, f, i) == ZERO
    ensures View(m, f, path) == Empties(|path|)
  {
  }

  lemma {:induction false} OverlaySame(path: seq<nat>, other: seq<nat>, view: seq<Slot>)
    requires |path| == |other| == |view|
    ensures Overlay(path, view, other, view) == view
  {
    if path != [] && path[0] == other[0] {
      OverlaySame(path[1..], other[1..], view[1..]);
    }
  }

  /** An unmap call changes the views from its own table exactly as `Hide` says. */
  lemma {:induction false} UnmapView(m: Memory, labels: Labels, levels: nat, f: nat, path: seq<nat>, other: seq<nat>)
    requires Shaped(m, labels, levels) && f in labels && |labels[f].path| + |path| == levels
    requires |other| == |path|
    ensures View(UnmapAt(m, f, path), f, other) == Overlay(path, Hide(View(m, f, path)), other, View(m, f, other))
    decreases path, 1
  {
    hide Shaped, OnPath;
    if path != [] && path[0] != other[0] {
      UnmapKeepsShape(m, labels, levels, f, path);
      AvoidsByIndex(labels[f], other, labels[f], path, |labels[f].path|);
      ViewUnchanged(m, UnmapAt(m, f, path), labels, levels, labels[f], path, f, other);
    } else if path != [] {
      var e := Read(m, f, path[0]);
      if e == ZERO || e.IsLeaf(|path|) {
        UnmapViewLeaf(m, f, path, other);
      } else {
        UnmapViewPointer(m, labels, levels, f, path, other);
      }
    }
  }

  /** The case of an empty slot or a leaf. */
  lemma UnmapViewLeaf(m: Memory, f: nat, path: seq<nat>, other: seq<nat>)
    requires path != [] && |other| == |path| && other[0] == path[0]
    requires Read(m, f, path[0]) == ZERO || Read(m, f, path[0]).IsLeaf(|path|)
    ensures View(UnmapAt(m, f, path), f, other) == Overlay(path, Hide(View(m, f, path)), other, View(m, f, other))
  {
    var e := Read(m, f, path[0]);
    OverlaySame(path[1..], other[1..], Empties(|path| - 1));
    ReadWrite(m, f, path[0], SetBit(e, PRESENT, false));
  }

  /** The case of a slot that points to a table. */
  lemma {:induction false} UnmapViewPointer(m: Memory, labels: Labels, levels: nat, f: nat, path: seq<nat>, other: seq<nat>)
    requires Shaped(m, labels, levels) && f in labels && |labels[f].path| + |path| == levels
    requires path != [] && |other| == |path| && other[0] == path[0]
    requires Read(m, f, path[0]) != ZERO && !Read(m, f, path[0]).IsLeaf(|path|)
    ensures View(UnmapAt(m, f, path), f, other) == Overlay(path, Hide(View(m, f, path)), other, View(m, f, other))
    decreases path, 0
  {
    hide OnPath, PoolValid, SetBit;
    UnmapView(m, labels, levels, Read(m, f, path[0]).page, path[1..], other[1..]);
    UnmapKeepsPointer(m, labels, levels, f, path);
  }

  /** Unmapping below a pointer leaves the pointer in place. */
  lemma UnmapKeepsPointer(m: Memory, labels: Labels, levels: nat, f: nat, path: seq<nat>)
    requires Shaped(m, labels, levels) && f in labels && |labels[f].path| + |path| == levels && path != []
    requires var e := Read(m, f, path[0]); e != ZERO && !e.IsLeaf(|path|)
    ensures var e := Read(m, f, path[0]); Read(UnmapAt(m, e.page, path[1..]), f, path[0]) == e
  {
    var e := Read(m, f, path[0]);
    UnmapKeepsShape(m, labels, levels, e.page, path[1..]);
    if OnPath(labels[f], path[0], labels[e.page], path[1..]) {
      OnPathBelow(labels[f], path[0], labels[e.page], path[1..]);
    }
  }

  /** On a well-shaped table the processor's walk sees exactly the view. */
  lemma {:induction false} WalkIsTranslation(m: Memory, labels: Labels, levels: nat, f: nat, path: seq<nat>, v: nat)
    requires Shaped(m, labels, levels) && f in labels && |labels[f].path| + |path| == levels
    ensures Walk(m, f, path, v) == Translation(View(m, f, path), v)
    decreases path
  {
    if path != [] {
      var e := Read(m, f, path[0]);
      if e != ZERO && !e.IsLeaf(|path|) {
        WalkIsTranslation(m, labels, levels, e.page, path[1..], v);
      }
    }
  }

  /** Views of one memory agree on a shared prefix and hold nothing below a slot that is no pointer. */
  predicate Coherent(path: seq<nat>, view: seq<Slot>, other: seq<nat>, oview: seq<Slot>)
    requires |path| == |view| == |other| == |oview|
  {
    path == [] ||
    (&& (view[0].Leaf? ==> view[0].entry.IsLeaf(|view|))
     && (view[0].Pointer? || view[1..] == Empties(|view| - 1))
     && (oview[0].Pointer? || oview[1..] == Empties(|view| - 1))
     && (path[0] == other[0] ==> view[0] == oview[0] && Coherent(path[1..], view[1..], other[1..], oview[1..])))
  }

  lemma {:induction false} ViewsCoherent(m: Memory, f: nat, path: seq<nat>, other: seq<nat>)
    requires |path| == |other|
    ensures Coherent(path, View(m, f, path), other, View(m, f, other))
    decreases path
  {
    if path != [] && path[0] == other[0] {
      var e := Read(m, f, path[0]);
      if SlotOf(e, |path|).Pointer? {
        ViewsCoherent(m, e.page, path[1..], other[1..]);
      } else {
        EmptiesCoherent(path[1..], other[1..]);
      }
    }
  }

  lemma {:induction false} EmptiesCoherent(path: seq<nat>, other: seq<nat>)
    requires |path| == |other|
    ensures Coherent(path, Empties(|path|), other, Empties(|path|))
  {
    if path != [] {
      assert Empties(|path|)[1..] == Empties(|path| - 1);
      EmptiesCoherent(path[1..], other[1..]);
    }
  }
}
