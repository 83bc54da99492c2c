/**
 The kernel mapping and every address space made from it by `create_generic`
 (kernel/mm/vmm.cpp), over whole runs.
 */
module AddressSpaces {
  import opened Wrappers
  import opened PageEntry
  import opened PageTable
  import opened FlatMap

  /** All address spaces over one physical memory; `roots[0]` is the kernel mapping. */
  datatype Spaces = Spaces(m: Memory, roots: seq<nat>, levels: nat)

  function PathOf(v: nat, levels: nat): seq<nat> {
    if levels == 4 then Path4(v) else Path5(v)
  }

  datatype Op =
    | Create
    | Map(space: nat, v: nat, paddr: nat, flags1: Flags, flags0: Flags, pa: int)
    | Unmap(space: nat, v: nat)

  /** `create_generic`: a zeroed top table that gets the two kernel slots. */
  function CreateGeneric(m: Memory, kernel: nat): Memory
    requires m.pool != []
  {
    var root := m.pool[0];
    var m1 := Calloc(m);
    var m2 := Write(m1, root, 256, Read(m1, kernel, 256));
    Write(m2, root, 511, Read(m2, kernel, 511))
  }

  /** What the source needs of its caller: frames left, proper flags, and a page to unmap. */
  predicate Enabled(s: Spaces, op: Op) {
    s.levels in {4, 5} && s.roots != [] &&
    match op
    case Create => s.m.pool != []
    case Map(space, v, paddr, flags1, flags0, pa) =>
      && space < |s.roots| && TableFlags(flags1)
      && Enough(s.m, s.roots[space], PathOf(v, s.levels), RawRequest(s.levels, paddr, flags1, flags0, pa))
    case Unmap(space, v) =>
      space < |s.roots| && MappedLevel(View(s.m, s.roots[space], PathOf(v, s.levels))) > 0
  }

  function Step(s: Spaces, op: Op): Spaces
    requires Enabled(s, op)
  {
    match op
    case Create => Spaces(CreateGeneric(s.m, s.roots[0]), s.roots + [s.m.pool[0]], s.levels)
    case Map(space, v, paddr, flags1, flags0, pa) =>
      s.(m := MapRaw(s.m, s.roots[space], PathOf(v, s.levels), paddr, flags1, flags0, pa))
    case Unmap(space, v) =>
      s.(m := UnmapAt(s.m, s.roots[space], PathOf(v, s.levels)))
  }

  predicate RunEnabled(s: Spaces, ops: seq<Op>)
    decreases |ops|
  {
    ops == [] || (Enabled(s, ops[0]) && RunEnabled(Step(s, ops[0]), ops[1..]))
  }

  function Run(s: Spaces, ops: seq<Op>): Spaces
    requires RunEnabled(s, ops)
    decreases |ops|
  {
    if ops == [] then s else Run(Step(s, ops[0]), ops[1..])
  }

  /** Every space holds the kernel's entries in the two shared top-level slots, and they are in use. */
  ghost predicate KernelSlotsAgree(s: Spaces) {
    forall k, i {:trigger Read(s.m, s.roots[k], i)} :: 0 <= k < |s.roots| && IsShared(i) ==>
      Read(s.m, s.roots[k], i) == Read(s.m, s.roots[0], i) != ZERO
  }

  ghost predicate Valid(s: Spaces, labels: Labels) {
    && s.levels in {4, 5} && s.roots != []
    && Shaped(s.m, labels, s.levels)
    && (forall k :: 0 <= k < |s.roots| ==> s.roots[k] in labels && labels[s.roots[k]] == Position(k, []))
    && KernelSlotsAgree(s)
  }

  lemma CreateKeepsValid(s: Spaces, labels: Labels) returns (more: Labels)
    requires Valid(s, labels) && s.m.pool != []
    ensures Valid(Step(s, Create), more) && Within(more, labels, s.m.pool)
  {
    var root, kernel := s.m.pool[0], s.roots[0];
    var m1 := Calloc(s.m);
    var m2 := Write(m1, root, 256, Read(m1, kernel, 256));
    var m3 := CreateGeneric(s.m, kernel);
    assert root != kernel;
    ReadWrite(m1, root, 256, Read(m1, kernel, 256));
    ReadWrite(m2, root, 511, Read(m2, kernel, 511));
    forall f, i
      ensures Read(m3, f, i) ==
        if f != root then Read(s.m, f, i) else if IsShared(i) then Read(s.m, kernel, i) else ZERO
    {
      assert Read(m1, f, i) == if f == root then ZERO else Read(s.m, f, i);
    }
    more := labels[root := Position(|s.roots|, [])];
    var s' := Step(s, Create);
    forall f, i | f in more && Read(m3, f, i) != ZERO && !Read(m3, f, i).IsLeaf(s.levels - |more[f].path|)
      ensures Linked(Read(m3, f, i), more, Child(more[f], i))
    {
      if f == root {
        assert Linked(Read(s.m, kernel, i), labels, Child(labels[kernel], i));
      } else {
        assert Linked(Read(s.m, f, i), labels, Child(labels[f], i));
      }
    }
  }

  /** Below an unshared top-level slot everything belongs to the space itself. */
  lemma {:induction false} OnPathOwner(p: Position, i: nat, a: Position, path: seq<nat>)
    requires OnPath(p, i, a, path) && (a.path == [] ==> !IsShared(path[0]))
    ensures p.owner == a.owner
    decreases path
  {
    if !(p == a && i == path[0]) {
      OnPathOwner(p, i, Child(a, path[0]), path[1..]);
    }
  }

  lemma {:induction false} AvoidsByOwner(b: Position, other: seq<nat>, a: Position, path: seq<nat>)
    requires path != [] && a.path == [] && !IsShared(path[0])
    requires b.owner != a.owner && a.owner != SHARED
    ensures Avoids(b, other, a, path)
    decreases other
  {
    if other != [] {
      if OnPath(b, other[0], a, path) {
        OnPathOwner(b, other[0], a, path);
      }
      AvoidsByOwner(Child(b, other[0]), other[1..], a, path);
    }
  }

  /** A change on one space's path is invisible from another, except through a shared slot of that path. */
  lemma OtherSpaceUnchanged(s: Spaces, labels: Labels, m1: Memory, a: nat, path: seq<nat>, b: nat, other: seq<nat>)
    requires Valid(s, labels) && a < |s.roots| && b < |s.roots| && a != b
    requires |path| == |other| == s.levels
    requires ChangesOnly(s.m, m1, labels, Position(a, []), path)
    requires !IsShared(path[0]) || path[0] != other[0]
    ensures View(m1, s.roots[b], other) == View(s.m, s.roots[b], other)
  {
    if IsShared(path[0]) {
      AvoidsByIndex(Position(b, []), other, Position(a, []), path, 0);
    } else {
      AvoidsByOwner(Position(b, []), other, Position(a, []), path);
    }
    ViewUnchanged(s.m, m1, labels, s.levels, Position(a, []), path, s.roots[b], other);
  }

  /** A change on one space's path that keeps that path's top entry, if in use, keeps the shared slots. */
  lemma ChangeKeepsKernelSlots(s: Spaces, labels: Labels, m1: Memory, a: nat, path: seq<nat>)
    requires Valid(s, labels) && a < |s.roots| && |path| == s.levels
    requires ChangesOnly(s.m, m1, labels, Position(a, []), path)
    requires Read(s.m, s.roots[a], path[0]) != ZERO ==>
      Read(m1, s.roots[a], path[0]) == Read(s.m, s.roots[a], path[0])
    ensures KernelSlotsAgree(s.(m := m1))
  {
    forall k, i | 0 <= k < |s.roots| && IsShared(i)
      ensures Read(m1, s.roots[k], i) == Read(s.m, s.roots[k], i)
    {
      if OnPath(Position(k, []), i, Position(a, []), path) && !(k == a && i == path[0]) {
        OnPathBelow(Position(k, []), i, Child(Position(a, []), path[0]), path[1..]);
      }
      assert Read(s.m, s.roots[k], i) != ZERO;
    }
    assert forall i :: IsShared(i) ==> Read(m1, s.roots[0], i) == Read(s.m, s.roots[0], i);
  }

  lemma MapKeepsValid(s: Spaces, labels: Labels, op: Op) returns (more: Labels)
    requires Valid(s, labels) && op.Map? && Enabled(s, op)
    ensures Valid(Step(s, op), more) && Within(more, labels, s.m.pool)
    ensures ChangesOnly(s.m, Step(s, op).m, labels, Position(op.space, []), PathOf(op.v, s.levels))
  {
    var root, path := s.roots[op.space], PathOf(op.v, s.levels);
    var req := RawRequest(s.levels, op.paddr, op.flags1, op.flags0, op.pa);
    RawRequestValid(s.levels, op.paddr, op.flags1, op.flags0, op.pa);
    more := MapKeepsShape(s.m, labels, s.levels, root, path, req);
    if Read(s.m, root, path[0]) != ZERO {
      PointerStays(s.m, labels, s.levels, root, path, req);
    }
    ChangeKeepsKernelSlots(s, labels, Step(s, op).m, op.space, path);
  }

  lemma UnmapKeepsValid(s: Spaces, labels: Labels, op: Op)
    requires Valid(s, labels) && op.Unmap? && Enabled(s, op)
    ensures Valid(Step(s, op), labels)
    ensures ChangesOnly(s.m, Step(s, op).m, labels, Position(op.space, []), PathOf(op.v, s.levels))
  {
    var root, path := s.roots[op.space], PathOf(op.v, s.levels);
    UnmapKeepsShape(s.m, labels, s.levels, root, path);
    var e := Read(s.m, root, path[0]);
    UnmapKeepsShape(s.m, labels, s.levels, e.page, path[1..]);
    if OnPath(labels[root], path[0], labels[e.page], path[1..]) {
      OnPathBelow(labels[root], path[0], labels[e.page], path[1..]);
    }
    ChangeKeepsKernelSlots(s, labels, Step(s, op).m, op.space, path);
  }

  /** In every run, tables stay unaliased and every space keeps the kernel's two slots. */
  lemma {:induction false} RunKeepsValid(s: Spaces, labels: Labels, ops: seq<Op>) returns (more: Labels)
    requires Valid(s, labels) && RunEnabled(s, ops)
    ensures Valid(Run(s, ops), more)
    decreases |ops|
  {
    if ops == [] {
      more := labels;
    } else {
      var labels1 := labels;
      match ops[0] {
        case Create => labels1 := CreateKeepsValid(s, labels);
        case Map(_, _, _, _, _, _) => labels1 := MapKeepsValid(s, labels, ops[0]);
        case Unmap(_, _) => UnmapKeepsValid(s, labels, ops[0]);
      }
      more := RunKeepsValid(Step(s, ops[0]), labels1, ops[1..]);
    }
  }

  /** Any two spaces translate every address of the shared slots alike. */
  lemma SharedSlotsTranslateAlike(s: Spaces, labels: Labels, a: nat, b: nat, w: nat)
    requires Valid(s, labels) && a < |s.roots| && b < |s.roots|
    requires IsShared(PathOf(w, s.levels)[0])
    ensures View(s.m, s.roots[a], PathOf(w, s.levels)) == View(s.m, s.roots[b], PathOf(w, s.levels))
    ensures Walk(s.m, s.roots[a], PathOf(w, s.levels), w) == Walk(s.m, s.roots[b], PathOf(w, s.levels), w)
  {
    var i := PathOf(w, s.levels)[0];
    assert Read(s.m, s.roots[a], i) == Read(s.m, s.roots[0], i) == Read(s.m, s.roots[b], i);
  }

  /**
   A `map_page_raw` through space `op.space`, seen from any space `b` at any address `w`: the
   new leaf shows in its own space, and in every space when its slot is shared; nothing else
   changes anywhere.
   */
  lemma MapAcrossSpaces(s: Spaces, labels: Labels, op: Op, b: nat, w: nat)
    requires Valid(s, labels) && op.Map? && Enabled(s, op) && b < |s.roots|
    ensures var path, other := PathOf(op.v, s.levels), PathOf(w, s.levels);
      var level := LeafLevel(op.flags0);
      Walk(Step(s, op).m, s.roots[b], other, w) ==
      if && (b == op.space || IsShared(path[0]))
         && SamePage(path, other, level)
         && Spare(View(s.m, s.roots[op.space], path), level)
         && op.flags0 != {} && LeafEntry(op.paddr, op.flags0).Present()
      then Some(Resolve(LeafEntry(op.paddr, op.flags0), level, w))
      else Walk(s.m, s.roots[b], other, w)
  {
    var path, other := PathOf(op.v, s.levels), PathOf(w, s.levels);
    var more := MapKeepsValid(s, labels, op);
    MapRawTranslates(s.m, labels, s.roots[op.space], path, op.paddr, op.flags1, op.flags0, op.pa, other, w);
    if b != op.space {
      if IsShared(path[0]) && path[0] == other[0] {
        SharedSlotsTranslateAlike(s, labels, op.space, b, w);
        SharedSlotsTranslateAlike(Step(s, op), more, op.space, b, w);
      } else {
        OtherSpaceUnchanged(s, labels, Step(s, op).m, op.space, path, b, other);
        WalkIsTranslation(s.m, labels, s.levels, s.roots[b], other, w);
        WalkIsTranslation(Step(s, op).m, more, s.levels, s.roots[b], other, w);
      }
    }
  }

  /**
   A new space sees the kernel's two slots and nothing else, and no other space sees a change.
   */
  lemma CreateAcrossSpaces(s: Spaces, labels: Labels, b: nat, w: nat)
    requires Valid(s, labels) && s.m.pool != [] && b <= |s.roots|
    ensures var s', other := Step(s, Create), PathOf(w, s.levels);
      Walk(s'.m, s'.roots[b], other, w) ==
      if b < |s.roots| then Walk(s.m, s.roots[b], other, w)
      else if other[0] == 256 || other[0] == 511 then Walk(s.m, s.roots[0], other, w)
      else None
  {
    var more := CreateKeepsValid(s, labels);
    var s', other := Step(s, Create), PathOf(w, s.levels);
    CreatedCells(s, labels);
    if b < |s.roots| {
      OldSpaceSame(s, labels, b, w);
    } else if IsShared(other[0]) {
      SharedSlotsTranslateAlike(s', more, b, 0, w);
      assert s'.roots[0] == s.roots[0];
      OldSpaceSame(s, labels, 0, w);
    }
  }

  /** What `create_generic` writes. */
  lemma CreatedCells(s: Spaces, labels: Labels)
    requires Valid(s, labels) && s.m.pool != []
    ensures forall f, i {:trigger Read(Step(s, Create).m, f, i)} ::
      Read(Step(s, Create).m, f, i) ==
      (if f != s.m.pool[0] then Read(s.m, f, i) else if i == 256 || i == 511 then Read(s.m, s.roots[0], i) else ZERO)
  {
    var root, kernel := s.m.pool[0], s.roots[0];
    var m1 := Calloc(s.m);
    var m2 := Write(m1, root, 256, Read(m1, kernel, 256));
    assert root != kernel;
    ReadWrite(m1, root, 256, Read(m1, kernel, 256));
    ReadWrite(m2, root, 511, Read(m2, kernel, 511));
    forall f, i
      ensures Read(m1, f, i) == if f == root then ZERO else Read(s.m, f, i)
    {
    }
  }

  lemma OldSpaceSame(s: Spaces, labels: Labels, b: nat, w: nat)
    requires Valid(s, labels) && s.m.pool != [] && b < |s.roots|
    ensures var s', other := Step(s, Create), PathOf(w, s.levels);
      Walk(s'.m, s.roots[b], other, w) == Walk(s.m, s.roots[b], other, w)
  {
    var more := CreateKeepsValid(s, labels);
    var s', other := Step(s, Create), PathOf(w, s.levels);
    CreatedCells(s, labels);
    assert ChangesOnly(s.m, s'.m, labels, Position(b, []), []);
    AvoidsNothing(Position(b, []), other, Position(b, []));
    ViewUnchanged(s.m, s'.m, labels, s.levels, Position(b, []), [], s.roots[b], other);
    WalkIsTranslation(s.m, labels, s.levels, s.roots[b], other, w);
    WalkIsTranslation(s'.m, more, s.levels, s.roots[b], other, w);
  }

  lemma {:induction false} AvoidsNothing(b: Position, other: seq<nat>, a: Position)
    ensures Avoids(b, other, a, [])
    decreases other
  {
    if other != [] {
      AvoidsNothing(Child(b, other[0]), other[1..], a);
    }
  }

  /** An `unmap` through one space, seen from any space at any address. */
  lemma UnmapAcrossSpaces(s: Spaces, labels: Labels, op: Op, b: nat, w: nat)
    requires Valid(s, labels) && op.Unmap? && Enabled(s, op) && b < |s.roots|
    ensures var path, other := PathOf(op.v, s.levels), PathOf(w, s.levels);
      var level := MappedLevel(View(s.m, s.roots[op.space], path));
      Walk(Step(s, op).m, s.roots[b], other, w) ==
      if (b == op.space || IsShared(path[0])) && SamePage(path, other, level) then None
      else Walk(s.m, s.roots[b], other, w)
  {
    var path, other := PathOf(op.v, s.levels), PathOf(w, s.levels);
    UnmapKeepsValid(s, labels, op);
    UnmapTranslates(s.m, labels, s.roots[op.space], path, other, w);
    if b != op.space {
      if IsShared(path[0]) && path[0] == other[0] {
        SharedSlotsTranslateAlike(s, labels, op.space, b, w);
        SharedSlotsTranslateAlike(Step(s, op), labels, op.space, b, w);
      } else {
        OtherSpaceUnchanged(s, labels, Step(s, op).m, op.space, path, b, other);
        WalkIsTranslation(s.m, labels, s.levels, s.roots[b], other, w);
        WalkIsTranslation(Step(s, op).m, labels, s.levels, s.roots[b], other, w);
      }
    }
  }
}
