/** The in-place page-table operations of kernel/mm/vmm.cpp, proved against the values of PageTable. */
module Vmm {
  import opened PageEntry
  import opened PageTable
  import opened FlatMap
  import opened AddressSpaces

  class PhysicalMemory {
    var tables: map<nat, Table>
    var pool: seq<nat>

    ghost function Value(): Memory
      reads this
    {
      Memory(tables, pool)
    }

    method Calloc() returns (f: nat)
      requires pool != []
      modifies this
      ensures f == old(pool[0]) && Value() == PageTable.Calloc(old(Value()))
    {
      f := pool[0];
      pool := pool[1..];
      tables := tables[f := map[]];
    }

    method Load(f: nat, i: nat) returns (e: Entry)
      ensures e == Read(Value(), f, i)
    {
      e := if f in tables && i in tables[f] then tables[f][i] else ZERO;
    }

    method Store(f: nat, i: nat, e: Entry)
      modifies this
      ensures Value() == Write(old(Value()), f, i, e)
    {
      var table := if f in tables then tables[f] else map[];
      tables := tables[f := table[i := e]];
    }

    /** `pmle::set_pa` on the entry at `f`, `i`, one attribute bit after the other. */
    method SetAttributes(f: nat, i: nat, level: nat, pa: int)
      requires pa != NO_PA
      modifies this
      ensures Value() == Write(old(Value()), f, i, SetPa(Read(old(Value()), f, i), level, pa))
    {
      ghost var m := Value();
      RewriteSame(m, f, i);
      var e := Load(f, i);
      Store(f, i, SetPat(e, level, PaBit(pa, 4)));
      e := Load(f, i);
      assert Value() == Write(m, f, i, e);
      Store(f, i, SetBit(e, CACHE_DISABLE, PaBit(pa, 2)));
      e := Load(f, i);
      assert Value() == Write(m, f, i, e);
      Store(f, i, SetBit(e, WRITE_THROUGH, PaBit(pa, 1)));
    }

    /**
     One level of `virtual_address::map`: fill the slot if it is empty, then either stop (no
     flags, or a leaf) or go on to the table below. Either way the rest of the call is what
     `MapAt` says it is.
     */
    method MapLevel(f: nat, ghost path: seq<nat>, level: nat, i: nat, flags: Flags, paddr: nat, pa: int,
        ghost req: Request) returns (done: bool, next: nat)
      requires 1 <= |path| == |req.flags| && Enough(Value(), f, path, req) && level == |path| && i == path[0]
      requires flags == req.flags[0] && paddr == req.paddr && pa == req.pa
      modifies this
      ensures done ==> Value() == MapAt(old(Value()), f, path, req)
      ensures !done ==> 2 <= |path| && Enough(Value(), next, path[1..], req.Tail())
      ensures !done ==> MapAt(old(Value()), f, path, req) == MapAt(Value(), next, path[1..], req.Tail())
    {
      next := 0;
      var e := Load(f, i);
      if e == ZERO {
        if flags == {} {
          return true, 0;
        }
        if level == 1 || (level <= 3 && PAGE_SIZE_BIT in flags) {
          Store(f, i, LeafEntry(paddr, flags));
        } else {
          var frame := Calloc();
          Store(f, i, Entry(frame, flags));
        }
        e := Load(f, i);
      }
      if e.IsLeaf(level) {
        if pa != NO_PA {
          SetAttributes(f, i, level, pa);
        }
        RewriteSame(old(Value()), f, i);
        return true, 0;
      }
      return false, e.page;
    }
  }

  lemma RewriteSame(m: Memory, f: nat, i: nat)
    ensures Read(m, f, i) != ZERO ==> Write(m, f, i, Read(m, f, i)) == m
    ensures forall d, e :: Write(Write(m, f, i, d), f, i, e) == Write(m, f, i, e)
  {
    if Read(m, f, i) != ZERO {
      assert m.tables[f][i := m.tables[f][i]] == m.tables[f];
      assert m.tables[f := m.tables[f]] == m.tables;
    }
    forall d, e
      ensures Write(Write(m, f, i, d), f, i, e) == Write(m, f, i, e)
    {
      var table: Table := if f in m.tables then m.tables[f] else map[];
      assert table[i := d][i := e] == table[i := e];
      assert m.tables[f := table[i := d]][f := table[i := e]] == m.tables[f := table[i := e]];
    }
  }

  /** One level of the walk to a mapped leaf. */
  lemma UnmapStep(m: Memory, f: nat, path: seq<nat>)
    requires path != [] && MappedLevel(View(m, f, path)) > 0
    ensures var e := Read(m, f, path[0]);
      e != ZERO &&
      if e.IsLeaf(|path|) then
        && UnmapAt(m, f, path) == Write(m, f, path[0], SetBit(e, PRESENT, false))
        && MappedEntry(View(m, f, path)) == e
      else
        && UnmapAt(m, f, path) == UnmapAt(m, e.page, path[1..])
        && MappedLevel(View(m, e.page, path[1..])) > 0
        && MappedEntry(View(m, f, path)) == MappedEntry(View(m, e.page, path[1..]))
  {
    var e := Read(m, f, path[0]);
    if e != ZERO && !e.IsLeaf(|path|) {
      assert View(m, f, path)[1..] == View(m, e.page, path[1..]);
    }
  }

  /** `pml4_table`. */
  class Pml4Table {
    const memory: PhysicalMemory
    const root: nat

    constructor (memory: PhysicalMemory, root: nat)
      ensures this.memory == memory && this.root == root
    {
      this.memory := memory;
      this.root := root;
    }

    /** `pml4_table::virtual_address::map`. */
    method Map(v: nat, paddr: nat, flags4: Flags, flags3: Flags, flags2: Flags, flags1: Flags, pa: int)
      requires Enough(memory.Value(), root, Path4(v), Request([flags4, flags3, flags2, flags1], paddr, pa))
      modifies memory
      ensures memory.Value() ==
        MapAt(old(memory.Value()), root, Path4(v), Request([flags4, flags3, flags2, flags1], paddr, pa))
    {
      hide MapAt, Enough;
      ghost var path := Path4(v);
      ghost var req := Request([flags4, flags3, flags2, flags1], paddr, pa);
      var i4, i3, i2, i1 := v / 0x80_0000_0000 % 512, v / 0x4000_0000 % 512, v / 0x20_0000 % 512, v / 0x1000 % 512;
      var done, pml3 := memory.MapLevel(root, path, 4, i4, flags4, paddr, pa, req);
      if done { return; }
      var pml2;
      done, pml2 := memory.MapLevel(pml3, path[1..], 3, i3, flags3, paddr, pa, req.Tail());
      if done { return; }
      var pml1;
      done, pml1 := memory.MapLevel(pml2, path[1..][1..], 2, i2, flags2, paddr, pa, req.Tail().Tail());
      if done { return; }
      done, pml1 := memory.MapLevel(pml1, path[1..][1..][1..], 1, i1, flags1, paddr, pa, req.Tail().Tail().Tail());
    }

    /** `pml4_table::map_page_raw`. */
    method MapPageRaw(v: nat, paddr: nat, flags1: Flags, flags0: Flags, pa: int)
      requires Enough(memory.Value(), root, Path4(v), RawRequest(4, paddr, flags1, flags0, pa))
      modifies memory
      ensures memory.Value() == MapRaw(old(memory.Value()), root, Path4(v), paddr, flags1, flags0, pa)
    {
      if PAGE_SIZE_BIT in flags0 {
        assert RawFlags(4, flags1, flags0) == [flags1, flags1, flags0, {}];
        Map(v, paddr, flags1, flags1, flags0, {}, pa);
      } else {
        assert RawFlags(4, flags1, flags0) == [flags1, flags1, flags1, flags0];
        Map(v, paddr, flags1, flags1, flags1, flags0, pa);
      }
    }

    /** The walking constructor of `virtual_address` followed by `unmap`. */
    method Unmap(v: nat) returns (paddr: nat)
      requires Traversable(View(memory.Value(), root, Path4(v)))
      modifies memory
      ensures memory.Value() == UnmapAt(old(memory.Value()), root, Path4(v))
      ensures paddr == MappedEntry(View(old(memory.Value()), root, Path4(v))).page * PAGE
    {
      var i4, i3, i2, i1 := v / 0x80_0000_0000 % 512, v / 0x4000_0000 % 512, v / 0x20_0000 % 512, v / 0x1000 % 512;
      ghost var m, path := memory.Value(), Path4(v);
      ghost var path3, path2, path1 := path[1..], path[1..][1..], path[1..][1..][1..];
      UnmapStep(m, root, path);
      var e4 := memory.Load(root, i4);
      UnmapStep(m, e4.page, path3);
      var e3 := memory.Load(e4.page, i3);
      if e3.Huge() {
        memory.Store(e4.page, i3, SetBit(e3, PRESENT, false));
        return e3.page * PAGE;
      }
      UnmapStep(m, e3.page, path2);
      var e2 := memory.Load(e3.page, i2);
      if e2.Huge() {
        memory.Store(e3.page, i2, SetBit(e2, PRESENT, false));
        return e2.page * PAGE;
      }
      UnmapStep(m, e2.page, path1);
      var e1 := memory.Load(e2.page, i1);
      memory.Store(e2.page, i1, SetBit(e1, PRESENT, false));
      return e1.page * PAGE;
    }

    /** `pml4_table::create_generic`, where `this` plays `kernel_mapping`. */
    method CreateGeneric() returns (table: Pml4Table)
      requires memory.pool != []
      modifies memory
      ensures fresh(table) && table.memory == memory && table.root == old(memory.pool[0])
      ensures memory.Value() == AddressSpaces.CreateGeneric(old(memory.Value()), root)
    {
      var top := memory.Calloc();
      var e := memory.Load(root, 256);
      memory.Store(top, 256, e);
      e := memory.Load(root, 511);
      memory.Store(top, 511, e);
      table := new Pml4Table(memory, top);
    }
  }

  /** `pml5_table`. */
  class Pml5Table {
    const memory: PhysicalMemory
    const root: nat

    constructor (memory: PhysicalMemory, root: nat)
      ensures this.memory == memory && this.root == root
    {
      this.memory := memory;
      this.root := root;
    }

    /** `pml5_table::virtual_address::map`. */
    method Map(v: nat, paddr: nat, flags5: Flags, flags4: Flags, flags3: Flags, flags2: Flags, flags1: Flags, pa: int)
      requires Enough(memory.Value(), root, Path5(v), Request([flags5, flags4, flags3, flags2, flags1], paddr, pa))
      modifies memory
      ensures memory.Value() ==
        MapAt(old(memory.Value()), root, Path5(v), Request([flags5, flags4, flags3, flags2, flags1], paddr, pa))
    {
      hide MapAt, Enough;
      ghost var path := Path5(v);
      ghost var req := Request([flags5, flags4, flags3, flags2, flags1], paddr, pa);
      ghost var path4, req4 := path[1..], req.Tail();
      ghost var path3, req3 := path4[1..], req4.Tail();
      ghost var path2, req2 := path3[1..], req3.Tail();
      var i4, i3, i2, i1 := v / 0x80_0000_0000 % 512, v / 0x4000_0000 % 512, v / 0x20_0000 % 512, v / 0x1000 % 512;
      var done, next := memory.MapLevel(root, path, 5, v / 0x1_0000_0000_0000 % 512, flags5, paddr, pa, req);
      if done { return; }
      done, next := memory.MapLevel(next, path4, 4, i4, flags4, paddr, pa, req4);
      if done { return; }
      done, next := memory.MapLevel(next, path3, 3, i3, flags3, paddr, pa, req3);
      if done { return; }
      done, next := memory.MapLevel(next, path2, 2, i2, flags2, paddr, pa, req2);
      if done { return; }
      done, next := memory.MapLevel(next, path2[1..], 1, i1, flags1, paddr, pa, req2.Tail());
    }

    /** `pml5_table::map_page_raw`. */
    method MapPageRaw(v: nat, paddr: nat, flags1: Flags, flags0: Flags, pa: int)
      requires Enough(memory.Value(), root, Path5(v), RawRequest(5, paddr, flags1, flags0, pa))
      modifies memory
      ensures memory.Value() == MapRaw(old(memory.Value()), root, Path5(v), paddr, flags1, flags0, pa)
    {
      if PAGE_SIZE_BIT in flags0 {
        assert RawFlags(5, flags1, flags0) == [flags1, flags1, flags1, flags0, {}];
        Map(v, paddr, flags1, flags1, flags1, flags0, {}, pa);
      } else {
        assert RawFlags(5, flags1, flags0) == [flags1, flags1, flags1, flags1, flags0];
        Map(v, paddr, flags1, flags1, flags1, flags1, flags0, pa);
      }
    }
  }
}
