/**
 The walk of section 4.5 of the Intel SDM, Volume 3A, on the bits of the address itself, as a
 reference for the paths of indices that `compute_indices` makes.
 */
module ManualWalk {
  import opened Wrappers
  import opened Arithmetic
  import opened PageEntry
  import opened PageTable
  import opened AddressSpaces
  import opened VirtualAddress

  /** The bytes that one entry of a level covers: 4 KiB, 2 MiB, 1 GiB, 512 GiB, 256 TiB. */
  function Unit(level: nat): nat {
    if level <= 1 then 0x1000
    else if level == 2 then 0x20_0000
    else if level == 3 then 0x4000_0000
    else if level == 4 then 0x80_0000_0000
    else 0x1_0000_0000_0000
  }

  /** Nine bits of the address select the entry: bits 20:12 at level 1, up to bits 56:48 at level 5. */
  function Index(v: nat, level: nat): nat {
    v / Unit(level) % 512
  }

  /** The walk from table `f` of the given level: bit 0 of an entry is P, bit 7 is PS. */
  function AddressWalk(m: Memory, f: nat, level: nat, v: nat): Option<nat>
    decreases level
  {
    if level == 0 then None
    else
      var e := Read(m, f, Index(v, level));
      if 0 !in e.flags then None
      else if level == 1 || (level <= 3 && 7 in e.flags) then
        Some(e.page * 0x1000 / Unit(level) * Unit(level) + v % Unit(level))
      else AddressWalk(m, e.page, level - 1, v)
  }

  /** `compute_indices` gives, from the top level down, what the processor takes from the address. */
  lemma PathIndices(v: nat, levels: nat, k: nat)
    requires levels in {4, 5} && k < levels
    ensures |PathOf(v, levels)| == levels && PathOf(v, levels)[k] == Index(v, levels - k)
  {
  }

  /** The entry of a leaf and the address give the same physical address both ways. */
  lemma ResolveIs(e: Entry, level: nat, v: nat)
    requires 1 <= level <= 3
    ensures Resolve(e, level, v) == e.page * 0x1000 / Unit(level) * Unit(level) + v % Unit(level)
  {
    var n := LeafPages(level);
    assert Unit(level) == n * 0x1000;
    var q, r := e.page / n, e.page % n;
    assert e.page == q * n + r;
    QuotientUnique(e.page * 0x1000, n * 0x1000, q, r * 0x1000);
  }

  /** Walking by indices is walking by the address. */
  lemma WalkIsAddressWalk(m: Memory, f: nat, v: nat, levels: nat)
    requires levels in {4, 5}
    ensures Walk(m, f, PathOf(v, levels), v) == AddressWalk(m, f, levels, v)
  {
    var path := PathOf(v, levels);
    PathIndices(v, levels, 0);
    assert path[0..] == path;
    WalkFrom(m, f, v, levels, 0);
  }

  lemma {:induction false} WalkFrom(m: Memory, f: nat, v: nat, levels: nat, k: nat)
    requires levels in {4, 5} && k <= levels == |PathOf(v, levels)|
    ensures Walk(m, f, PathOf(v, levels)[k..], v) == AddressWalk(m, f, levels - k, v)
    decreases levels - k
  {
    hide Path4, Path5, Read, Resolve, Unit;
    if k < levels {
      var path, level := PathOf(v, levels), levels - k;
      PathIndices(v, levels, k);
      var e := Read(m, f, path[k]);
      assert path[k..][0] == path[k] && path[k..][1..] == path[k + 1..];
      if 1 <= level <= 3 {
        ResolveIs(e, level, v);
      }
      WalkFrom(m, e.page, v, levels, k + 1);
    }
  }
}
