/**
 Page-table entries and virtual-address indices (kernel/mm/vmm.hpp).

 A 64-bit entry is split where the source splits it: `page` is the word above its low
 twelve bits and `flags` is the set of low bits that are one, so that `|` on flags is
 union and `&` with a flag is membership.
 */
module PageEntry {
  import opened Arithmetic

  type Flags = set<nat>

  const PRESENT: nat := 0
  const WRITE_THROUGH: nat := 3
  const CACHE_DISABLE: nat := 4
  const PAGE_SIZE_BIT: nat := 7
  const PAGE: nat := 0x1000

  /** The `pa` argument that leaves the cache attributes alone. */
  const NO_PA: int := -1

  datatype Entry = Entry(page: nat, flags: Flags) {
    predicate Present() {
      PRESENT in flags
    }

    predicate Huge() {
      PAGE_SIZE_BIT in flags
    }

    /** Levels count from 1 (the 4 KiB leaf level) to 5. Only levels 2 and 3 look at the PS bit. */
    predicate IsLeaf(level: nat) {
      level == 1 || (level <= 3 && Huge())
    }
  }

  const ZERO: Entry := Entry(0, {})

  /** The numbers of the bits that are one in `x`, counted from `i`. */
  function BitsFrom(x: nat, i: nat): Flags {
    if x == 0 then {} else (if x % 2 == 1 then {i} else {}) + BitsFrom(x / 2, i + 1)
  }

  /** `paddr | flags`: what an unaligned address has in its low twelve bits ends up in the flags. */
  function LeafEntry(paddr: nat, flags: Flags): Entry {
    Entry(paddr / PAGE, flags + BitsFrom(paddr % PAGE, 0))
  }

  /** `set_bit` for one of the low twelve bits. */
  function SetBit(e: Entry, bit: nat, value: bool): Entry {
    e.(flags := if value then e.flags + {bit} else e.flags - {bit})
  }

  /** The PAT bit: bit 7 of a 4 KiB leaf, bit 12 (the lowest page bit) of a larger one. */
  function SetPat(e: Entry, level: nat, value: bool): Entry {
    if level == 1 then SetBit(e, PAGE_SIZE_BIT, value)
    else e.(page := e.page / 2 * 2 + (if value then 1 else 0))
  }

  /** `bm_test` on the `pa` argument itself. */
  predicate PaBit(pa: int, weight: nat)
    requires weight > 0
  {
    pa / weight % 2 == 1
  }

  /** `set_pa` on a leaf of the given level, where -1 means that it is not called. */
  function SetPa(e: Entry, level: nat, pa: int): Entry {
    if pa == NO_PA then e
    else
      var e1 := SetPat(e, level, PaBit(pa, 4));
      var e2 := SetBit(e1, CACHE_DISABLE, PaBit(pa, 2));
      SetBit(e2, WRITE_THROUGH, PaBit(pa, 1))
  }

  /** The pages that one leaf of the given level covers: 4 KiB, 2 MiB or 1 GiB. */
  function LeafPages(level: nat): (r: nat)
    ensures r > 0
  {
    if level == 1 then 1 else if level == 2 then 512 else 0x4_0000
  }

  function LeafSize(level: nat): (r: nat)
    ensures r > 0
  {
    LeafPages(level) * PAGE
  }

  /** The first page of the frame that a leaf entry names. */
  function FramePage(e: Entry, level: nat): nat {
    e.page / LeafPages(level) * LeafPages(level)
  }

  /** The physical address that leaf entry `e` of the given level gives for `v`. */
  function Resolve(e: Entry, level: nat, v: nat): nat {
    FramePage(e, level) * PAGE + v % LeafSize(level)
  }

  /** `compute_indices` of the four-level table, top level first. */
  function Path4(v: nat): seq<nat> {
    [v / 0x80_0000_0000 % 512, v / 0x4000_0000 % 512, v / 0x20_0000 % 512, v / 0x1000 % 512]
  }

  /** `compute_indices` of the five-level table, top level first. */
  function Path5(v: nat): seq<nat> {
    [v / 0x1_0000_0000_0000 % 512] + Path4(v)
  }

  /** Flags that make an entry a pointer to a lower table. */
  predicate TableFlags(flags: Flags) {
    PRESENT in flags && PAGE_SIZE_BIT !in flags
  }

  /** The cache attributes share no bit with the frame, the present bit or (above level 1) PS. */
  lemma SetPaBits(e: Entry, level: nat, pa: int)
    requires 1 <= level <= 3
    ensures level >= 2 ==> SetPa(e, level, pa).Huge() == e.Huge()
    ensures SetPa(e, level, pa).Present() == e.Present()
    ensures FramePage(SetPa(e, level, pa), level) == FramePage(e, level)
  {
    if level >= 2 {
      EvenQuotient(e.page, LeafPages(level) / 2);
    }
  }

  lemma EvenQuotient(x: nat, half: nat)
    requires half > 0
    ensures (x / 2 * 2) / (2 * half) == x / (2 * half) == (x / 2 * 2 + 1) / (2 * half)
  {
    var q, r := x / (2 * half), x % (2 * half);
    assert x == q * (2 * half) + r;
    assert x / 2 == q * half + r / 2;
    assert r / 2 < half;
    QuotientUnique(x / 2 * 2, 2 * half, q, r / 2 * 2);
    QuotientUnique(x / 2 * 2 + 1, 2 * half, q, r / 2 * 2 + 1);
  }
}
